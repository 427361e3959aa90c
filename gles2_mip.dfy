/**
 * Integer arithmetic of OgreGLES2HardwarePixelBuffer.cpp: the exact base-2
 * logarithm `computeLog`, the size of a texture at a mip level, and the
 * halving of dimensions along a mip chain.
 */
module GLES2Mip {

  function Pow2(k: nat): (r: nat)
    ensures r >= 1
  {
    if k == 0 then 1 else 2 * Pow2(k - 1)
  }

  function Max(a: int, b: int): int { if a > b then a else b }

  /**
   * What computeLog returns, as a function: the number of halvings that
   * bring `v` down to 1 when every halving is exact, and -1 as soon as an
   * odd value other than 1 (or 0) turns up.
   */
  function LogOf(v: nat): (r: int)
    ensures r >= -1
    ensures r >= 0 ==> Pow2(r) == v
    decreases v
  {
    if v == 0 then -1
    else if v % 2 == 1 then (if v == 1 then 0 else -1)
    else
      var r := LogOf(v / 2);
      if r < 0 then -1 else r + 1
  }

  lemma {:induction false} LogOfPow2(k: nat)
    ensures LogOf(Pow2(k)) == k
  {
    if k > 0 {
      LogOfPow2(k - 1);
      assert Pow2(k) / 2 == Pow2(k - 1);
    }
  }

  /** computeLog(v) == k exactly when v == 2^k. */
  lemma LogOfIsExact(v: nat, k: nat)
    ensures LogOf(v) == k <==> v == Pow2(k)
  {
    if v == Pow2(k) {
      LogOfPow2(k);
    }
  }

  /** computeLog(v) == -1 exactly when v is 0 or not a power of two. */
  lemma LogOfMinusOne(v: nat)
    ensures LogOf(v) == -1 <==> forall k: nat :: Pow2(k) != v
  {
    if LogOf(v) == -1 {
      forall k: nat
        ensures Pow2(k) != v
      {
        if Pow2(k) == v {
          LogOfPow2(k);
        }
      }
    } else {
      var r: nat := LogOf(v);
      assert Pow2(r) == v;
    }
  }

  /**
   * computeLog: shifts `value` right until its lowest bit is set, counting
   * the shifts; the result is that count if what remains is 1, and -1
   * otherwise (and for 0). On an unsigned value `& 1` is `% 2` and `>> 1`
   * is `/ 2`.
   */
  method ComputeLog(value: nat) returns (r: int)
    ensures r == LogOf(value)
  {
    if value == 0 {
      return -1;
    }
    var v := value;
    var i := 0;
    while true
      invariant v >= 1
      invariant LogOf(value) == if LogOf(v) < 0 then -1 else LogOf(v) + i
      decreases v
    {
      if v % 2 == 1 {
        if v != 1 {
          return -1;
        }
        return i;
      }
      v := v / 2;
      i := i + 1;
    }
  }

  lemma MulAtLeast(d: nat, k: nat)
    requires k >= 1
    ensures d * k >= d
  {
    assert d * k == d * (k - 1) + d;
  }

  lemma DivUnique(x: nat, d: nat, q: nat, r: nat)
    requires d >= 1 && r < d && x == d * q + r
    ensures x / d == q && x % d == r
  {
    var q2, r2 := x / d, x % d;
    assert x == d * q2 + r2;
    if q2 > q {
      assert d * q2 == d * q + d * (q2 - q);
      MulAtLeast(d, q2 - q);
    } else if q2 < q {
      assert d * q == d * q2 + d * (q - q2);
      MulAtLeast(d, q - q2);
    }
  }

  lemma DivTwice(x: nat, p: nat)
    requires p >= 1
    ensures x / (2 * p) == (x / p) / 2
  {
    var q := x / p;
    var a := q / 2;
    var rest := p * (q % 2) + x % p;
    assert x == p * q + x % p;
    assert q == 2 * a + q % 2;
    assert p * q == (2 * p) * a + p * (q % 2);
    assert rest < 2 * p;
    DivUnique(x, 2 * p, a, rest);
  }

  /**
   * The width or height of a texture at mip `level` of a `base`-sized
   * texture, as GLES2TextureBuffer's constructor computes it: `base` is
   * divided by 2^level (the source divides by pow(2.0f, level)) and the
   * result is raised to 1 if it is 0.
   */
  function LevelExtent(base: nat, level: nat): (r: nat)
    ensures r >= 1
    ensures level == 0 ==> r == Max(base, 1)
  {
    var e := if level == 0 then base else base / Pow2(level);
    if e < 1 then 1 else e
  }

  /**
   * The extent at a level is the largest r with r * 2^level <= base, or 1
   * when base is smaller than 2^level.
   */
  lemma LevelExtentBounds(base: nat, level: nat)
    ensures base >= Pow2(level) ==> LevelExtent(base, level) * Pow2(level) <= base < (LevelExtent(base, level) + 1) * Pow2(level)
    ensures base < Pow2(level) ==> LevelExtent(base, level) == 1
  {
  }

  /** One step down a mip chain in buildMipmaps: a dimension is halved while it is above 1. */
  function Halve(x: nat): nat
  {
    if x > 1 then x / 2 else x
  }

  /** A dimension after `k` steps down the mip chain. */
  function HalveN(x: nat, k: nat): nat
  {
    if k == 0 then x else Halve(HalveN(x, k - 1))
  }

  /**
   * After k steps a positive dimension x is x / 2^k, but never below 1; a
   * zero dimension stays 0.
   */
  lemma {:induction false} HalveNClosedForm(x: nat, k: nat)
    ensures HalveN(x, k) == if x == 0 then 0 else Max(x / Pow2(k), 1)
  {
    if k > 0 {
      HalveNClosedForm(x, k - 1);
      DivTwice(x, Pow2(k - 1));
    }
  }

  /**
   * The number of levels buildMipmaps emits for a w x h image: the larger
   * of computeLog(w) and computeLog(h), plus one.
   */
  function MipCount(w: nat, h: nat): nat
  {
    Max(LogOf(w), LogOf(h)) + 1
  }

  /** No level is emitted exactly when neither dimension is a power of two. */
  lemma MipCountZero(w: nat, h: nat)
    ensures MipCount(w, h) == 0 <==>
      (forall k: nat :: Pow2(k) != w) && (forall k: nat :: Pow2(k) != h)
  {
    LogOfMinusOne(w);
    LogOfMinusOne(h);
  }

  /** For a 2^a x 2^b image the chain has max(a, b) + 1 levels. */
  lemma MipCountPowers(a: nat, b: nat)
    ensures MipCount(Pow2(a), Pow2(b)) == Max(a, b) + 1
  {
    LogOfPow2(a);
    LogOfPow2(b);
  }
}
