/**
 * The vertical flip at the end of BlackBerryEGLWindow::copyContentsToMemory:
 * glReadPixels delivers the bottom row first, so the `h` rows of `rowSpan`
 * bytes are copied in reverse order into a temporary buffer, and the buffer
 * is copied back over the destination.
 *
 * Offsets are products of a row number and the row span; they are written
 * with `Mul`, whose recursive definition keeps the verifier's reasoning
 * linear, and `MulIsProduct` ties it to `*`.
 */
module RowFlip {

  /** a * b, by repeated addition. */
  function Mul(a: nat, b: nat): nat
  {
    if a == 0 then 0 else Mul(a - 1, b) + b
  }

  lemma {:induction false} MulIsProduct(a: nat, b: nat)
    ensures Mul(a, b) == a * b
  {
    if a > 0 {
      MulIsProduct(a - 1, b);
    }
  }

  lemma {:induction false} MulMono(a: nat, b: nat, c: nat)
    requires a <= b
    ensures Mul(a, c) <= Mul(b, c)
    decreases b - a
  {
    if a < b {
      MulMono(a + 1, b, c);
    }
  }

  /** Mul(a, c) - Mul(b, c) == Mul(a - b, c). */
  lemma {:induction false} MulSub(a: nat, b: nat, c: nat)
    requires b <= a
    ensures Mul(a, c) - Mul(b, c) == Mul(a - b, c)
  {
    if b > 0 {
      MulSub(a - 1, b - 1, c);
    }
  }

  /** Row `i` of a buffer of rows of `rowSpan` elements. */
  function Row<T>(s: seq<T>, rowSpan: nat, i: nat): (r: seq<T>)
    requires Mul(i + 1, rowSpan) <= |s|
    ensures |r| == rowSpan
  {
    s[Mul(i, rowSpan)..Mul(i + 1, rowSpan)]
  }

  /**
   * The first `h` rows of `s` in reverse order: row h - 1, then the flip of
   * the rows before it.
   */
  function FlippedRows<T>(s: seq<T>, rowSpan: nat, h: nat): (r: seq<T>)
    requires Mul(h, rowSpan) <= |s|
    ensures |r| == Mul(h, rowSpan)
    decreases h
  {
    if h == 0 then [] else Row(s, rowSpan, h - 1) + FlippedRows(s, rowSpan, h - 1)
  }

  /** The first `h` rows of `s`, in order. */
  function Rows<T>(s: seq<T>, rowSpan: nat, h: nat): (r: seq<seq<T>>)
    requires Mul(h, rowSpan) <= |s|
    ensures |r| == h
  {
    if h == 0 then [] else Rows(s, rowSpan, h - 1) + [Row(s, rowSpan, h - 1)]
  }

  function Reverse<T>(x: seq<T>): (r: seq<T>)
    ensures |r| == |x|
  {
    if |x| == 0 then [] else [x[|x| - 1]] + Reverse(x[..|x| - 1])
  }

  /** The rows of `x` laid end to end. */
  function Flatten<T>(x: seq<seq<T>>): seq<T>
  {
    if |x| == 0 then [] else x[0] + Flatten(x[1..])
  }

  lemma {:induction false} ReverseAt<T>(x: seq<T>, i: nat)
    requires i < |x|
    ensures Reverse(x)[i] == x[|x| - 1 - i]
    decreases |x|
  {
    if i > 0 {
      ReverseAt(x[..|x| - 1], i - 1);
    }
  }

  lemma {:induction false} RowsAt<T>(s: seq<T>, rowSpan: nat, h: nat, i: nat)
    requires Mul(h, rowSpan) <= |s| && i < h
    ensures Mul(i + 1, rowSpan) <= Mul(h, rowSpan)
    ensures Rows(s, rowSpan, h)[i] == Row(s, rowSpan, i)
    decreases h
  {
    MulMono(i + 1, h, rowSpan);
    if i < h - 1 {
      RowsAt(s, rowSpan, h - 1, i);
    }
  }

  /** Rows of `rowSpan` elements laid end to end take `rowSpan` elements each. */
  lemma {:induction false} FlattenLength<T>(x: seq<seq<T>>, rowSpan: nat)
    requires forall k :: 0 <= k < |x| ==> |x[k]| == rowSpan
    ensures |Flatten(x)| == Mul(|x|, rowSpan)
    decreases |x|
  {
    if |x| > 0 {
      FlattenLength(x[1..], rowSpan);
    }
  }

  /** Row `i` of rows of `rowSpan` elements laid end to end is the i-th of them. */
  lemma {:induction false} RowOfFlatten<T>(x: seq<seq<T>>, rowSpan: nat, i: nat)
    requires forall k :: 0 <= k < |x| ==> |x[k]| == rowSpan
    requires i < |x|
    ensures Mul(i + 1, rowSpan) <= |Flatten(x)|
    ensures Row(Flatten(x), rowSpan, i) == x[i]
    decreases i
  {
    FlattenLength(x, rowSpan);
    MulMono(i + 1, |x|, rowSpan);
    if i == 0 {
      assert Flatten(x) == x[0] + Flatten(x[1..]);
    } else {
      FlattenLength(x[1..], rowSpan);
      MulMono(i, |x| - 1, rowSpan);
      RowOfFlatten(x[1..], rowSpan, i - 1);
      SliceOfConcat(x[0], Flatten(x[1..]), Mul(i - 1, rowSpan), Mul(i, rowSpan));
    }
  }

  lemma SliceOfConcat<T>(a: seq<T>, b: seq<T>, p: nat, q: nat)
    requires p <= q <= |b|
    ensures (a + b)[|a| + p..|a| + q] == b[p..q]
  {
  }

  /** The flip is the rows in reverse order, laid end to end. */
  lemma {:induction false} FlippedRowsReversesRows<T>(s: seq<T>, rowSpan: nat, h: nat)
    requires Mul(h, rowSpan) <= |s|
    ensures FlippedRows(s, rowSpan, h) == Flatten(Reverse(Rows(s, rowSpan, h)))
    decreases h
  {
    if h > 0 {
      FlippedRowsReversesRows(s, rowSpan, h - 1);
      var x := Rows(s, rowSpan, h);
      assert x[..h - 1] == Rows(s, rowSpan, h - 1);
      var rx := Reverse(x);
      assert rx[0] == Row(s, rowSpan, h - 1);
      assert rx[1..] == Reverse(Rows(s, rowSpan, h - 1));
    }
  }

  /** Row i of the flipped buffer is row h - 1 - i of the original. */
  lemma FlippedRowIsMirrored<T>(s: seq<T>, rowSpan: nat, h: nat, i: nat)
    requires Mul(h, rowSpan) <= |s| && i < h
    ensures Mul(i + 1, rowSpan) <= Mul(h, rowSpan) && Mul(h - i, rowSpan) <= Mul(h, rowSpan)
    ensures Row(FlippedRows(s, rowSpan, h), rowSpan, i) == Row(s, rowSpan, h - 1 - i)
  {
    MulMono(i + 1, h, rowSpan);
    MulMono(h - i, h, rowSpan);
    FlippedRowsReversesRows(s, rowSpan, h);
    var x := Rows(s, rowSpan, h);
    var rx := Reverse(x);
    forall k | 0 <= k < h
      ensures |rx[k]| == rowSpan
    {
      ReverseAt(x, k);
      RowsAt(s, rowSpan, h, h - 1 - k);
    }
    RowOfFlatten(rx, rowSpan, i);
    ReverseAt(x, i);
    RowsAt(s, rowSpan, h, h - 1 - i);
  }

  /** Flipping moves the bytes of the h rows but neither loses nor duplicates any. */
  lemma {:induction false} FlipIsPermutation<T>(s: seq<T>, rowSpan: nat, h: nat)
    requires Mul(h, rowSpan) <= |s|
    ensures multiset(FlippedRows(s, rowSpan, h)) == multiset(s[..Mul(h, rowSpan)])
    decreases h
  {
    if h > 0 {
      var cut := Mul(h - 1, rowSpan);
      FlipIsPermutation(s, rowSpan, h - 1);
      assert s[..Mul(h, rowSpan)] == s[..cut] + Row(s, rowSpan, h - 1);
    }
  }

  /**
   * memcpy(dst + dstOff, src + srcOff, n) between distinct buffers; the
   * source is passed as the value it holds, which the copy does not change.
   */
  method CopyBytes<T>(dst: array<T>, dstOff: nat, src: seq<T>, srcOff: nat, n: nat)
    requires dstOff + n <= dst.Length && srcOff + n <= |src|
    modifies dst
    ensures dst[..] == old(dst[..dstOff]) + src[srcOff..srcOff + n] + old(dst[dstOff + n..])
  {
    var k := 0;
    while k < n
      invariant 0 <= k <= n
      invariant dst[..dstOff] == old(dst[..dstOff])
      invariant dst[dstOff..dstOff + k] == src[srcOff..srcOff + k]
      invariant dst[dstOff + k..] == old(dst[dstOff + k..])
    {
      dst[dstOff + k] := src[srcOff + k];
      k := k + 1;
    }
    assert dst[..] == dst[..dstOff] + dst[dstOff..dstOff + n] + dst[dstOff + n..];
  }

  /**
   * The flip: the rows are reversed into a temporary buffer, and the whole
   * temporary buffer is copied back. Bytes past the h rows are not touched.
   */
  method FlipRowsInPlace<T(0)>(data: array<T>, rowSpan: nat, h: nat)
    requires Mul(h, rowSpan) <= data.Length
    modifies data
    ensures data[..Mul(h, rowSpan)] == FlippedRows(old(data[..Mul(h, rowSpan)]), rowSpan, h)
    ensures data[Mul(h, rowSpan)..] == old(data[Mul(h, rowSpan)..])
  {
    var size := Mul(h, rowSpan);
    var tmp := ReverseRows(data, rowSpan, h);
    CopyBytes(data, 0, tmp[..], 0, size);
    assert data[..size] == tmp[..];
  }

  /**
   * The copy loop, one row per pass: row `row` of `data` goes to row
   * h - 1 - row of a new buffer of the h rows, whose tail from that row on
   * then holds the flip of the rows copied so far.
   */
  method ReverseRows<T(0)>(data: array<T>, rowSpan: nat, h: nat) returns (tmp: array<T>)
    requires Mul(h, rowSpan) <= data.Length
    ensures tmp.Length == Mul(h, rowSpan)
    ensures tmp[..] == FlippedRows(data[..Mul(h, rowSpan)], rowSpan, h)
  {
    var size := Mul(h, rowSpan);
    ghost var s := data[..size];
    MulMono(0, h, rowSpan);
    tmp := new T[size];
    var row := 0;
    var srcOff := 0;
    var tmpOff := size;
    while row < h
      invariant 0 <= row <= h
      invariant srcOff == Mul(row, rowSpan) && srcOff <= size && tmpOff + srcOff == size
      invariant tmp[tmpOff..] == FlippedRows(s, rowSpan, row)
    {
      MulMono(row + 1, h, rowSpan);
      ghost var before := tmp[..];
      CopyBytes(tmp, tmpOff - rowSpan, data[..size], srcOff, rowSpan);
      FlipStep(s, rowSpan, row, srcOff, before, tmp[..], tmpOff);
      row := row + 1;
      srcOff := srcOff + rowSpan;
      tmpOff := tmpOff - rowSpan;
    }
    assert tmp[..] == tmp[0..];
  }

  /**
   * One pass of the loop of ReverseRows: once the row at `srcOff` is copied
   * just below `tmpOff`, the temporary buffer from there holds the flip of
   * one more row.
   */
  lemma FlipStep<T>(s: seq<T>, rowSpan: nat, row: nat, srcOff: nat, before: seq<T>, after: seq<T>, tmpOff: nat)
    requires srcOff == Mul(row, rowSpan) && Mul(row + 1, rowSpan) <= |s|
    requires rowSpan <= tmpOff <= |before|
    requires before[tmpOff..] == FlippedRows(s, rowSpan, row)
    requires after == before[..tmpOff - rowSpan] + s[srcOff..srcOff + rowSpan] + before[tmpOff..]
    ensures after[tmpOff - rowSpan..] == FlippedRows(s, rowSpan, row + 1)
  {
    assert s[srcOff..srcOff + rowSpan] == Row(s, rowSpan, row);
    SpliceTail(before, after, tmpOff - rowSpan, Row(s, rowSpan, row));
  }

  /** After a row is spliced in at `at`, the tail from `at` is that row followed by the old tail. */
  lemma SpliceTail<T>(before: seq<T>, after: seq<T>, at: nat, line: seq<T>)
    requires at + |line| <= |before|
    requires after == before[..at] + line + before[at + |line|..]
    ensures after[at..] == line + before[at + |line|..]
  {
  }

  /**
   * The copy loop as written: a cursor into the read pixels and one into the
   * temporary buffer, in bytes from their starts; the loop runs while the
   * temporary cursor has not passed below the start of its buffer.
   */
  datatype Cursor = Cursor(srcRow: int, tmpRow: int)

  /** srcRow at the first row of the pixels read, tmpRow at the last row of the temporary buffer. */
  function StartCursor(rowSpan: nat, h: nat): Cursor
    requires h >= 1
  {
    Cursor(0, Mul(h - 1, rowSpan))
  }

  /** One pass of the loop: srcRow += rowSpan; tmpRow -= rowSpan. */
  function Step(c: Cursor, rowSpan: nat): Cursor
  {
    Cursor(c.srcRow + rowSpan, c.tmpRow - rowSpan)
  }

  /** The cursors after `k` passes. */
  function StepN(c: Cursor, rowSpan: nat, k: nat): Cursor
  {
    if k == 0 then c else Step(StepN(c, rowSpan, k - 1), rowSpan)
  }

  /** The loop condition `tmpRow >= tmpData`. */
  predicate LoopContinues(c: Cursor)
  {
    c.tmpRow >= 0
  }

  /** After k passes the cursors are at row k of the source and k rows below the last row of the temporary buffer. */
  lemma {:induction false} StepNPosition(rowSpan: nat, h: nat, k: nat)
    requires h >= 1
    ensures StepN(StartCursor(rowSpan, h), rowSpan, k) == Cursor(Mul(k, rowSpan), Mul(h - 1, rowSpan) - Mul(k, rowSpan))
  {
    if k > 0 {
      StepNPosition(rowSpan, h, k - 1);
    }
  }

  /**
   * With a positive row span the loop as written makes exactly h passes, the
   * k-th copying source row k to temporary row h - 1 - k, as the row-counting
   * loop of FlipRowsInPlace does.
   */
  lemma PointerLoopRunsHPasses(rowSpan: nat, h: nat, k: nat)
    requires h >= 1 && rowSpan >= 1
    ensures LoopContinues(StepN(StartCursor(rowSpan, h), rowSpan, k)) <==> k < h
    ensures k < h ==> StepN(StartCursor(rowSpan, h), rowSpan, k) == Cursor(Mul(k, rowSpan), Mul(h - 1 - k, rowSpan))
  {
    StepNPosition(rowSpan, h, k);
    if k < h {
      MulSub(h - 1, k, rowSpan);
    } else {
      MulMono(h, k, rowSpan);
    }
  }

  /**
   * With a zero row span (a destination box of width 0) the temporary cursor
   * never moves, so the loop as written never exits.
   */
  lemma PointerLoopNeverExitsOnZeroSpan(h: nat, k: nat)
    requires h >= 1
    ensures LoopContinues(StepN(StartCursor(0, h), 0, k))
  {
    StepNPosition(0, h, k);
    MulIsProduct(h - 1, 0);
    MulIsProduct(k, 0);
  }
}
