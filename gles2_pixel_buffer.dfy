/**
 * GLES2HardwarePixelBuffer and GLES2TextureBuffer of
 * OgreGLES2HardwarePixelBuffer.cpp: the shadow buffer that lock, unlock and
 * the memory blits go through, the checks and GL calls of upload, the
 * software mip chain of buildMipmaps, and the path each blit takes.
 *
 * GL calls and the engine's image helpers are not executed: each one is
 * appended to an EffectLog, so that contracts say which calls are made, in
 * which order and with which arguments.
 */
module GLES2PixelBuffer {
  import opened PixelTypes
  import opened GLES2Mip

  /** Texture targets, with their values in the OpenGL ES 2.0 headers. */
  const GL_TEXTURE_2D: nat := 0x0DE1
  const GL_TEXTURE_CUBE_MAP: nat := 0x8513
  const GL_TEXTURE_CUBE_MAP_POSITIVE_X: nat := 0x8515

  /** The HardwareBuffer::Usage and TextureUsage bits the modelled code tests or sets. */
  datatype UsageFlag = Static | Dynamic | WriteOnly | Discardable | AutoMipmap | RenderTarget

  /** HBU_STATIC_WRITE_ONLY. */
  const StaticWriteOnly: set<UsageFlag> := {Static, WriteOnly}

  /** HardwareBuffer::LockOptions. */
  datatype LockOptions = LockNormal | LockDiscard | LockReadOnly | LockNoOverwrite

  /** A GL call or an engine helper call made by the modelled code. */
  datatype Effect =
    | BindTexture(target: nat, id: nat)
    | CompressedTexImage2D(target: nat, level: nat, internalFormat: nat, width: nat, height: nat, imageSize: nat)
    | CompressedTexSubImage2D(target: nat, level: nat, x: nat, y: nat, width: nat, height: nat,
                              internalFormat: nat, imageSize: nat)
    | UnpackAlignment(alignment: nat)
    | TexSubImage2D(target: nat, level: nat, x: nat, y: nat, width: nat, height: nat,
                    format: nat, dataType: nat, pixels: DataRef)
    | TexImage2D(target: nat, level: nat, internalFormat: nat, width: nat, height: nat,
                 format: nat, dataType: nat, pixels: DataRef)
    | GenerateMipmap(target: nat)
    | GenTexture(id: nat)
    | DeleteTexture(id: nat)
    | CreateRenderTexture(zoffset: nat)
    | AttachRenderTarget(zoffset: nat)
    | ScaleImage(src: PixelBox, dst: PixelBox, filter: Filter)
    | ConvertPixels(src: PixelBox, dst: PixelBox)

  /** The GL context and engine, as the sequence of calls made to them. */
  class EffectLog {
    var effects: seq<Effect>

    constructor ()
      ensures effects == []
    {
      effects := [];
    }

    method Emit(e: Effect)
      modifies this
      ensures effects == old(effects) + [e]
    {
      effects := effects + [e];
    }
  }

  /** What of a texture buffer decides upload's behaviour. */
  datatype TexParams = TexParams(target: nat, textureId: nat, faceTarget: nat, level: nat,
                                 format: PixelFormat, usage: set<UsageFlag>, softwareMipmap: bool)

  /** The error, if any, that GLES2TextureBuffer::upload raises for `data`. */
  function UploadOutcome(u: PixelUtil, p: TexParams, data: PixelBox): Outcome
  {
    if u.isCompressed(data.format) then
      (if data.format != p.format || !IsConsecutive(data) then Fail(InvalidParams) else Pass)
    else if Width(data.box) != data.rowPitch then Fail(InvalidParams)
    else if Height(data.box) * Width(data.box) != data.slicePitch then Fail(InvalidParams)
    else Pass
  }

  /** The calls GLES2TextureBuffer::upload makes, up to the exception if it raises one. */
  function UploadTrace(u: PixelUtil, p: TexParams, data: PixelBox, dest: Box): seq<Effect>
  {
    [BindTexture(p.target, p.textureId)] +
    if UploadOutcome(u, p, data).Fail? then []
    else UploadBody(u, p, data, dest) + UploadFinish(p)
  }

  /** The calls that transfer the pixels, once the checks have passed. */
  function UploadBody(u: PixelUtil, p: TexParams, data: PixelBox, dest: Box): seq<Effect>
  {
    if u.isCompressed(data.format) then
      var internal := u.closestGLInternalFormat(p.format);
      var size := u.memorySize(Width(data.box), Height(data.box), Depth(data.box), data.format);
      if dest.left == 0 && dest.top == 0 then
        [CompressedTexImage2D(p.faceTarget, p.level, internal, Width(dest), Height(dest), size)]
      else
        [CompressedTexSubImage2D(p.faceTarget, p.level, dest.left, dest.top, Width(dest), Height(dest), internal, size)]
    else if p.softwareMipmap then
      [UnpackAlignment(1)] + MipmapTrace(u, p, data)
    else
      (if (Width(data.box) * u.numElemBytes(data.format)) % 4 != 0 then [UnpackAlignment(1)] else []) +
      [TexSubImage2D(p.faceTarget, p.level, dest.left, dest.top, Width(dest), Height(dest),
                     u.glOriginFormat(data.format), u.glOriginDataType(data.format), data.data)]
  }

  /** Hardware mipmap generation, then the default unpack alignment of 4. */
  function UploadFinish(p: TexParams): seq<Effect>
  {
    (if AutoMipmap in p.usage && !p.softwareMipmap && p.level == 0 then [GenerateMipmap(p.faceTarget)] else []) +
    [UnpackAlignment(4)]
  }

  /** The calls of buildMipmaps for `data`. */
  function MipmapTrace(u: PixelUtil, p: TexParams, data: PixelBox): seq<Effect>
  {
    var w := Width(data.box);
    var h := Height(data.box);
    MipLevels(u, p, data, 0, MipCount(w, h), w, h)
  }

  /**
   * Levels `mip` to `count - 1` of buildMipmaps, where the current level is
   * w x h: each level is sent with glTexImage2D, then the dimensions are
   * halved and the source image is scaled to the new size.
   */
  function MipLevels(u: PixelUtil, p: TexParams, data: PixelBox, mip: nat, count: nat, w: nat, h: nat): seq<Effect>
    decreases count - mip
  {
    if mip >= count then []
    else
      var glFormat := u.glOriginFormat(data.format);
      var dataType := u.glOriginDataType(data.format);
      [TexImage2D(p.faceTarget, mip, glFormat, w, h, glFormat, dataType, if mip == 0 then data.data else ScratchData),
       ScaleImage(data, MakePixelBox(Halve(w), Halve(h), 1, data.format, ScratchData), FilterLinear)] +
      MipLevels(u, p, data, mip + 1, count, Halve(w), Halve(h))
  }

  /** One level of the chain, then the rest of it from the halved size. */
  lemma MipLevelsStep(u: PixelUtil, p: TexParams, data: PixelBox, mip: nat, count: nat, w: nat, h: nat)
    requires mip < count
    ensures MipLevels(u, p, data, mip, count, w, h) ==
      [TexImage2D(p.faceTarget, mip, u.glOriginFormat(data.format), w, h, u.glOriginFormat(data.format),
                  u.glOriginDataType(data.format), if mip == 0 then data.data else ScratchData),
       ScaleImage(data, MakePixelBox(Halve(w), Halve(h), 1, data.format, ScratchData), FilterLinear)] +
      MipLevels(u, p, data, mip + 1, count, Halve(w), Halve(h))
  {
  }

  lemma {:induction false} MipLevelsLength(u: PixelUtil, p: TexParams, data: PixelBox, mip: nat, count: nat, w: nat, h: nat)
    requires mip <= count
    ensures |MipLevels(u, p, data, mip, count, w, h)| == 2 * (count - mip)
    decreases count - mip
  {
    if mip < count {
      MipLevelsLength(u, p, data, mip + 1, count, Halve(w), Halve(h));
    }
  }

  /**
   * The k-th level of a chain started at level `mip` with a w x h image is
   * level mip + k, sent with both dimensions halved k times.
   */
  lemma {:induction false} MipLevelsAt(u: PixelUtil, p: TexParams, data: PixelBox, mip: nat, count: nat, w: nat, h: nat, k: nat)
    requires mip + k < count
    ensures |MipLevels(u, p, data, mip, count, w, h)| > 2 * k
    ensures var e := MipLevels(u, p, data, mip, count, w, h)[2 * k];
      e.TexImage2D? && e.target == p.faceTarget && e.level == mip + k &&
      e.width == HalveN(w, k) && e.height == HalveN(h, k) &&
      e.format == u.glOriginFormat(data.format) && e.dataType == u.glOriginDataType(data.format)
    decreases k
  {
    if k > 0 {
      MipLevelsAt(u, p, data, mip + 1, count, Halve(w), Halve(h), k - 1);
      HalveNShift(w, k - 1);
      HalveNShift(h, k - 1);
    }
  }

  lemma {:induction false} HalveNShift(x: nat, k: nat)
    ensures HalveN(Halve(x), k) == HalveN(x, k + 1)
  {
    if k > 0 {
      HalveNShift(x, k - 1);
    }
  }

  /** buildMipmaps only sends images and scales them: it sets no alignment and generates no mipmaps. */
  lemma {:induction false} MipLevelsOnlyImages(u: PixelUtil, p: TexParams, data: PixelBox, mip: nat, count: nat, w: nat, h: nat)
    ensures forall e :: e in MipLevels(u, p, data, mip, count, w, h) ==> e.TexImage2D? || e.ScaleImage?
    decreases count - mip
  {
    if mip < count {
      MipLevelsOnlyImages(u, p, data, mip + 1, count, Halve(w), Halve(h));
    }
  }

  /**
   * The software mip chain of a w x h image sends MipCount(w, h) levels,
   * level k at max(w / 2^k, 1) x max(h / 2^k, 1); a dimension of 0 stays 0
   * all along the chain.
   */
  lemma MipmapLevelSizes(u: PixelUtil, p: TexParams, data: PixelBox, k: nat)
    requires k < MipCount(Width(data.box), Height(data.box))
    ensures |MipmapTrace(u, p, data)| == 2 * MipCount(Width(data.box), Height(data.box))
    ensures var e := MipmapTrace(u, p, data)[2 * k];
      e.TexImage2D? && e.level == k &&
      e.width == (if Width(data.box) == 0 then 0 else Max(Width(data.box) / Pow2(k), 1)) &&
      e.height == (if Height(data.box) == 0 then 0 else Max(Height(data.box) / Pow2(k), 1))
  {
    var w, h := Width(data.box), Height(data.box);
    MipLevelsLength(u, p, data, 0, MipCount(w, h), w, h);
    MipLevelsAt(u, p, data, 0, MipCount(w, h), w, h, k);
    HalveNClosedForm(w, k);
    HalveNClosedForm(h, k);
  }

  /**
   * upload accepts exactly the consecutive boxes, and a compressed box only
   * in the buffer's own format; every rejection is ERR_INVALIDPARAMS.
   */
  lemma UploadAccepts(u: PixelUtil, p: TexParams, data: PixelBox)
    ensures UploadOutcome(u, p, data) == Pass <==>
      IsConsecutive(data) && (u.isCompressed(data.format) ==> data.format == p.format)
    ensures UploadOutcome(u, p, data) != Pass ==> UploadOutcome(u, p, data) == Fail(InvalidParams)
  {
  }

  /**
   * On the ordinary (uncompressed, hardware-mipmapped) path the unpack
   * alignment is lowered to 1 exactly when a row is not a multiple of 4
   * bytes, and an accepted upload always ends by restoring it to 4.
   */
  lemma UploadAlignment(u: PixelUtil, p: TexParams, data: PixelBox, dest: Box)
    requires !u.isCompressed(data.format) && !p.softwareMipmap
    ensures UnpackAlignment(1) in UploadTrace(u, p, data, dest) <==>
      UploadOutcome(u, p, data) == Pass && (Width(data.box) * u.numElemBytes(data.format)) % 4 != 0
    ensures UploadOutcome(u, p, data) == Pass ==>
      UploadTrace(u, p, data, dest)[|UploadTrace(u, p, data, dest)| - 1] == UnpackAlignment(4)
  {
  }

  /**
   * glGenerateMipmap is called exactly when the upload is accepted, the
   * usage has TU_AUTOMIPMAP, mipmaps are not built in software and the
   * buffer is level 0.
   */
  lemma UploadGeneratesMipmap(u: PixelUtil, p: TexParams, data: PixelBox, dest: Box)
    ensures GenerateMipmap(p.faceTarget) in UploadTrace(u, p, data, dest) <==>
      UploadOutcome(u, p, data) == Pass && AutoMipmap in p.usage && !p.softwareMipmap && p.level == 0
  {
    var w, h := Width(data.box), Height(data.box);
    MipLevelsOnlyImages(u, p, data, 0, MipCount(w, h), w, h);
  }

  /** The path GLES2HardwarePixelBuffer::blitFromMemory takes to bring `src` to the destination size and a GL format. */
  datatype StagingPath = ScaleIntoShadow | ConvertIntoShadow | DirectFromSource

  /** Where GLES2HardwarePixelBuffer::blitToMemory gets its pixels from. */
  datatype DownloadPlan = DirectDownload | ThroughShadow(scale: bool)

  lemma AppendAssoc<T>(a: seq<T>, b: seq<T>, c: seq<T>)
    ensures (a + b) + c == a + (b + c)
  {
  }

  /** The calls that create and attach the render textures of slices lo to hi - 1. */
  function CreateSliceEffects(lo: nat, hi: nat): seq<Effect>
    decreases hi - lo
  {
    if lo >= hi then [] else [CreateRenderTexture(lo), AttachRenderTarget(lo)] + CreateSliceEffects(lo + 1, hi)
  }

  class TextureBuffer {
    const gl: EffectLog
    const util: PixelUtil

    // GLES2TextureBuffer
    const target: nat
    const textureId: nat
    const face: nat
    const level: nat
    const softwareMipmap: bool
    const faceTarget: nat
    var sliceTargets: seq<nat>  // the slice (zoffset) of each render texture created, in order

    // HardwarePixelBuffer / GLES2HardwarePixelBuffer
    const usage: set<UsageFlag>
    const width: nat
    const height: nat
    const depth: nat
    const format: PixelFormat
    const glInternalFormat: int
    const rowPitch: nat
    const slicePitch: nat
    const sizeInBytes: nat
    var data: array?<bv8>             // mBuffer.data, the shadow buffer
    var currentLockOptions: LockOptions
    var lockedBox: Box
    var currentLock: PixelBox         // set by HardwarePixelBuffer::lock from lockImpl's result

    /** What GLES2TextureBuffer's constructor establishes. */
    ghost predicate Valid()
      reads this
    {
      width >= 1 && height >= 1 && depth == 1 &&
      rowPitch == width && slicePitch == width * height &&
      (RenderTarget in usage ==> |sliceTargets| == depth && forall z :: 0 <= z < |sliceTargets| ==> sliceTargets[z] == z) &&
      (RenderTarget !in usage ==> sliceTargets == [])
    }

    function Params(): TexParams
    {
      TexParams(target, textureId, faceTarget, level, format, usage, softwareMipmap)
    }

    /** The extents of mBuffer. */
    function BufferBox(): Box
    {
      Extent(width, height, depth)
    }

    /**
     * mBuffer.getSubVolume(def): a box of def's extents at the origin, with
     * mBuffer's format and pitches, pointing into the shadow buffer.
     */
    function SubVolume(def: Box): PixelBox
    {
      PixelBox(Extent(Width(def), Height(def), Depth(def)), format, rowPitch, slicePitch, ShadowData)
    }

    /** mBuffer itself. */
    function Shadow(): PixelBox
    {
      SubVolume(BufferBox())
    }

    constructor (gl: EffectLog, util: PixelUtil, target: nat, id: nat, baseWidth: nat, baseHeight: nat,
                 internalFormat: int, fmt: int, face: nat, level: nat, usage: set<UsageFlag>, crappyCard: bool)
      modifies gl
      ensures this.gl == gl && this.util == util && this.usage == usage
      ensures this.target == target && textureId == id && this.face == face && this.level == level
      ensures softwareMipmap == crappyCard
      ensures faceTarget == if target == GL_TEXTURE_CUBE_MAP then GL_TEXTURE_CUBE_MAP_POSITIVE_X + face else target
      ensures width == LevelExtent(baseWidth, level) && height == LevelExtent(baseHeight, level) && depth == 1
      ensures rowPitch == width && slicePitch == width * height
      ensures glInternalFormat == internalFormat && format == util.closestOgreFormat(internalFormat, fmt)
      ensures sizeInBytes == util.memorySize(width, height, depth, format)
      ensures data == null
      ensures Valid()
      ensures gl.effects == old(gl.effects) + [BindTexture(target, id)] +
        (if RenderTarget in usage then CreateSliceEffects(0, 1) else [])
    {
      this.gl := gl;
      this.util := util;
      this.usage := usage;
      this.target := target;
      textureId := id;
      this.face := face;
      this.level := level;
      softwareMipmap := crappyCard;
      gl.Emit(BindTexture(target, id));
      faceTarget := if target == GL_TEXTURE_CUBE_MAP then GL_TEXTURE_CUBE_MAP_POSITIVE_X + face else target;
      width := LevelExtent(baseWidth, level);
      height := LevelExtent(baseHeight, level);
      depth := 1;
      glInternalFormat := internalFormat;
      format := util.closestOgreFormat(internalFormat, fmt);
      rowPitch := LevelExtent(baseWidth, level);
      slicePitch := LevelExtent(baseHeight, level) * LevelExtent(baseWidth, level);
      sizeInBytes := util.memorySize(LevelExtent(baseWidth, level), LevelExtent(baseHeight, level), 1,
                                     util.closestOgreFormat(internalFormat, fmt));
      new;
      data := null;
      currentLockOptions := LockNormal;
      lockedBox := Extent(0, 0, 0);
      currentLock := MakePixelBox(0, 0, 0, PF_UNKNOWN, NoData);
      sliceTargets := [];
      // The source returns early here when an extent is 0; Valid() shows none is.
      if RenderTarget in usage {
        CreateSliceTargets();
      }
    }

    /** The loop of the constructor that creates one render texture per slice and attaches it. */
    method CreateSliceTargets()
      requires sliceTargets == []
      modifies this`sliceTargets, gl
      ensures |sliceTargets| == depth && forall z :: 0 <= z < depth ==> sliceTargets[z] == z
      ensures gl.effects == old(gl.effects) + CreateSliceEffects(0, depth)
    {
      var zoffset := 0;
      while zoffset < depth
        invariant 0 <= zoffset <= depth
        invariant |sliceTargets| == zoffset && forall z :: 0 <= z < zoffset ==> sliceTargets[z] == z
        invariant gl.effects + CreateSliceEffects(zoffset, depth) == old(gl.effects) + CreateSliceEffects(0, depth)
        decreases depth - zoffset
      {
        gl.Emit(CreateRenderTexture(zoffset));
        sliceTargets := sliceTargets + [zoffset];
        gl.Emit(AttachRenderTarget(zoffset));
        zoffset := zoffset + 1;
      }
    }

    /** allocateBuffer: allocates the shadow buffer unless it already exists. */
    method AllocateBuffer()
      modifies this`data
      ensures data != null
      ensures old(data) != null ==> data == old(data)
      ensures old(data) == null ==> fresh(data) && data.Length == sizeInBytes
    {
      if data != null {
        return;
      }
      data := new bv8[sizeInBytes];
    }

    /** freeBuffer: a static buffer drops its shadow buffer to save memory; any other keeps it. */
    method FreeBuffer()
      modifies this`data
      ensures data == if Static in usage then null else old(data)
    {
      if Static in usage {
        data := null;
      }
    }

    /** Whether lockImpl downloads the current texture contents before handing out the lock. */
    predicate LockDownloads(options: LockOptions)
    {
      options != LockDiscard && WriteOnly !in usage
    }

    /**
     * lockImpl: allocates the shadow buffer, downloads into it unless the
     * lock discards or the buffer is write-only, then records the options and
     * the box. Download always raises, so only the non-downloading locks succeed.
     */
    method LockImpl(lockBox: Box, options: LockOptions) returns (r: Outcome, locked: PixelBox)
      modifies this`data, this`currentLockOptions, this`lockedBox
      ensures data != null && (old(data) != null ==> data == old(data)) && (old(data) == null ==> fresh(data))
      ensures r == if LockDownloads(options) then Fail(NotImplemented) else Pass
      ensures r.Pass? ==> currentLockOptions == options && lockedBox == lockBox && locked == SubVolume(lockBox)
      ensures r.Fail? ==> currentLockOptions == old(currentLockOptions) && lockedBox == old(lockedBox)
    {
      AllocateBuffer();
      if options != LockDiscard && WriteOnly !in usage {
        r := Download(Shadow());
        locked := Shadow();
        return;
      }
      currentLockOptions := options;
      lockedBox := lockBox;
      r := Pass;
      locked := SubVolume(lockBox);
    }

    /**
     * unlockImpl: uploads the locked box unless the lock was read-only, then
     * calls freeBuffer (which an exception from the upload skips).
     */
    method UnlockImpl() returns (r: Outcome)
      modifies this`data, gl
      ensures r == if currentLockOptions != LockReadOnly then UploadOutcome(util, Params(), currentLock) else Pass
      ensures gl.effects == old(gl.effects) +
        (if currentLockOptions != LockReadOnly then UploadTrace(util, Params(), currentLock, lockedBox) else [])
      ensures data == if r.Pass? && Static in usage then null else old(data)
    {
      if currentLockOptions != LockReadOnly {
        r := Upload(currentLock, lockedBox);
        if r.Fail? {
          return;
        }
      } else {
        r := Pass;
      }
      FreeBuffer();
    }

    /**
     * HardwarePixelBuffer::lock, as far as this buffer is concerned: the
     * sub-volume lockImpl hands out becomes the current lock, which
     * unlockImpl later uploads at the locked box. A lock whose lockImpl
     * raises changes none of the three.
     */
    method Lock(lockBox: Box, options: LockOptions) returns (r: Outcome)
      modifies this`data, this`currentLockOptions, this`lockedBox, this`currentLock
      ensures data != null && (old(data) != null ==> data == old(data)) && (old(data) == null ==> fresh(data))
      ensures r == if LockDownloads(options) then Fail(NotImplemented) else Pass
      ensures r.Pass? ==> currentLockOptions == options && lockedBox == lockBox && currentLock == SubVolume(lockBox)
      ensures r.Fail? ==>
        currentLockOptions == old(currentLockOptions) && lockedBox == old(lockedBox) && currentLock == old(currentLock)
    {
      var locked;
      r, locked := LockImpl(lockBox, options);
      if r.Pass? {
        currentLock := locked;
      }
    }

    /**
     * What unlock uploads after a lock of `lockBox`: its sub-volume keeps the
     * buffer's row and slice pitches, so upload accepts it exactly when the
     * box spans the whole width and height of the buffer; a narrower or
     * shorter lock that is not read-only is always refused with
     * ERR_INVALIDPARAMS when it is unlocked.
     */
    lemma LockedBoxUploadAccepted(lockBox: Box)
      requires Valid()
      ensures UploadOutcome(util, Params(), SubVolume(lockBox)) == Pass <==>
        Width(lockBox) == width && Height(lockBox) == height
      ensures UploadOutcome(util, Params(), SubVolume(lockBox)) != Pass ==>
        UploadOutcome(util, Params(), SubVolume(lockBox)) == Fail(InvalidParams)
    {
      var w, h := Width(lockBox), Height(lockBox);
      if w == width && h != height {
        if h < height {
          assert width * height == width * h + width * (height - h);
          MulAtLeast(width, height - h);
        } else {
          assert width * h == width * height + width * (h - height);
          MulAtLeast(width, h - height);
        }
        assert width * h != width * height;
      }
    }

    /** The path blitFromMemory takes for `src` into `dstBox`. */
    function StagingPathOf(src: PixelBox, dstBox: Box): StagingPath
    {
      if !SameExtents(src.box, dstBox) then ScaleIntoShadow
      else if util.glOriginFormat(src.format) == 0 then ConvertIntoShadow
      else DirectFromSource
    }

    /** The box blitFromMemory then uploads. */
    function StagedSource(src: PixelBox, dstBox: Box): PixelBox
    {
      match StagingPathOf(src, dstBox)
      case ScaleIntoShadow => SubVolume(dstBox)
      case ConvertIntoShadow => SubVolume(dstBox)
      case DirectFromSource => if src.format == PF_R8G8B8 then src.(format := PF_B8G8R8) else src
    }

    /** The helper calls blitFromMemory makes before uploading. */
    function StagingEffects(src: PixelBox, dstBox: Box): seq<Effect>
    {
      match StagingPathOf(src, dstBox)
      case ScaleIntoShadow => [ScaleImage(src, SubVolume(dstBox), FilterBilinear)]
      case ConvertIntoShadow => [ConvertPixels(src, SubVolume(dstBox))]
      case DirectFromSource => if src.format == PF_R8G8B8 then [ConvertPixels(src, src.(format := PF_B8G8R8))] else []
    }

    function PixelBufferBlitOutcome(src: PixelBox, dstBox: Box): Outcome
    {
      if !Contains(BufferBox(), dstBox) then Fail(InvalidParams)
      else UploadOutcome(util, Params(), StagedSource(src, dstBox))
    }

    function PixelBufferBlitTrace(src: PixelBox, dstBox: Box): seq<Effect>
    {
      if !Contains(BufferBox(), dstBox) then []
      else StagingEffects(src, dstBox) + UploadTrace(util, Params(), StagedSource(src, dstBox), dstBox)
    }

    /** Whatever path it takes, blitFromMemory uploads a box of exactly the destination's extents. */
    lemma StagedSourceHasDestExtents(src: PixelBox, dstBox: Box)
      ensures SameExtents(StagedSource(src, dstBox).box, dstBox)
    {
    }

    /**
     * Staged through the shadow buffer, a destination narrower than the
     * texture is always rejected by upload: the sub-volume keeps the
     * buffer's row pitch, which then differs from its width.
     */
    lemma NarrowStagedBlitRejected(src: PixelBox, dstBox: Box)
      requires Valid()
      requires StagingPathOf(src, dstBox) != DirectFromSource && Width(dstBox) != width
      ensures UploadOutcome(util, Params(), StagedSource(src, dstBox)) == Fail(InvalidParams)
    {
    }

    /**
     * GLES2HardwarePixelBuffer::blitFromMemory: rejects a destination outside
     * the buffer; otherwise scales (when the extents differ) or converts
     * (when GL cannot take the source format) into the shadow buffer, or
     * uploads the source directly, relabelling PF_R8G8B8 as PF_B8G8R8; then
     * uploads and calls freeBuffer.
     */
    method PixelBufferBlitFromMemory(src: PixelBox, dstBox: Box) returns (r: Outcome)
      modifies this`data, gl
      ensures r == PixelBufferBlitOutcome(src, dstBox)
      ensures gl.effects == old(gl.effects) + PixelBufferBlitTrace(src, dstBox)
      ensures !Contains(BufferBox(), dstBox) ==> data == old(data)
      ensures Contains(BufferBox(), dstBox) ==>
        if r.Pass? && Static in usage then data == null
        else data != null && (old(data) != null ==> data == old(data)) && (old(data) == null ==> fresh(data))
    {
      if !Contains(BufferBox(), dstBox) {
        return Fail(InvalidParams);
      }
      ghost var e0 := gl.effects;
      var scaled := StageSource(src, dstBox);
      ghost var staged := gl.effects;
      r := Upload(scaled, dstBox);
      assert gl.effects == e0 + (StagingEffects(src, dstBox) + UploadTrace(util, Params(), scaled, dstBox)) by {
        AppendAssoc(e0, StagingEffects(src, dstBox), UploadTrace(util, Params(), scaled, dstBox));
      }
      if r.Fail? {
        return;
      }
      FreeBuffer();
    }

    /** The part of blitFromMemory that brings `src` to the destination's extents and a format GL takes. */
    method StageSource(src: PixelBox, dstBox: Box) returns (scaled: PixelBox)
      modifies this`data, gl
      ensures scaled == StagedSource(src, dstBox)
      ensures gl.effects == old(gl.effects) + StagingEffects(src, dstBox)
      ensures data != null && (old(data) != null ==> data == old(data)) && (old(data) == null ==> fresh(data))
    {
      AllocateBuffer();
      if !SameExtents(src.box, dstBox) {
        scaled := SubVolume(dstBox);
        gl.Emit(ScaleImage(src, scaled, FilterBilinear));
      } else if util.glOriginFormat(src.format) == 0 {
        scaled := SubVolume(dstBox);
        gl.Emit(ConvertPixels(src, scaled));
      } else {
        scaled := src;
        if src.format == PF_R8G8B8 {
          scaled := scaled.(format := PF_B8G8R8);
          gl.Emit(ConvertPixels(src, scaled));
        }
      }
    }

    /** The path blitToMemory takes for `srcBox` into `dst`. */
    function DownloadPlanOf(srcBox: Box, dst: PixelBox): DownloadPlan
    {
      if srcBox.left == 0 && srcBox.right == width && srcBox.top == 0 && srcBox.bottom == height &&
         srcBox.front == 0 && srcBox.back == depth &&
         Width(dst.box) == width && Height(dst.box) == height && Depth(dst.box) == depth &&
         util.glOriginFormat(dst.format) != 0
      then DirectDownload
      else ThroughShadow(!SameExtents(srcBox, dst.box))
    }

    /**
     * The direct download is taken only for the whole texture into a
     * destination of the same extents, so it never needs scaling; a partial
     * box into a full-size destination is always staged and scaled.
     */
    lemma DownloadPlanScaling(srcBox: Box, dst: PixelBox)
      requires Contains(BufferBox(), srcBox)
      ensures DownloadPlanOf(srcBox, dst) == DirectDownload ==> srcBox == BufferBox() && SameExtents(srcBox, dst.box)
      ensures DownloadPlanOf(srcBox, dst) == ThroughShadow(true) <==> !SameExtents(srcBox, dst.box)
      ensures srcBox != BufferBox() && SameExtents(dst.box, BufferBox()) ==> DownloadPlanOf(srcBox, dst) == ThroughShadow(true)
    {
    }

    /**
     * GLES2HardwarePixelBuffer::blitToMemory: rejects a source box outside
     * the buffer, then downloads, into `dst` directly or into the shadow
     * buffer first. The download always raises, so the scale or copy out of
     * the shadow buffer that would follow is never reached.
     */
    method BlitToMemory(srcBox: Box, dst: PixelBox) returns (r: Outcome)
      modifies this`data
      ensures !Contains(BufferBox(), srcBox) ==> r == Fail(InvalidParams) && data == old(data)
      ensures Contains(BufferBox(), srcBox) ==> r == Fail(NotImplemented)
      ensures Contains(BufferBox(), srcBox) && DownloadPlanOf(srcBox, dst) == DirectDownload ==> data == old(data)
      ensures Contains(BufferBox(), srcBox) && DownloadPlanOf(srcBox, dst).ThroughShadow? ==>
        data != null && (old(data) != null ==> data == old(data)) && (old(data) == null ==> fresh(data))
    {
      if !Contains(BufferBox(), srcBox) {
        return Fail(InvalidParams);
      }
      if DownloadPlanOf(srcBox, dst) == DirectDownload {
        r := Download(dst);
      } else {
        AllocateBuffer();
        r := Download(Shadow());
      }
    }

    /** GLES2TextureBuffer::download: OpenGL ES cannot read textures back, so it always raises. */
    method Download(dst: PixelBox) returns (r: Outcome)
      ensures r == Fail(NotImplemented)
    {
      r := Fail(NotImplemented);
    }

    /** GLES2TextureBuffer::upload: checks the source box, sends it to GL, and generates mipmaps. */
    method Upload(src: PixelBox, dest: Box) returns (r: Outcome)
      modifies gl
      ensures r == UploadOutcome(util, Params(), src)
      ensures gl.effects == old(gl.effects) + UploadTrace(util, Params(), src, dest)
    {
      gl.Emit(BindTexture(target, textureId));
      if util.isCompressed(src.format) {
        if src.format != format || !IsConsecutive(src) {
          return Fail(InvalidParams);
        }
      } else {
        if Width(src.box) != src.rowPitch {
          return Fail(InvalidParams);
        }
        if Height(src.box) * Width(src.box) != src.slicePitch {
          return Fail(InvalidParams);
        }
      }
      ghost var bound := gl.effects;
      UploadPixels(src, dest);
      ghost var sent := gl.effects;
      FinishUpload();
      assert gl.effects == bound + sent[|bound|..] + UploadFinish(Params());
      r := Pass;
    }

    /**
     * The transfer of upload once the checks have passed: a compressed image
     * or sub-image, the software mipmap chain, or a sub-image with the unpack
     * alignment lowered to 1 for rows that are not a multiple of 4 bytes.
     */
    method UploadPixels(src: PixelBox, dest: Box)
      modifies gl
      ensures gl.effects == old(gl.effects) + UploadBody(util, Params(), src, dest)
    {
      if util.isCompressed(src.format) {
        var internal := util.closestGLInternalFormat(format);
        var size := util.memorySize(Width(src.box), Height(src.box), Depth(src.box), src.format);
        if dest.left == 0 && dest.top == 0 {
          gl.Emit(CompressedTexImage2D(faceTarget, level, internal, Width(dest), Height(dest), size));
        } else {
          gl.Emit(CompressedTexSubImage2D(faceTarget, level, dest.left, dest.top, Width(dest), Height(dest), internal, size));
        }
      } else if softwareMipmap {
        gl.Emit(UnpackAlignment(1));
        BuildMipmaps(src);
      } else {
        if (Width(src.box) * util.numElemBytes(src.format)) % 4 != 0 {
          gl.Emit(UnpackAlignment(1));
        }
        gl.Emit(TexSubImage2D(faceTarget, level, dest.left, dest.top, Width(dest), Height(dest),
                              util.glOriginFormat(src.format), util.glOriginDataType(src.format), src.data));
      }
    }

    /** The end of upload: hardware mipmap generation when asked for, then the default unpack alignment. */
    method FinishUpload()
      modifies gl
      ensures gl.effects == old(gl.effects) + UploadFinish(Params())
    {
      if AutoMipmap in usage && !softwareMipmap && level == 0 {
        gl.Emit(GenerateMipmap(faceTarget));
      }
      gl.Emit(UnpackAlignment(4));
    }

    /**
     * buildMipmaps: sends levels 0 to max(computeLog(w), computeLog(h)),
     * halving each dimension (while above 1) and rescaling the source after
     * each level.
     */
    method BuildMipmaps(src: PixelBox)
      modifies gl
      ensures gl.effects == old(gl.effects) + MipmapTrace(util, Params(), src)
    {
      var w := Width(src.box);
      var h := Height(src.box);
      var logW := ComputeLog(w);
      var logH := ComputeLog(h);
      var lvl := if logW > logH then logW else logH;
      ghost var p := Params();
      ghost var target := old(gl.effects) + MipmapTrace(util, p, src);
      assert gl.effects + MipLevels(util, p, src, 0, lvl + 1, w, h) == target;
      var scaled := src;
      var mip := 0;
      while mip <= lvl
        invariant 0 <= mip <= lvl + 1
        invariant scaled.format == src.format
        invariant scaled.data == if mip == 0 then src.data else ScratchData
        invariant gl.effects + MipLevels(util, p, src, mip, lvl + 1, w, h) == target
      {
        ghost var before := gl.effects;
        MipLevelsStep(util, p, src, mip, lvl + 1, w, h);
        scaled := EmitMipLevel(src, scaled, mip, w, h);
        AppendAssoc(before, gl.effects[|before|..], MipLevels(util, p, src, mip + 1, lvl + 1, Halve(w), Halve(h)));
        w, h := Halve(w), Halve(h);
        mip := mip + 1;
      }
    }

    /**
     * One pass of buildMipmaps' loop: sends `scaled` as level `mip`, halves
     * the dimensions (while above 1) and scales the source to the new size.
     */
    method EmitMipLevel(src: PixelBox, scaled: PixelBox, mip: nat, w: nat, h: nat) returns (next: PixelBox)
      requires scaled.format == src.format
      modifies gl
      ensures next == MakePixelBox(Halve(w), Halve(h), 1, src.format, ScratchData)
      ensures gl.effects == old(gl.effects) +
        [TexImage2D(faceTarget, mip, util.glOriginFormat(src.format), w, h, util.glOriginFormat(src.format),
                    util.glOriginDataType(src.format), scaled.data),
         ScaleImage(src, next, FilterLinear)]
    {
      var glFormat := util.glOriginFormat(scaled.format);
      var dataType := util.glOriginDataType(scaled.format);
      gl.Emit(TexImage2D(faceTarget, mip, glFormat, w, h, glFormat, dataType, scaled.data));
      // the scaled copy of a level above 0 is freed here
      var nw, nh := w, h;
      if nw > 1 {
        nw := nw / 2;
      }
      if nh > 1 {
        nh := nh / 2;
      }
      next := MakePixelBox(nw, nh, 1, src.format, ScratchData);
      gl.Emit(ScaleImage(src, next, FilterLinear));
    }

    /** getRenderTarget: the render texture created for slice `zoffset`. */
    method GetRenderTarget(zoffset: nat) returns (slice: nat)
      requires Valid()
      requires RenderTarget in usage && zoffset < depth
      ensures slice == zoffset
    {
      slice := sliceTargets[zoffset];
    }

    /** Whether GLES2TextureBuffer::blitFromMemory hands over to GLES2HardwarePixelBuffer::blitFromMemory. */
    predicate FallsBack(src: PixelBox, dstBox: Box)
    {
      util.isLuminance(src.format) || util.isLuminance(format) || SameExtents(src.box, dstBox)
    }

    /** The source of the hardware-scaled blit, converted to the buffer's format if GL cannot take its own. */
    function HardwareSource(src: PixelBox): PixelBox
    {
      if util.glOriginFormat(src.format) == 0
      then MakePixelBox(Width(src.box), Height(src.box), Depth(src.box), format, ScratchData)
      else src
    }

    /** The temporary texture the hardware-scaled blit uploads its (converted) source `s` into. */
    function TempParams(s: PixelBox, tempId: nat): TexParams
    {
      var internal := util.closestGLInternalFormat(s.format);
      TexParams(GL_TEXTURE_2D, tempId, GL_TEXTURE_2D, 0, util.closestOgreFormat(internal, s.format),
                {AutoMipmap} + StaticWriteOnly, false)
    }

    /** The box of the temporary texture that `s` is uploaded to: the extents of `s` at the origin. */
    function TempTarget(s: PixelBox): Box
    {
      Extent(Width(s.box), Height(s.box), Depth(s.box))
    }

    /** The conversion of a source GL cannot take into the buffer's format. */
    function ConversionEffects(src: PixelBox): seq<Effect>
    {
      if util.glOriginFormat(src.format) == 0 then [ConvertPixels(src, HardwareSource(src))] else []
    }

    /** The GL calls that create the temporary texture for `s`, its buffer's constructor included. */
    function TempTextureEffects(s: PixelBox, tempId: nat): seq<Effect>
    {
      var internal := util.closestGLInternalFormat(s.format);
      [GenTexture(tempId), BindTexture(GL_TEXTURE_2D, tempId),
       TexImage2D(GL_TEXTURE_2D, 0, internal, util.optionalPO2(Width(s.box)), util.optionalPO2(Height(s.box)),
                  internal, util.glOriginDataType(s.format), NoData),
       BindTexture(GL_TEXTURE_2D, tempId)]
    }

    /** The calls that create the temporary texture and upload `s` into it. */
    function TempUploadEffects(s: PixelBox, tempId: nat): seq<Effect>
    {
      TempTextureEffects(s, tempId) + UploadTrace(util, TempParams(s, tempId), s, TempTarget(s))
    }

    function HardwareBlitOutcome(src: PixelBox, dstBox: Box, tempId: nat): Outcome
    {
      if !Contains(BufferBox(), dstBox) then Fail(InvalidParams)
      else UploadOutcome(util, TempParams(HardwareSource(src), tempId), HardwareSource(src))
    }

    function HardwareBlitTrace(src: PixelBox, dstBox: Box, tempId: nat): seq<Effect>
    {
      if !Contains(BufferBox(), dstBox) then []
      else
        ConversionEffects(src) + TempUploadEffects(HardwareSource(src), tempId) +
        (if HardwareBlitOutcome(src, dstBox, tempId).Pass? then [DeleteTexture(tempId)] else [])
    }

    /**
     * GLES2TextureBuffer::blitFromMemory: luminance formats and equal
     * extents fall back to GLES2HardwarePixelBuffer::blitFromMemory;
     * otherwise the source is uploaded into a temporary texture (tempId is
     * the name glGenTextures returns) for a hardware-scaled copy.
     */
    method BlitFromMemory(src: PixelBox, dstBox: Box, tempId: nat) returns (r: Outcome)
      modifies this`data, gl
      ensures FallsBack(src, dstBox) ==>
        r == PixelBufferBlitOutcome(src, dstBox) &&
        gl.effects == old(gl.effects) + PixelBufferBlitTrace(src, dstBox)
      ensures FallsBack(src, dstBox) && Contains(BufferBox(), dstBox) ==>
        if r.Pass? && Static in usage then data == null
        else data != null && (old(data) != null ==> data == old(data)) && (old(data) == null ==> fresh(data))
      ensures !FallsBack(src, dstBox) ==>
        r == HardwareBlitOutcome(src, dstBox, tempId) &&
        gl.effects == old(gl.effects) + HardwareBlitTrace(src, dstBox, tempId)
      ensures !FallsBack(src, dstBox) || !Contains(BufferBox(), dstBox) ==> data == old(data)
    {
      if util.isLuminance(src.format) || util.isLuminance(format) || SameExtents(src.box, dstBox) {
        r := PixelBufferBlitFromMemory(src, dstBox);
        return;
      }
      r := HardwareScaledBlit(src, dstBox, tempId);
    }

    /**
     * The hardware-scaled half of GLES2TextureBuffer::blitFromMemory: the
     * source, converted to the buffer's format if GL cannot take its own, is
     * uploaded into a temporary 2-D texture, blitted from, and deleted.
     */
    method HardwareScaledBlit(src: PixelBox, dstBox: Box, tempId: nat) returns (r: Outcome)
      modifies gl
      ensures r == HardwareBlitOutcome(src, dstBox, tempId)
      ensures gl.effects == old(gl.effects) + HardwareBlitTrace(src, dstBox, tempId)
    {
      if !Contains(BufferBox(), dstBox) {
        return Fail(InvalidParams);
      }
      ghost var e0 := gl.effects;
      var s := ConvertSource(src);
      ghost var converted := gl.effects;
      var tex;
      r, tex := UploadToTemp(s, tempId);
      assert gl.effects == e0 + (ConversionEffects(src) + TempUploadEffects(s, tempId)) by {
        AppendAssoc(e0, ConversionEffects(src), TempUploadEffects(s, tempId));
      }
      if r.Fail? {
        return;
      }
      BlitFromTexture(tex, TempTarget(s), dstBox);
      gl.Emit(DeleteTexture(tempId));
    }

    /** The conversion step: a source GL cannot take is converted into a scratch box of the buffer's format. */
    method ConvertSource(src: PixelBox) returns (s: PixelBox)
      modifies gl
      ensures s == HardwareSource(src)
      ensures gl.effects == old(gl.effects) + ConversionEffects(src)
    {
      s := src;
      if util.glOriginFormat(src.format) == 0 {
        s := MakePixelBox(Width(src.box), Height(src.box), Depth(src.box), format, ScratchData);
        gl.Emit(ConvertPixels(src, s));
      }
    }

    /** The temporary texture for `s` is created and `s` is uploaded into it. */
    method UploadToTemp(s: PixelBox, tempId: nat) returns (r: Outcome, tex: TextureBuffer)
      modifies gl
      ensures r == UploadOutcome(util, TempParams(s, tempId), s)
      ensures gl.effects == old(gl.effects) + TempUploadEffects(s, tempId)
    {
      tex := CreateTempTexture(s, tempId);
      r := tex.Upload(s, TempTarget(s));
    }

    /**
     * The temporary texture of the hardware-scaled blit: a name from
     * glGenTextures, storage of the (optionally power-of-two) size of `s`, and
     * a GLES2TextureBuffer over it with automatic mipmaps.
     */
    method CreateTempTexture(s: PixelBox, tempId: nat) returns (tex: TextureBuffer)
      modifies gl
      ensures tex.gl == gl && tex.util == util
      ensures tex.Params() == TempParams(s, tempId)
      ensures gl.effects == old(gl.effects) + TempTextureEffects(s, tempId)
    {
      var w := util.optionalPO2(Width(s.box));
      var h := util.optionalPO2(Height(s.box));
      var internal := util.closestGLInternalFormat(s.format);
      var dataType := util.glOriginDataType(s.format);
      gl.Emit(GenTexture(tempId));
      gl.Emit(BindTexture(GL_TEXTURE_2D, tempId));
      gl.Emit(TexImage2D(GL_TEXTURE_2D, 0, internal, w, h, internal, dataType, NoData));
      tex := new TextureBuffer(gl, util, GL_TEXTURE_2D, tempId, w, h, internal, s.format, 0, 0,
                               {AutoMipmap} + StaticWriteOnly, false);
    }

    /** GLES2TextureBuffer::blitFromTexture returns before doing anything. */
    method BlitFromTexture(src: TextureBuffer, srcBox: Box, dstBox: Box)
      ensures unchanged(this, src, gl)
    {
    }
  }
}
