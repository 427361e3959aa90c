/**
 * Value types shared by the GLES2 pixel buffer and the BlackBerry EGL window:
 * Ogre's Image::Box and PixelBox, its exception codes, pixel formats, and the
 * engine helpers (GLES2PixelUtil, PixelUtil) the modelled code calls but does
 * not define, gathered as uninterpreted functions.
 */
module PixelTypes {

  datatype Option<T> = None | Some(value: T)

  /** The Ogre exception codes the modelled code raises. */
  datatype ErrorCode = InvalidParams | NotImplemented | RenderingApiError

  /** Completion of an operation that may raise an Ogre exception. */
  datatype Outcome = Pass | Fail(code: ErrorCode)

  /** Ogre's PixelFormat enumeration, by its numeric value. */
  type PixelFormat = nat

  const PF_UNKNOWN: PixelFormat := 0
  const PF_R8G8B8: PixelFormat := 10
  const PF_B8G8R8: PixelFormat := 11

  /** Image::Box: a half-open 3-D range of size_t coordinates. */
  datatype RawBox = RawBox(left: nat, top: nat, front: nat, right: nat, bottom: nat, back: nat)

  /** The Box constructor asserts that no extent is negative. */
  type Box = b: RawBox | b.left <= b.right && b.top <= b.bottom && b.front <= b.back
    witness RawBox(0, 0, 0, 0, 0, 0)

  function Width(b: Box): nat { b.right - b.left }
  function Height(b: Box): nat { b.bottom - b.top }
  function Depth(b: Box): nat { b.back - b.front }

  /** The box [0, w) x [0, h) x [0, d). */
  function Extent(w: nat, h: nat, d: nat): (b: Box)
    ensures Width(b) == w && Height(b) == h && Depth(b) == d
  {
    RawBox(0, 0, 0, w, h, d)
  }

  /** Box::contains: `inner` lies inside `outer`. */
  predicate Contains(outer: Box, inner: Box)
  {
    inner.left >= outer.left && inner.top >= outer.top && inner.front >= outer.front &&
    inner.right <= outer.right && inner.bottom <= outer.bottom && inner.back <= outer.back
  }

  /** Two boxes have the same width, height and depth. */
  predicate SameExtents(a: Box, b: Box)
  {
    Width(a) == Width(b) && Height(a) == Height(b) && Depth(a) == Depth(b)
  }

  /** Where a PixelBox's data pointer points. */
  datatype DataRef =
    | NoData              // a null pointer
    | ShadowData          // the pixel buffer's own shadow buffer (mBuffer.data)
    | ScratchData         // a temporary allocated by the operation itself
    | CallerData(id: nat) // memory owned by the caller

  /** PixelBox: a box, a pixel format, row and slice pitches in pixels, and data. */
  datatype PixelBox = PixelBox(box: Box, format: PixelFormat, rowPitch: nat, slicePitch: nat, data: DataRef)

  /** The PixelBox(width, height, depth, format, data) constructor: a packed box at the origin. */
  function MakePixelBox(w: nat, h: nat, d: nat, format: PixelFormat, data: DataRef): (p: PixelBox)
    ensures SameExtents(p.box, Extent(w, h, d)) && IsConsecutive(p)
  {
    PixelBox(Extent(w, h, d), format, w, w * h, data)
  }

  /** PixelBox::isConsecutive: rows and slices are packed without padding. */
  predicate IsConsecutive(p: PixelBox)
  {
    p.rowPitch == Width(p.box) && p.slicePitch == Width(p.box) * Height(p.box)
  }

  /** Image scaling filters passed to Image::scale. */
  datatype Filter = FilterLinear | FilterBilinear

  /**
   * The engine helpers the modelled code calls, as uninterpreted functions:
   * GLES2PixelUtil::getGLOriginFormat, getGLOriginDataType,
   * getClosestGLInternalFormat, getClosestOGREFormat, optionalPO2 and
   * PixelUtil::isCompressed, isLuminance, getNumElemBytes, getMemorySize.
   */
  datatype PixelUtil = PixelUtil(
    glOriginFormat: PixelFormat -> nat,
    glOriginDataType: PixelFormat -> nat,
    closestGLInternalFormat: PixelFormat -> nat,
    closestOgreFormat: (int, int) -> PixelFormat,
    optionalPO2: nat -> nat,
    isCompressed: PixelFormat -> bool,
    isLuminance: PixelFormat -> bool,
    numElemBytes: PixelFormat -> nat,
    memorySize: (nat, nat, nat, PixelFormat) -> nat)
}
