/**
 * BlackBerryEGLWindow (OgreBlackBerryEGLWindow.h and .cpp): the render
 * window of the BlackBerry port, with its closed / active / visible flags,
 * the native screen window handle, the EGL context, and the read-back of
 * the framebuffer into memory.
 *
 * Calls into libscreen, EGL and GL are not executed: each is appended to the
 * window's `calls` log. What they return (the handle and the status of
 * screen_create_window, the new context, the pixels glReadPixels delivers)
 * is passed in as a parameter.
 */
module BlackBerryWindow {
  import opened PixelTypes
  import opened RowFlip

  /** RenderTarget::FrameBuffer. */
  datatype FrameBuffer = FbFront | FbBack | FbAuto

  /** A libscreen, EGL or GL call made by the window. */
  datatype NativeCall =
    | ScreenCreateWindow
    | SetWindowFormatRgba8888
    | SetWindowUsageGles2Rotation
    | SetSourceSize(width: nat, height: nat)
    | SetBufferSize(width: nat, height: nat)
    | CreateWindowBuffers(count: nat)
    | ScreenDestroyWindow(handle: nat)
    | CreateGlSurface(nativeWindow: Option<nat>)
    | MakeCurrent
    | EglSwapBuffers
    | SetViewport
    | PackAlignment(alignment: nat)
    | ReadPixels(left: nat, top: nat, width: nat, height: nat, format: nat, dataType: nat)

  /** The BlackBerryEGLContext the window renders with: its identity and backing store size. */
  datatype Context = Context(id: nat, backingWidth: nat, backingHeight: nat)

  /** The name and value pairs passed to create, when any are. */
  type MiscParams = Option<map<string, string>>

  /** The window name create settles on: the "title" parameter if given, the name argument otherwise. */
  function WindowName(name: string, miscParams: MiscParams): (r: string)
    ensures miscParams.Some? && "title" in miscParams.value ==> r == miscParams.value["title"]
    ensures !(miscParams.Some? && "title" in miscParams.value) ==> r == name
  {
    if miscParams.Some? && "title" in miscParams.value then miscParams.value["title"] else name
  }

  /** The number of double-buffered window buffers createBlackberryWindow asks for. */
  const WindowBufferCount: nat := 2

  /**
   * The calls createBlackberryWindow makes: screen_create_window, then, only
   * if it succeeded, the format, usage, source and buffer sizes, and the
   * buffers.
   */
  function NativeWindowCalls(width: nat, height: nat, createRc: int): seq<NativeCall>
  {
    [ScreenCreateWindow] +
    if createRc != 0 then []
    else [SetWindowFormatRgba8888, SetWindowUsageGles2Rotation, SetSourceSize(width, height),
          SetBufferSize(width, height), CreateWindowBuffers(WindowBufferCount)]
  }

  /**
   * FB_AUTO stands for the front buffer of a full-screen window and the back
   * buffer otherwise; an explicit buffer is kept.
   */
  function ResolveFrameBuffer(buffer: FrameBuffer, fullScreen: bool): (r: FrameBuffer)
    ensures r != FbAuto
    ensures buffer != FbAuto ==> r == buffer
    ensures buffer == FbAuto ==> (r == FbFront <==> fullScreen)
  {
    if buffer == FbAuto then (if fullScreen then FbFront else FbBack) else buffer
  }

  /**
   * The checks of copyContentsToMemory on a w x h window: the box must lie
   * in the window and be one slice deep at depth 0, and GL must have an
   * origin format and data type for the destination format. (The box's
   * coordinates are unsigned, so its left and top tests never fail.)
   */
  function CopyOutcome(util: PixelUtil, w: nat, h: nat, box: Box, format: PixelFormat): Outcome
  {
    if box.left < 0 || box.right > w || box.top < 0 || box.bottom > h || box.front != 0 || box.back != 1 then
      Fail(InvalidParams)
    else if util.glOriginFormat(format) == 0 || util.glOriginDataType(format) == 0 then
      Fail(InvalidParams)
    else Pass
  }

  /**
   * copyContentsToMemory accepts exactly the single-slice boxes inside the
   * window in a format GL can read back; every rejection is ERR_INVALIDPARAMS.
   */
  lemma CopyAccepts(util: PixelUtil, w: nat, h: nat, box: Box, format: PixelFormat)
    ensures CopyOutcome(util, w, h, box, format) == Pass <==>
      Contains(Extent(w, h, 1), box) && Depth(box) == 1 &&
      util.glOriginFormat(format) != 0 && util.glOriginDataType(format) != 0
    ensures CopyOutcome(util, w, h, box, format) != Pass ==> CopyOutcome(util, w, h, box, format) == Fail(InvalidParams)
  {
  }

  /** The bytes of one row of the destination: its width times the bytes per pixel. */
  function RowSpan(util: PixelUtil, box: Box, format: PixelFormat): nat
  {
    Width(box) * util.numElemBytes(format)
  }

  class EGLWindow {
    var closed: bool
    var visible: bool
    var active: bool                // RenderTarget::mActive
    var isFullScreen: bool          // RenderWindow::mIsFullScreen, never set by this class
    var window: Option<nat>         // the native screen window handle, None for NULL
    var context: Option<Context>    // None for NULL
    var name: string
    var width: nat
    var height: nat
    var left: int
    var top: int
    var fsaa: nat
    var calls: seq<NativeCall>

    /** A new window is open but not visible, has no context and no native window yet. */
    constructor ()
      ensures !closed && !visible && context == None && window == None && calls == []
    {
      closed := false;
      visible := false;
      context := None;
      window := None;
      calls := [];
    }

    /** isClosed answers mClosed. */
    function IsClosed(): (r: bool)
      reads this
      ensures r == closed
    {
      closed
    }

    /** isVisible answers mVisible. */
    function IsVisible(): (r: bool)
      reads this
      ensures r == visible
    {
      visible
    }

    /** setClosed: isClosed then answers `c`; nothing else of the window changes. */
    method SetClosed(c: bool)
      modifies this`closed
      ensures IsClosed() == c
    {
      closed := c;
    }

    /** setVisible: isVisible then answers `v`; nothing else of the window changes. */
    method SetVisible(v: bool)
      modifies this`visible
      ensures IsVisible() == v
    {
      visible := v;
    }

    /** The window's image is never upside down for texture use. */
    function RequiresTextureFlipping(): (r: bool)
      ensures !r
    {
      false
    }

    /** switchFullScreen has an empty body: it can change nothing. */
    method SwitchFullScreen(fullScreen: bool)
      ensures unchanged(this)
    {
    }

    /**
     * destroy: a closed window is left as it is; an open one becomes closed
     * and inactive (leaving full screen does nothing).
     */
    method Destroy()
      modifies this`closed, this`active
      ensures closed
      ensures old(closed) ==> active == old(active)
      ensures !old(closed) ==> !active
    {
      if closed {
        return;
      }
      closed := true;
      active := false;
      if isFullScreen {
        SwitchFullScreen(false);
      }
    }

    /** destroyBlackberryWindow: destroys the native window if there is one, and leaves the handle null. */
    method DestroyBlackberryWindow()
      modifies this`window, this`calls
      ensures window == None
      ensures calls == old(calls) + if old(window).Some? then [ScreenDestroyWindow(old(window).value)] else []
    {
      if window.Some? {
        calls := calls + [ScreenDestroyWindow(window.value)];
        window := None;
      }
    }

    /**
     * createBlackberryWindow: on success of screen_create_window (status 0)
     * the window takes the new handle and is set up at the window's size;
     * on failure the setup is skipped.
     */
    method CreateBlackberryWindow(createRc: int, handle: nat)
      modifies this`window, this`calls
      ensures window == if createRc == 0 then Some(handle) else old(window)
      ensures calls == old(calls) + NativeWindowCalls(width, height, createRc)
    {
      calls := calls + [ScreenCreateWindow];
      if createRc != 0 {
        return;
      }
      window := Some(handle);
      calls := calls + [SetWindowFormatRgba8888, SetWindowUsageGles2Rotation];
      calls := calls + [SetSourceSize(width, height), SetBufferSize(width, height)];
      calls := calls + [CreateWindowBuffers(WindowBufferCount)];
    }

    /**
     * create: takes the name (or the "title" parameter) and the size, reads
     * FSAA from the parameters, creates a context backed at the window's
     * size (`contextId` names the context the support object creates), the
     * native window and the GL surface, and ends open, active and visible at
     * position (0, 0) whatever "left" and "top" said.
     */
    method Create(name: string, width: nat, height: nat, fullScreen: bool, miscParams: MiscParams,
                  parseUnsignedInt: string -> nat, contextId: nat, createRc: int, handle: nat)
      modifies this`width, this`height, this`name, this`fsaa, this`context, this`window, this`calls
      modifies this`left, this`top, this`active, this`visible, this`closed
      ensures this.name == WindowName(name, miscParams)
      ensures this.width == width && this.height == height
      ensures context == Some(Context(contextId, width, height))
      ensures left == 0 && top == 0
      ensures active && visible && !closed
      ensures fsaa == if miscParams.Some? && "FSAA" in miscParams.value
                      then parseUnsignedInt(miscParams.value["FSAA"]) else old(fsaa)
      ensures window == if createRc == 0 then Some(handle) else old(window)
      ensures calls == old(calls) + NativeWindowCalls(width, height, createRc) + [CreateGlSurface(window), MakeCurrent]
      ensures isFullScreen == old(isFullScreen)
    {
      this.width := width;
      this.height := height;
      ApplyParams(name, miscParams, parseUnsignedInt);
      OpenWindow(contextId, createRc, handle);
    }

    /**
     * The rest of create once the size and parameters are taken: the context
     * backed at the window's size, the native window, the GL surface made
     * current, and the flags of an open window at (0, 0).
     */
    method OpenWindow(contextId: nat, createRc: int, handle: nat)
      modifies this`context, this`window, this`calls, this`left, this`top, this`active, this`visible, this`closed
      ensures context == Some(Context(contextId, width, height))
      ensures left == 0 && top == 0
      ensures active && visible && !closed
      ensures window == if createRc == 0 then Some(handle) else old(window)
      ensures calls == old(calls) + NativeWindowCalls(width, height, createRc) + [CreateGlSurface(window), MakeCurrent]
    {
      context := Some(Context(contextId, width, height));
      ghost var before := calls;
      CreateBlackberryWindow(createRc, handle);
      ghost var created := calls;
      calls := calls + [CreateGlSurface(window), MakeCurrent];
      assert calls == before + (created[|before|..] + [CreateGlSurface(window), MakeCurrent]);
      context := Some(context.value.(backingWidth := width, backingHeight := height));
      left, top := 0, 0;
      active := true;
      visible := true;
      closed := false;
    }

    /**
     * The parameter handling of create: the name, then FSAA and "title" when
     * given; displayFrequency, vsync, left and top are parsed into locals that
     * nothing reads.
     */
    method ApplyParams(name: string, miscParams: MiscParams, parseUnsignedInt: string -> nat)
      modifies this`name, this`fsaa
      ensures this.name == WindowName(name, miscParams)
      ensures fsaa == if miscParams.Some? && "FSAA" in miscParams.value
                      then parseUnsignedInt(miscParams.value["FSAA"]) else old(fsaa)
    {
      this.name := name;
      if miscParams.Some? {
        var params := miscParams.value;
        if "FSAA" in params {
          fsaa := parseUnsignedInt(params["FSAA"]);
        }
        if "title" in params {
          this.name := params["title"];
        }
      }
    }

    /** swapBuffers: swaps through EGL unless the window is closed. */
    method SwapBuffers(waitForVSync: bool)
      requires !closed ==> context.Some?
      modifies this`calls
      ensures calls == old(calls) + if closed then [] else [EglSwapBuffers]
    {
      if closed {
        return;
      }
      calls := calls + [EglSwapBuffers];
    }

    /**
     * getCustomAttribute: "GLCONTEXT" yields the context; for any other name
     * the value at pData (`current`) is left as it was.
     */
    method GetCustomAttribute(attribute: string, current: Option<Context>) returns (r: Option<Context>)
      ensures attribute == "GLCONTEXT" ==> r == context
      ensures attribute != "GLCONTEXT" ==> r == current
    {
      if attribute == "GLCONTEXT" {
        return context;
      }
      return current;
    }

    /**
     * copyContentsToMemory: checks the box and the format, resolves FB_AUTO,
     * reads the box's pixels into `data` with a pack alignment of 1 (`pixels`
     * is what glReadPixels delivers, bottom row first), restores the
     * alignment to 4, and flips the rows so that the top row comes first.
     * Bytes of `data` past the rows read are not touched.
     */
    method CopyContentsToMemory(util: PixelUtil, box: Box, format: PixelFormat, data: array<bv8>,
                                buffer: FrameBuffer, pixels: seq<bv8>) returns (r: Outcome, resolved: FrameBuffer)
      requires CopyOutcome(util, width, height, box, format) == Pass ==>
        |pixels| == Mul(Height(box), RowSpan(util, box, format)) && |pixels| <= data.Length
      modifies data, this`calls
      ensures r == CopyOutcome(util, width, height, box, format)
      ensures r.Fail? ==> data[..] == old(data[..]) && calls == old(calls)
      ensures r.Pass? ==> resolved == ResolveFrameBuffer(buffer, isFullScreen)
      ensures r.Pass? ==>
        calls == old(calls) +
          [SetViewport, PackAlignment(1),
           ReadPixels(box.left, box.top, Width(box), Height(box), util.glOriginFormat(format), util.glOriginDataType(format)),
           PackAlignment(4)]
      ensures r.Pass? ==> data[..|pixels|] == FlippedRows(pixels, RowSpan(util, box, format), Height(box))
      ensures r.Pass? ==> data[|pixels|..] == old(data[|pixels|..])
    {
      resolved := buffer;
      if box.left < 0 || box.right > width || box.top < 0 || box.bottom > height || box.front != 0 || box.back != 1 {
        return Fail(InvalidParams), resolved;
      }
      if buffer == FbAuto {
        resolved := if isFullScreen then FbFront else FbBack;
      }
      var glFormat := util.glOriginFormat(format);
      var glType := util.glOriginDataType(format);
      if glFormat == 0 || glType == 0 {
        return Fail(InvalidParams), resolved;
      }
      ReadBack(util, box, format, data, pixels);
      r := Pass;
    }

    /**
     * The read-back of copyContentsToMemory once the checks have passed:
     * glReadPixels between the pack alignments 1 and 4, then the flip.
     */
    method ReadBack(util: PixelUtil, box: Box, format: PixelFormat, data: array<bv8>, pixels: seq<bv8>)
      requires |pixels| == Mul(Height(box), RowSpan(util, box, format)) && |pixels| <= data.Length
      modifies data, this`calls
      ensures calls == old(calls) +
        [SetViewport, PackAlignment(1),
         ReadPixels(box.left, box.top, Width(box), Height(box), util.glOriginFormat(format), util.glOriginDataType(format)),
         PackAlignment(4)]
      ensures data[..|pixels|] == FlippedRows(pixels, RowSpan(util, box, format), Height(box))
      ensures data[|pixels|..] == old(data[|pixels|..])
    {
      StoreFlipped(data, pixels, RowSpan(util, box, format), Height(box));
      calls := calls + [SetViewport, PackAlignment(1)];
      calls := calls + [ReadPixels(box.left, box.top, Width(box), Height(box),
                                   util.glOriginFormat(format), util.glOriginDataType(format))];
      calls := calls + [PackAlignment(4)];
    }
  }

  /**
   * The pixels read land at the start of `data`, and the rows are then
   * flipped there; the bytes after them are kept.
   */
  method StoreFlipped(data: array<bv8>, pixels: seq<bv8>, rowSpan: nat, h: nat)
    requires |pixels| == Mul(h, rowSpan) && |pixels| <= data.Length
    modifies data
    ensures data[..|pixels|] == FlippedRows(pixels, rowSpan, h)
    ensures data[|pixels|..] == old(data[|pixels|..])
  {
    CopyBytes(data, 0, pixels, 0, |pixels|);
    assert data[..|pixels|] == pixels;
    ghost var read := data[..];
    FlipRowsInPlace(data, rowSpan, h);
    assert data[|pixels|..] == read[|pixels|..];
  }
}
