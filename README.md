# OGRE GLES2 pixel buffers, BlackBerry EGL window and QNX sample-browser input, in Dafny

This project models three pieces of OGRE's OpenGL ES 2 / BlackBerry / QNX port. Each contract states what the code promises.

- **GLES2 pixel buffers** (`gles2_mip.dfy`, `gles2_pixel_buffer.dfy`). These model `GLES2HardwarePixelBuffer` and `GLES2TextureBuffer`:
  - the exact base-2 logarithm `computeLog`;
  - the size of a texture at a mip level;
  - the shadow buffer that `allocateBuffer`, `freeBuffer`, `lockImpl` and `unlockImpl` manage;
  - the checks and GL calls of `upload`;
  - the software mip chain of `buildMipmaps`;
  - the path each memory blit takes: scaled, converted, direct, or through a temporary texture.

  GL calls and the engine's image helpers are not executed. Each one is appended to an `EffectLog`, so the contracts state which calls are made, in which order and with which arguments. The helpers `GLES2PixelUtil::*` and `PixelUtil::*` are uninterpreted functions gathered in `PixelTypes.PixelUtil`.
- **The BlackBerry EGL window** (`blackberry_window.dfy`, `row_flip.dfy`). `BlackBerryEGLWindow` is a class with these parts:
  - the closed, active and visible flags;
  - the native window handle and the context;
  - a log of the libscreen, EGL and GL calls it makes;
  - `copyContentsToMemory` with its checks and the vertical flip of the rows read back.

  The flip is an array algorithm. It is proved to put row `h - 1 - i` of the pixels read at row `i` and to be a permutation of the bytes.
- **The QNX sample-browser front end** (`qnx_sample_browser.dfy`). This covers:
  - the growable list of OIS multi-touch states;
  - the rescaling of touch positions on a rotated screen;
  - the update of absolute and relative positions per touch event, and the browser callback for each event;
  - the navigator's orientation and exit handling.

  The `WIDTH` and `HEIGHT` environment variables and the event fields are parameters.

## Model

All source paths are relative to the repository root.

| member | source | states |
|---|---|---|
| GLES2Mip.LogOf | src/RenderSystems/GLES2/src/OgreGLES2HardwarePixelBuffer.cpp:40-60 | the value computeLog returns is at least -1, and when it is not -1, 2 to that power is the input |
| GLES2Mip.ComputeLog | src/RenderSystems/GLES2/src/OgreGLES2HardwarePixelBuffer.cpp:40-60 | the shifting loop returns exactly LogOf(value) |
| GLES2Mip.LogOfPow2 | src/RenderSystems/GLES2/src/OgreGLES2HardwarePixelBuffer.cpp:40-60 | computeLog(2^k) is k |
| GLES2Mip.LogOfIsExact | src/RenderSystems/GLES2/src/OgreGLES2HardwarePixelBuffer.cpp:40-60 | computeLog(v) == k if and only if v == 2^k |
| GLES2Mip.LogOfMinusOne | src/RenderSystems/GLES2/src/OgreGLES2HardwarePixelBuffer.cpp:40-60 | computeLog(v) == -1 if and only if v is 0 or no power of two |
| GLES2Mip.LevelExtent | src/RenderSystems/GLES2/src/OgreGLES2HardwarePixelBuffer.cpp:256-262 | a level's width or height is never below 1, and at level 0 it is the base size raised to 1 |
| GLES2Mip.LevelExtentBounds | src/RenderSystems/GLES2/src/OgreGLES2HardwarePixelBuffer.cpp:256-262 | the size at a level is the base divided by 2^level, rounded down (r * 2^level <= base < (r + 1) * 2^level), or 1 when the base is smaller than 2^level |
| GLES2Mip.HalveNClosedForm | src/RenderSystems/GLES2/src/OgreGLES2HardwarePixelBuffer.cpp:874-882 | after k halvings that stop at 1, a positive dimension x is max(x / 2^k, 1), and 0 stays 0 |
| GLES2Mip.MipCountZero | src/RenderSystems/GLES2/src/OgreGLES2HardwarePixelBuffer.cpp:845-852 | buildMipmaps emits no level if and only if neither dimension is a power of two |
| GLES2Mip.MipCountPowers | src/RenderSystems/GLES2/src/OgreGLES2HardwarePixelBuffer.cpp:845-852 | a 2^a x 2^b image gets max(a, b) + 1 levels |
| GLES2PixelBuffer.MipLevelsLength | src/RenderSystems/GLES2/src/OgreGLES2HardwarePixelBuffer.cpp:852-889 | each level of the chain makes exactly two calls |
| GLES2PixelBuffer.MipLevelsAt | src/RenderSystems/GLES2/src/OgreGLES2HardwarePixelBuffer.cpp:852-889 | the k-th image sent is level mip + k, at both dimensions halved k times, in the source's GL format and type |
| GLES2PixelBuffer.MipLevelsOnlyImages | src/RenderSystems/GLES2/src/OgreGLES2HardwarePixelBuffer.cpp:852-889 | the mip chain only sends images and scales them |
| GLES2PixelBuffer.MipmapLevelSizes | src/RenderSystems/GLES2/src/OgreGLES2HardwarePixelBuffer.cpp:845-889 | buildMipmaps sends MipCount(w, h) levels, level k at max(w / 2^k, 1) x max(h / 2^k, 1), a dimension of 0 staying 0 |
| GLES2PixelBuffer.UploadAccepts | src/RenderSystems/GLES2/src/OgreGLES2HardwarePixelBuffer.cpp:327-398 | upload accepts exactly the consecutive boxes, and a compressed one only in the buffer's own format; every rejection is ERR_INVALIDPARAMS |
| GLES2PixelBuffer.UploadAlignment | src/RenderSystems/GLES2/src/OgreGLES2HardwarePixelBuffer.cpp:399-425 | on the ordinary path the unpack alignment drops to 1 if and only if the upload is accepted and a row is not a multiple of 4 bytes, and an accepted upload ends by restoring 4 |
| GLES2PixelBuffer.UploadGeneratesMipmap | src/RenderSystems/GLES2/src/OgreGLES2HardwarePixelBuffer.cpp:416-425 | glGenerateMipmap is called if and only if the upload is accepted, TU_AUTOMIPMAP is set, mipmaps are not software and the level is 0 |
| GLES2PixelBuffer.TextureBuffer.constructor | src/RenderSystems/GLES2/src/OgreGLES2HardwarePixelBuffer.cpp:240-307 | binds the texture; gives the face target of a cube map; sets width and height by LevelExtent, depth 1, row pitch = width and slice pitch = width * height; so no extent is 0 and the slice render targets of a render texture are created |
| GLES2PixelBuffer.TextureBuffer.CreateSliceTargets | src/RenderSystems/GLES2/src/OgreGLES2HardwarePixelBuffer.cpp:293-306 | one render texture per slice, created and attached in slice order |
| GLES2PixelBuffer.TextureBuffer.AllocateBuffer | src/RenderSystems/GLES2/src/OgreGLES2HardwarePixelBuffer.cpp:78-86 | afterwards a shadow buffer exists; an existing one is kept, and a new one has mSizeInBytes bytes |
| GLES2PixelBuffer.TextureBuffer.FreeBuffer | src/RenderSystems/GLES2/src/OgreGLES2HardwarePixelBuffer.cpp:88-96 | the shadow buffer is dropped if and only if the usage has HBU_STATIC, and is otherwise unchanged |
| GLES2PixelBuffer.TextureBuffer.LockImpl | src/RenderSystems/GLES2/src/OgreGLES2HardwarePixelBuffer.cpp:98-111 | allocates; downloads (which raises ERR_NOT_IMPLEMENTED) unless the lock discards or the buffer is write-only; otherwise records the options and box and returns the sub-volume |
| GLES2PixelBuffer.TextureBuffer.UnlockImpl | src/RenderSystems/GLES2/src/OgreGLES2HardwarePixelBuffer.cpp:113-121 | uploads the locked box with upload's outcome and calls if and only if the lock was not read-only, then frees the buffer unless the upload raised |
| GLES2PixelBuffer.TextureBuffer.Lock | src/RenderSystems/GLES2/src/OgreGLES2HardwarePixelBuffer.cpp:98-121 | a lock whose lockImpl does not raise makes the returned sub-volume the current lock that unlockImpl uploads at the locked box; a lock that raises changes neither options, box nor current lock |
| GLES2PixelBuffer.TextureBuffer.LockedBoxUploadAccepted | src/RenderSystems/GLES2/src/OgreGLES2HardwarePixelBuffer.cpp:98-121 | unlocking a lock that is not read-only uploads the sub-volume of the locked box, which upload accepts if and only if the box spans the whole width and height of the buffer; otherwise it raises ERR_INVALIDPARAMS |
| GLES2PixelBuffer.TextureBuffer.StagedSourceHasDestExtents | src/RenderSystems/GLES2/src/OgreGLES2HardwarePixelBuffer.cpp:132-168 | whichever path blitFromMemory takes, what it uploads has the destination's extents |
| GLES2PixelBuffer.TextureBuffer.NarrowStagedBlitRejected | src/RenderSystems/GLES2/src/OgreGLES2HardwarePixelBuffer.cpp:132-152 | a scaled or converted blit into a box narrower than the texture is always rejected by upload, because the sub-volume keeps the buffer's row pitch |
| GLES2PixelBuffer.TextureBuffer.BlitFromTexture | src/RenderSystems/GLES2/src/OgreGLES2HardwarePixelBuffer.cpp:508-510 | a texture-to-texture blit returns at once: it changes neither buffer and makes no GL call |
| GLES2PixelBuffer.TextureBuffer.PixelBufferBlitFromMemory | src/RenderSystems/GLES2/src/OgreGLES2HardwarePixelBuffer.cpp:123-173 | ERR_INVALIDPARAMS for a destination outside the buffer; otherwise it scales when the extents differ, converts when GL has no origin format, or goes direct with PF_R8G8B8 relabelled PF_B8G8R8; then it uploads and frees, with the resulting outcome, calls and shadow-buffer state |
| GLES2PixelBuffer.TextureBuffer.StageSource | src/RenderSystems/GLES2/src/OgreGLES2HardwarePixelBuffer.cpp:132-168 | the staging step allocates the shadow buffer and makes the scale or conversion call of its path |
| GLES2PixelBuffer.TextureBuffer.DownloadPlanScaling | src/RenderSystems/GLES2/src/OgreGLES2HardwarePixelBuffer.cpp:184-215 | the direct download is only taken for the whole texture into equal extents; the shadow path scales if and only if the extents differ; a partial box into a full-size destination is always scaled |
| GLES2PixelBuffer.TextureBuffer.BlitToMemory | src/RenderSystems/GLES2/src/OgreGLES2HardwarePixelBuffer.cpp:175-216 | ERR_INVALIDPARAMS for a source box outside the buffer, otherwise the download's ERR_NOT_IMPLEMENTED; the shadow buffer is allocated only on the shadow path |
| GLES2PixelBuffer.TextureBuffer.Download | src/RenderSystems/GLES2/src/OgreGLES2HardwarePixelBuffer.cpp:429-466 | always raises ERR_NOT_IMPLEMENTED |
| GLES2PixelBuffer.TextureBuffer.Upload | src/RenderSystems/GLES2/src/OgreGLES2HardwarePixelBuffer.cpp:322-426 | the outcome is UploadOutcome and the calls are UploadTrace: bind, then on acceptance the transfer, hardware mipmaps and alignment 4 |
| GLES2PixelBuffer.TextureBuffer.UploadPixels | src/RenderSystems/GLES2/src/OgreGLES2HardwarePixelBuffer.cpp:334-415 | a compressed image or sub-image at the destination, the software mip chain at alignment 1, or a sub-image with alignment 1 for rows that are not a multiple of 4 bytes |
| GLES2PixelBuffer.TextureBuffer.FinishUpload | src/RenderSystems/GLES2/src/OgreGLES2HardwarePixelBuffer.cpp:416-425 | glGenerateMipmap under the automatic-mipmap condition, then alignment 4 |
| GLES2PixelBuffer.TextureBuffer.BuildMipmaps | src/RenderSystems/GLES2/src/OgreGLES2HardwarePixelBuffer.cpp:829-897 | the loop makes exactly the calls of MipmapTrace: max(computeLog(w), computeLog(h)) + 1 levels |
| GLES2PixelBuffer.TextureBuffer.EmitMipLevel | src/RenderSystems/GLES2/src/OgreGLES2HardwarePixelBuffer.cpp:854-888 | one pass sends the current level and scales the source to the halved size |
| GLES2PixelBuffer.TextureBuffer.GetRenderTarget | src/RenderSystems/GLES2/src/OgreGLES2HardwarePixelBuffer.cpp:822-827 | the render target of slice zoffset is the one created for that slice |
| GLES2PixelBuffer.TextureBuffer.BlitFromMemory | src/RenderSystems/GLES2/src/OgreGLES2HardwarePixelBuffer.cpp:743-820 | luminance formats and equal extents fall back to the pixel-buffer blit with its outcome and calls; otherwise ERR_INVALIDPARAMS outside the buffer, else the temporary-texture path with its outcome and calls |
| GLES2PixelBuffer.TextureBuffer.HardwareScaledBlit | src/RenderSystems/GLES2/src/OgreGLES2HardwarePixelBuffer.cpp:758-819 | converts a source GL cannot take, creates the temporary texture, uploads into it, and deletes it only if the upload did not raise |
| GLES2PixelBuffer.TextureBuffer.ConvertSource | src/RenderSystems/GLES2/src/OgreGLES2HardwarePixelBuffer.cpp:766-780 | a source without a GL origin format is converted into a packed box of the buffer's format |
| GLES2PixelBuffer.TextureBuffer.UploadToTemp | src/RenderSystems/GLES2/src/OgreGLES2HardwarePixelBuffer.cpp:782-812 | the temporary texture's creation calls, then upload's outcome and calls for that texture's parameters |
| GLES2PixelBuffer.TextureBuffer.CreateTempTexture | src/RenderSystems/GLES2/src/OgreGLES2HardwarePixelBuffer.cpp:782-808 | glGenTextures, bind, storage at the optionally power-of-two size, then a texture buffer with TU_AUTOMIPMAP and HBU_STATIC_WRITE_ONLY over it |
| BlackBerryWindow.WindowName | src/RenderSystems/GLES2/src/BlackBerry/OgreBlackBerryEGLWindow.cpp:177-208 | the "title" parameter overrides the name argument when given |
| BlackBerryWindow.ResolveFrameBuffer | src/RenderSystems/GLES2/src/BlackBerry/OgreBlackBerryEGLWindow.cpp:291-293 | FB_AUTO becomes FB_FRONT if and only if the window is full screen (FB_BACK otherwise); explicit buffers are kept |
| BlackBerryWindow.CopyAccepts | src/RenderSystems/GLES2/src/BlackBerry/OgreBlackBerryEGLWindow.cpp:285-301 | copyContentsToMemory accepts exactly the single-slice boxes inside the window in a format with a GL origin format and type; every rejection is ERR_INVALIDPARAMS |
| BlackBerryWindow.EGLWindow.constructor | src/RenderSystems/GLES2/src/BlackBerry/OgreBlackBerryEGLWindow.cpp:44-47 | a new window is not closed, not visible, and has no context |
| BlackBerryWindow.EGLWindow.SwitchFullScreen | src/RenderSystems/GLES2/include/BlackBerry/OgreBlackBerryEGLWindow.h:51 | switching to or from full screen changes nothing |
| BlackBerryWindow.EGLWindow.IsClosed | src/RenderSystems/GLES2/include/BlackBerry/OgreBlackBerryEGLWindow.h:72 | answers whether the window has been closed |
| BlackBerryWindow.EGLWindow.IsVisible | src/RenderSystems/GLES2/include/BlackBerry/OgreBlackBerryEGLWindow.h:73 | answers whether the window is visible |
| BlackBerryWindow.EGLWindow.SetClosed | src/RenderSystems/GLES2/include/BlackBerry/OgreBlackBerryEGLWindow.h:72-76 | isClosed then answers the value set, and no other field changes |
| BlackBerryWindow.EGLWindow.SetVisible | src/RenderSystems/GLES2/include/BlackBerry/OgreBlackBerryEGLWindow.h:73-75 | isVisible then answers the value set, and no other field changes |
| BlackBerryWindow.EGLWindow.RequiresTextureFlipping | src/RenderSystems/GLES2/include/BlackBerry/OgreBlackBerryEGLWindow.h:91 | always false |
| BlackBerryWindow.EGLWindow.Destroy | src/RenderSystems/GLES2/src/BlackBerry/OgreBlackBerryEGLWindow.cpp:66-79 | the window ends closed; a closed window keeps its active flag; an open one becomes inactive; nothing else changes |
| BlackBerryWindow.EGLWindow.DestroyBlackberryWindow | src/RenderSystems/GLES2/src/BlackBerry/OgreBlackBerryEGLWindow.cpp:161-166 | the handle ends null, and screen_destroy_window is called if and only if there was one |
| BlackBerryWindow.EGLWindow.CreateBlackberryWindow | src/RenderSystems/GLES2/src/BlackBerry/OgreBlackBerryEGLWindow.cpp:112-159 | on success the new handle is taken and the window is set up (format, usage, source and buffer sizes, two buffers); on failure only screen_create_window is called and the handle is kept |
| BlackBerryWindow.EGLWindow.Create | src/RenderSystems/GLES2/src/BlackBerry/OgreBlackBerryEGLWindow.cpp:168-240 | the name (or title), size and FSAA are taken; the context is backed at width x height; the native window and GL surface are created; the window ends at (0, 0), active, visible and not closed, whatever "left" and "top" said |
| BlackBerryWindow.EGLWindow.OpenWindow | src/RenderSystems/GLES2/src/BlackBerry/OgreBlackBerryEGLWindow.cpp:212-239 | the part of create from the new context on: the same end state and calls as Create |
| BlackBerryWindow.EGLWindow.ApplyParams | src/RenderSystems/GLES2/src/BlackBerry/OgreBlackBerryEGLWindow.cpp:177-210 | the name is the title or the argument; FSAA is parsed when given and kept otherwise |
| BlackBerryWindow.EGLWindow.SwapBuffers | src/RenderSystems/GLES2/src/BlackBerry/OgreBlackBerryEGLWindow.cpp:242-251 | a closed window makes no call; an open one calls eglSwapBuffers once |
| BlackBerryWindow.EGLWindow.GetCustomAttribute | src/RenderSystems/GLES2/src/BlackBerry/OgreBlackBerryEGLWindow.cpp:59-64 | "GLCONTEXT" yields the context, and any other name leaves pData as it was |
| BlackBerryWindow.EGLWindow.CopyContentsToMemory | src/RenderSystems/GLES2/src/BlackBerry/OgreBlackBerryEGLWindow.cpp:282-335 | the outcome is CopyOutcome; on failure nothing changes; on success FB_AUTO is resolved, glReadPixels runs between pack alignments 1 and 4, the rows land in the destination flipped, and bytes after them are kept |
| BlackBerryWindow.EGLWindow.ReadBack | src/RenderSystems/GLES2/src/BlackBerry/OgreBlackBerryEGLWindow.cpp:303-334 | the calls of the read-back, and the destination holds FlippedRows of the pixels read |
| BlackBerryWindow.StoreFlipped | src/RenderSystems/GLES2/src/BlackBerry/OgreBlackBerryEGLWindow.cpp:312-334 | the pixels read are flipped in place at the start of the destination; the rest is kept |
| RowFlip.FlippedRowsReversesRows | src/RenderSystems/GLES2/src/BlackBerry/OgreBlackBerryEGLWindow.cpp:318-334 | the flip is the list of rows reversed and laid end to end |
| RowFlip.FlippedRowIsMirrored | src/RenderSystems/GLES2/src/BlackBerry/OgreBlackBerryEGLWindow.cpp:318-334 | row i of the flipped buffer is row h - 1 - i of the pixels read |
| RowFlip.FlipIsPermutation | src/RenderSystems/GLES2/src/BlackBerry/OgreBlackBerryEGLWindow.cpp:318-334 | the flip keeps the size rowSpan * h and is a permutation of the bytes: none is lost or duplicated |
| RowFlip.FlipRowsInPlace | src/RenderSystems/GLES2/src/BlackBerry/OgreBlackBerryEGLWindow.cpp:318-334 | after the copy into the temporary buffer and back, the first h rows of the array are FlippedRows of their old contents, and the bytes after them are unchanged |
| RowFlip.ReverseRows | src/RenderSystems/GLES2/src/BlackBerry/OgreBlackBerryEGLWindow.cpp:321-331 | the copy loop fills a temporary buffer of rowSpan * h bytes with the flipped rows |
| RowFlip.CopyBytes | src/RenderSystems/GLES2/src/BlackBerry/OgreBlackBerryEGLWindow.cpp:328-332 | memcpy: the n bytes are replaced by the source's, and everything else is kept |
| RowFlip.StepNPosition | src/RenderSystems/GLES2/src/BlackBerry/OgreBlackBerryEGLWindow.cpp:323-331 | after k passes the source cursor is at row k and the temporary cursor k rows below the last row |
| RowFlip.PointerLoopRunsHPasses | src/RenderSystems/GLES2/src/BlackBerry/OgreBlackBerryEGLWindow.cpp:323-331 | for a positive row span the pointer loop continues exactly for the first h passes, the k-th copying row k to row h - 1 - k |
| RowFlip.PointerLoopNeverExitsOnZeroSpan | src/RenderSystems/GLES2/src/BlackBerry/OgreBlackBerryEGLWindow.cpp:318-331 | for a row span of 0 the loop condition holds after every number of passes |
| QnxSampleBrowser.TransformedTouchesOnlyAbs | src/Samples/Browser/include/SampleBrowser_QNX.h:104-128 | at 90 and 270 degrees X.abs becomes X.abs * w / h and Y.abs becomes Y.abs * h / w, with C division; at any other angle the state is unchanged; rel, Z, type and area are never touched |
| QnxSampleBrowser.TransformedSquareIsIdentity | src/Samples/Browser/include/SampleBrowser_QNX.h:104-128 | on a square screen the rescaling changes nothing |
| QnxSampleBrowser.TouchTypeOf | src/Samples/Browser/include/SampleBrowser_QNX.h:142-155 | TOUCH, MOVE and RELEASE map to Pressed, Moved and Released (each if and only if), anything else to None, never Cancelled |
| QnxSampleBrowser.ScreenEventUpdates | src/Samples/Browser/include/SampleBrowser_QNX.h:142-173 | the type is recorded; for None nothing else changes; otherwise rel = raw position - previous abs, Z is reset, and abs is the raw position rescaled |
| QnxSampleBrowser.ScreenEventCallback | src/Samples/Browser/include/SampleBrowser_QNX.h:156-190 | exactly the callback of the event's touch type fires, with the updated state, and none for other events |
| QnxSampleBrowser.QnxMultiTouch.constructor | src/Samples/Browser/include/SampleBrowser_QNX.h:54-67 | exactly two states: index 0 sized (W, H) and index 1 sized (H, W) |
| QnxSampleBrowser.QnxMultiTouch.GetMultiTouchState | src/Samples/Browser/include/SampleBrowser_QNX.h:86-101 | afterwards the list is longer than i; existing states are unchanged; appended states are sized by orientation only when the browser is set; state i is returned |
| QnxSampleBrowser.QnxApp.constructor | src/Samples/Browser/include/SampleBrowser_QNX.h:46-49 | the globals start at exit 0, portrait, angle 0, with the two initial touch states: the default state sized to the screen, then sized to the screen turned a quarter |
| QnxSampleBrowser.QnxApp.TransformInputState | src/Samples/Browser/include/SampleBrowser_QNX.h:104-128 | only state i changes, to its rescaled value |
| QnxSampleBrowser.QnxApp.HandleScreenEvent | src/Samples/Browser/include/SampleBrowser_QNX.h:133-191 | the state of slot 0 (portrait) or 1 (otherwise) becomes ScreenEventState of its previous value; other states are kept or appended; the matching callback is logged |
| QnxSampleBrowser.QnxApp.UpdateTouch | src/Samples/Browser/include/SampleBrowser_QNX.h:142-173 | the state update of handleScreenEvent, on slot i only |
| QnxSampleBrowser.QnxApp.FireCallback | src/Samples/Browser/include/SampleBrowser_QNX.h:176-189 | the switch calls the browser handler of the state's touch type, and none for None |
| QnxSampleBrowser.QnxApp.HandleNavigatorEvent | src/Samples/Browser/include/SampleBrowser_QNX.h:193-235 | ORIENTATION_CHECK is accepted; ORIENTATION stores angle and mode and resizes to (W, H) in portrait or (H, W) in landscape; EXIT sets the exit flag; SWIPE_DOWN does nothing; these return true; any other code returns false and changes nothing |

## Left out

- Native calls. GL, EGL, libscreen, bps and navigator calls are not executed. They are recorded as entries of a call log. What they return is a parameter: the handle and status of `screen_create_window`, the context `createNewContext` makes, the pixels `glReadPixels` delivers, and the name `glGenTextures` gives.
- Engine helpers. `Image::scale`, `PixelUtil::bulkPixelConversion`, `getMemorySize`, `isCompressed`, `isLuminance`, `getNumElemBytes` and the `GLES2PixelUtil` functions are uninterpreted functions, or recorded calls for those with effects. The pixel data they move is not modelled. `GLES2RTTManager` and `Root` are represented only by the calls that create and attach render textures.
- The body of `GLES2TextureBuffer::blitFromTexture` after its first `return`. It is dead code, and the call is modelled as doing nothing.
- The `pow(2.0f, level)` float in the texture-buffer constructor. It is modelled as an exact integer power of two.
- The NaCl-only relabelling in `blitFromMemory` and the `GL_NV_get_tex_image` branch of `download`. Neither is part of this build, so `download` always raises ERR_NOT_IMPLEMENTED.
- `PixelBox::getSubVolume` is not part of this model. It is taken as a box of the requested extents with the shadow buffer's format and pitches. Its check on compressed formats is not modelled.
- GLES2PixelBuffer.TextureBuffer.constructor: the `GLint` width and height are taken as non-negative.
- `mSliceTRT` is recorded as the slice numbers of the render textures. The render textures themselves and their names are not modelled.
- Destructors are not modelled. They free memory and destroy render targets.
- BlackBerryWindow.CopyOutcome: the `left < 0` and `top < 0` tests are kept. They can never fail, because box coordinates are unsigned.
- BlackBerryWindow.EGLWindow.SwapBuffers: requires a context when the window is open. The source dereferences it there.
- BlackBerryWindow.EGLWindow.CopyContentsToMemory: requires the pixels read to fill h rows of rowSpan bytes within the destination. It models the corrected row-counting flip loop (see Findings), not the pointer loop, which also misbehaves for a box of height 0.
- RowFlip.StartCursor: the pointer loop is modelled only for h >= 1. With h = 0 the source computes a pointer before the start of the buffer.
- `setFullscreen`, `_beginUpdate`, `reposition`, `resize`, `windowMovedOrResized` and `getLeftAndTopFromNativeWindow` are not modelled. They are empty, only log, or only talk to libscreen. `initNativeCreatedWindow` is modelled only as its call to `createBlackberryWindow`.
- `BlackBerryEGLSupport`, `QnxEGLContext`, `SampleBrowser.cpp`, the SSAO sample and the log listeners are not part of this model. They are EGL configuration, entry points, GUI code and empty bodies.
- `startQnxApp` is not part of this model. It is the event and render loop, and is I/O only; only the creation of the multi-touch object is kept, in the app's constructor.
- QnxSampleBrowser.QnxApp: only whether `theBrowser` is set is modelled.
- Orientation modes other than portrait and landscape are one `OtherMode` value.
- QnxSampleBrowser.QnxMultiTouch.GetMultiTouchState: a negative index is not modelled. The index is a `nat`, and the source's signed-to-unsigned comparison is not.
- QnxSampleBrowser.Transformed: the 32-bit overflow of `abs * w` is not modelled. The product is an unbounded integer.
- `WIDTH` and `HEIGHT` are modelled as positive integers. `atoi` of a missing or non-numeric variable is not modelled, and a 0 there would divide by zero.
- The OIS `MultiTouchState` default (a 50 x 50 area, no touch, axes at 0) is assumed from OIS; OIS itself is not part of this model.
- BlackBerryWindow.EGLWindow.constructor: the native window handle starts null, whereas the source leaves mWindow uninitialised; destroying a window that was never created, and create after a failed screen_create_window, are therefore modelled with a null handle rather than an indeterminate one.
- The LogManager messages of the BlackBerry window (create, its attribute dump and windowMovedOrResized, OgreBlackBerryEGLWindow.cpp:170, 231, 263-284) are logging only and are left out.
- The int locals of buildMipmaps (OgreGLES2HardwarePixelBuffer.cpp:831-846) receive size_t widths and heights; the model keeps them as unbounded naturals, so a dimension above 2^31 - 1 is not truncated.
- GLES2PixelBuffer.TextureBuffer.LockImpl: PixelBox::getSubVolume raises ERR_INVALIDPARAMS for a box outside the buffer; the model accepts any box, because getSubVolume is not part of this model.
- HardwarePixelBuffer::lock and unlock beyond the current-lock bookkeeping of GLES2PixelBuffer.TextureBuffer.Lock (its locked flag and its assertions) are not part of this model.

## Findings

| source | as written | input that shows it | evidently intended | confidence | as-written member | corrected member |
|---|---|---|---|---|---|---|
| src/RenderSystems/GLES2/src/BlackBerry/OgreBlackBerryEGLWindow.cpp:318-334 | the flip loop steps both cursors by rowSpan and runs while the temporary cursor is at or above the buffer's start | a destination box of width 0 in a supported format (rowSpan = 0, height >= 1): the cursor never moves and the loop never exits | copy each of the h rows once, as a loop over the row count does | not executed | RowFlip.PointerLoopNeverExitsOnZeroSpan | RowFlip.FlipRowsInPlace |
