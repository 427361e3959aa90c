/**
 * SampleBrowser_QNX.h: the QNX front end of the sample browser. Screen
 * touch events become OIS multi-touch states (rescaled when the device is
 * rotated) and browser callbacks; navigator events change the orientation,
 * resize the window, or ask the application to exit.
 *
 * The WIDTH and HEIGHT environment variables and the fields of the bps,
 * screen and navigator events are parameters; calls into the browser and
 * the navigator are appended to the `browserCalls` log.
 */
module QnxSampleBrowser {

  import GLES2Mip

  /** A screen dimension read from the environment; the rescaling divides by it. */
  type Dimension = n: int | n >= 1 witness 1

  /** The values of the WIDTH and HEIGHT environment variables. */
  datatype Env = Env(width: Dimension, height: Dimension)

  /** OIS::MultiTouchTypeID. */
  datatype TouchType = MtNone | MtPressed | MtReleased | MtMoved | MtCancelled

  /** OIS::Axis: an absolute and a relative position. */
  datatype Axis = Axis(abs: int, rel: int)

  /** OIS::MultiTouchState: the area the touch is reported in, its type and its three axes. */
  datatype MultiTouchState = MultiTouchState(width: int, height: int, touchType: TouchType, x: Axis, y: Axis, z: Axis)

  /** A default-constructed OIS::MultiTouchState: a 50 x 50 area, no touch, all axes at 0. */
  const DefaultState: MultiTouchState := MultiTouchState(50, 50, MtNone, Axis(0, 0), Axis(0, 0), Axis(0, 0))

  /** The navigator's orientation modes; `OtherMode` is any value besides the two the source tests. */
  datatype OrientationMode = Portrait | Landscape | OtherMode(code: int)

  /** The SCREEN_PROPERTY_TYPE of a screen event. */
  datatype ScreenEventType = MtouchTouch | MtouchMove | MtouchRelease | OtherScreenEvent(code: int)

  /** The code of a navigator event, with the fields handleNavigatorEvent reads from it. */
  datatype NavigatorEvent =
    | OrientationCheck
    | Orientation(angle: int, mode: OrientationMode)
    | SwipeDown
    | Exit
    | OtherNavigatorEvent(code: int)

  /** A call into the sample browser, its window or the navigator. */
  datatype BrowserCall =
    | TouchPressed(state: MultiTouchState)
    | TouchReleased(state: MultiTouchState)
    | TouchMoved(state: MultiTouchState)
    | TouchCancelled(state: MultiTouchState)
    | ResizeWindow(width: int, height: int)
    | WindowResized
    | OrientationCheckResponse(accept: bool)
    | DoneOrientation

  /** C's `/` on int: the quotient truncated toward zero. */
  function CDiv(a: int, b: int): int
    requires b > 0
  {
    if a >= 0 then a / b else -((-a) / b)
  }

  /** Multiplying by b and dividing the C way by b gives the value back. */
  lemma CDivMulCancel(a: int, b: int)
    requires b > 0
    ensures CDiv(a * b, b) == a
  {
    if a >= 0 {
      GLES2Mip.DivUnique(a * b, b, a, 0);
    } else {
      assert -(a * b) == (-a) * b;
      GLES2Mip.DivUnique((-a) * b, b, -a, 0);
    }
  }

  /**
   * transformInputState, as a function of the state: at an angle of 90 or
   * 270 degrees the absolute X is rescaled by width / height and the absolute
   * Y by height / width (multiplied first, then divided the C way); at any
   * other angle the state is kept.
   */
  function Transformed(s: MultiTouchState, angle: int, env: Env): MultiTouchState
  {
    if angle == 90 || angle == 270 then
      s.(x := s.x.(abs := CDiv(s.x.abs * env.width, env.height)),
         y := s.y.(abs := CDiv(s.y.abs * env.height, env.width)))
    else s
  }

  /**
   * The transform changes at most the two absolute positions: relative
   * positions, Z, the type and the area are kept, and only the rotated
   * angles change anything.
   */
  lemma TransformedTouchesOnlyAbs(s: MultiTouchState, angle: int, env: Env)
    ensures var t := Transformed(s, angle, env);
      t.x.rel == s.x.rel && t.y.rel == s.y.rel && t.z == s.z &&
      t.touchType == s.touchType && t.width == s.width && t.height == s.height
    ensures angle != 90 && angle != 270 ==> Transformed(s, angle, env) == s
    ensures angle == 90 || angle == 270 ==>
      Transformed(s, angle, env).x.abs == CDiv(s.x.abs * env.width, env.height) &&
      Transformed(s, angle, env).y.abs == CDiv(s.y.abs * env.height, env.width)
  {
  }

  /** On a square screen the rescaling changes nothing, whatever the angle. */
  lemma TransformedSquareIsIdentity(s: MultiTouchState, angle: int, env: Env)
    requires env.width == env.height
    ensures Transformed(s, angle, env) == s
  {
    CDivMulCancel(s.x.abs, env.width);
    CDivMulCancel(s.y.abs, env.width);
  }

  /** The touch type of a screen event: touch, move and release map to their own type, anything else to none. */
  function TouchTypeOf(e: ScreenEventType): (t: TouchType)
    ensures t != MtCancelled
    ensures t == MtNone <==> e.OtherScreenEvent?
    ensures e == MtouchTouch <==> t == MtPressed
    ensures e == MtouchMove <==> t == MtMoved
    ensures e == MtouchRelease <==> t == MtReleased
  {
    match e
    case MtouchTouch => MtPressed
    case MtouchMove => MtMoved
    case MtouchRelease => MtReleased
    case OtherScreenEvent(_) => MtNone
  }

  /**
   * The state after a touch at raw position (px, py): each absolute position
   * is the raw one and each relative position its distance from the previous
   * absolute one; Z is reset.
   */
  function Touched(s: MultiTouchState, px: int, py: int): MultiTouchState
  {
    s.(x := Axis(px, px - s.x.abs), y := Axis(py, py - s.y.abs), z := Axis(0, 0))
  }

  /** The state handleScreenEvent leaves behind for an event of type `e` at (px, py). */
  function ScreenEventState(s: MultiTouchState, e: ScreenEventType, px: int, py: int, angle: int, env: Env): MultiTouchState
  {
    var typed := s.(touchType := TouchTypeOf(e));
    if typed.touchType == MtNone then typed
    else Transformed(Touched(typed, px, py), angle, env)
  }

  /** The browser callback for a state, by its touch type; none for MT_None. */
  function TouchCallback(s: MultiTouchState): seq<BrowserCall>
  {
    match s.touchType
    case MtPressed => [TouchPressed(s)]
    case MtReleased => [TouchReleased(s)]
    case MtMoved => [TouchMoved(s)]
    case MtCancelled => [TouchCancelled(s)]
    case MtNone => []
  }

  /**
   * A touch, move or release event records its type, sets the relative
   * positions to the distance from the previous absolute ones, resets Z, and
   * rescales the absolute positions; any other event only records MT_None.
   */
  lemma ScreenEventUpdates(s: MultiTouchState, e: ScreenEventType, px: int, py: int, angle: int, env: Env)
    ensures var r := ScreenEventState(s, e, px, py, angle, env);
      r.touchType == TouchTypeOf(e) && r.width == s.width && r.height == s.height
    ensures e.OtherScreenEvent? ==> ScreenEventState(s, e, px, py, angle, env) == s.(touchType := MtNone)
    ensures !e.OtherScreenEvent? ==>
      var r := ScreenEventState(s, e, px, py, angle, env);
      r.x.rel == px - s.x.abs && r.y.rel == py - s.y.abs && r.z == Axis(0, 0) &&
      r.x.abs == (if angle == 90 || angle == 270 then CDiv(px * env.width, env.height) else px) &&
      r.y.abs == (if angle == 90 || angle == 270 then CDiv(py * env.height, env.width) else py)
  {
    TransformedTouchesOnlyAbs(Touched(s.(touchType := TouchTypeOf(e)), px, py), angle, env);
  }

  /** Exactly one callback fires for a touch, move or release, the one of its type, and none otherwise. */
  lemma ScreenEventCallback(s: MultiTouchState, e: ScreenEventType, px: int, py: int, angle: int, env: Env)
    ensures var r := ScreenEventState(s, e, px, py, angle, env);
      TouchCallback(r) == match e
        case MtouchTouch => [TouchPressed(r)]
        case MtouchMove => [TouchMoved(r)]
        case MtouchRelease => [TouchReleased(r)]
        case OtherScreenEvent(_) => []
  {
    TransformedTouchesOnlyAbs(Touched(s.(touchType := TouchTypeOf(e)), px, py), angle, env);
  }

  /** The window size for an orientation mode: (W, H) in portrait, (H, W) in landscape. */
  function ResizeCalls(mode: OrientationMode, env: Env): seq<BrowserCall>
  {
    match mode
    case Portrait => [ResizeWindow(env.width, env.height)]
    case Landscape => [ResizeWindow(env.height, env.width)]
    case OtherMode(_) => []
  }

  /** The size of a state appended by getMultiTouchState, when the browser is set. */
  function AppendedState(browserSet: bool, orientation: OrientationMode, env: Env): MultiTouchState
  {
    if !browserSet then DefaultState
    else if orientation == Portrait then DefaultState.(width := env.width, height := env.height)
    else DefaultState.(width := env.height, height := env.width)
  }

  /** QnxMultiTouch: OIS's MultiTouch with its list of states, one per touch slot. */
  class QnxMultiTouch {
    var states: seq<MultiTouchState>

    /** One state sized to the portrait screen and one to the landscape screen. */
    constructor (env: Env)
      ensures states == [DefaultState.(width := env.width, height := env.height),
                         DefaultState.(width := env.height, height := env.width)]
    {
      var portrait := DefaultState.(width := env.width, height := env.height);
      var landscape := DefaultState.(width := env.height, height := env.width);
      states := [portrait];
      states := states + [landscape];
    }

    /**
     * getMultiTouchState: appends states until slot `i` exists, then returns
     * it. The existing states are kept; each appended state is sized to the
     * screen in the current orientation when the browser is set, and is a
     * default state otherwise.
     */
    method GetMultiTouchState(i: nat, browserSet: bool, orientation: OrientationMode, env: Env)
      returns (s: MultiTouchState)
      modifies this
      ensures |states| == if i < |old(states)| then |old(states)| else i + 1
      ensures states[..|old(states)|] == old(states)
      ensures forall k :: |old(states)| <= k < |states| ==> states[k] == AppendedState(browserSet, orientation, env)
      ensures i < |states| && s == states[i]
    {
      while i >= |states|
        invariant |old(states)| <= |states| <= if i < |old(states)| then |old(states)| else i + 1
        invariant states[..|old(states)|] == old(states)
        invariant forall k :: |old(states)| <= k < |states| ==> states[k] == AppendedState(browserSet, orientation, env)
        decreases i + 1 - |states|
      {
        var state := DefaultState;
        if browserSet {
          state := state.(width := if orientation == Portrait then env.width else env.height,
                          height := if orientation == Portrait then env.height else env.width);
        }
        states := states + [state];
      }
      s := states[i];
    }
  }

  /**
   * The globals of SampleBrowser_QNX.h that the event handlers use:
   * theBrowser (only whether it is set), exit_application, orientation,
   * angle and qnxMultiTouch.
   */
  class QnxApp {
    const env: Env
    const touch: QnxMultiTouch
    var browserSet: bool
    var exitApplication: int
    var orientation: OrientationMode
    var angle: int
    var browserCalls: seq<BrowserCall>

    /** The globals at their initial values, with the multi-touch object created. */
    constructor (env: Env, browserSet: bool)
      ensures this.env == env && this.browserSet == browserSet
      ensures exitApplication == 0 && orientation == Portrait && angle == 0 && browserCalls == []
      ensures fresh(touch)
      ensures touch.states == [DefaultState.(width := env.width, height := env.height),
                               DefaultState.(width := env.height, height := env.width)]
    {
      this.env := env;
      this.browserSet := browserSet;
      exitApplication := 0;
      orientation := Portrait;
      angle := 0;
      browserCalls := [];
      touch := new QnxMultiTouch(env);
    }

    /** The touch slot screen events go to: 0 in portrait, 1 otherwise. */
    function Slot(): nat
      reads this
    {
      if orientation == Portrait then 0 else 1
    }

    /** transformInputState on the state in slot `i`, in place. */
    method TransformInputState(i: nat)
      requires i < |touch.states|
      modifies touch
      ensures touch.states == old(touch.states)[i := Transformed(old(touch.states)[i], angle, env)]
    {
      var s := touch.states[i];
      var w := env.width;
      var h := env.height;
      var absX := s.x.abs;
      var absY := s.y.abs;
      if angle == 90 || angle == 270 {
        s := s.(x := s.x.(abs := CDiv(absX * w, h)));
        s := s.(y := s.y.(abs := CDiv(absY * h, w)));
      }
      touch.states := touch.states[i := s];
    }

    /**
     * handleScreenEvent for an event of type `e` at raw position (px, py):
     * the state in the orientation's slot records the touch type; for a
     * touch, move or release its positions are updated and rescaled and the
     * matching browser callback is called with it.
     */
    method HandleScreenEvent(e: ScreenEventType, px: int, py: int)
      modifies touch, this`browserCalls
      ensures |touch.states| == if Slot() < |old(touch.states)| then |old(touch.states)| else Slot() + 1
      ensures touch.states[Slot()] ==
        ScreenEventState(if Slot() < |old(touch.states)| then old(touch.states)[Slot()]
                         else AppendedState(browserSet, orientation, env), e, px, py, angle, env)
      ensures forall k :: 0 <= k < |touch.states| && k != Slot() ==>
        touch.states[k] == if k < |old(touch.states)| then old(touch.states)[k] else AppendedState(browserSet, orientation, env)
      ensures browserCalls == old(browserCalls) + TouchCallback(touch.states[Slot()])
    {
      var i := if orientation == Portrait then 0 else 1;
      var s := touch.GetMultiTouchState(i, browserSet, orientation, env);
      UpdateTouch(i, e, px, py);
      if touch.states[i].touchType != MtNone {
        FireCallback(touch.states[i]);
      }
    }

    /**
     * The state update of handleScreenEvent on slot `i`: the touch type, then
     * for a touch, move or release the positions, and the rescaling.
     */
    method UpdateTouch(i: nat, e: ScreenEventType, px: int, py: int)
      requires i < |touch.states|
      modifies touch
      ensures touch.states == old(touch.states)[i := ScreenEventState(old(touch.states)[i], e, px, py, angle, env)]
    {
      var s := touch.states[i];
      s := s.(touchType := TouchTypeOf(e));
      touch.states := touch.states[i := s];
      if s.touchType != MtNone {
        var last := s.x.abs;
        s := s.(x := Axis(px, px - last));
        last := s.y.abs;
        s := s.(y := Axis(py, py - last));
        s := s.(z := Axis(0, 0));
        touch.states := touch.states[i := s];
        TransformInputState(i);
      }
    }

    /** The switch on the touch type that calls the browser's touch handler. */
    method FireCallback(s: MultiTouchState)
      modifies this`browserCalls
      ensures browserCalls == old(browserCalls) + TouchCallback(s)
    {
      match s.touchType {
        case MtPressed => browserCalls := browserCalls + [TouchPressed(s)];
        case MtReleased => browserCalls := browserCalls + [TouchReleased(s)];
        case MtMoved => browserCalls := browserCalls + [TouchMoved(s)];
        case MtCancelled => browserCalls := browserCalls + [TouchCancelled(s)];
        case MtNone =>
      }
    }

    /**
     * handleNavigatorEvent: answers an orientation check; on an orientation
     * change records the angle and mode, resizes the window to the screen in
     * that mode and tells the browser; on exit raises the exit flag; ignores
     * a swipe down. These are handled (true); any other event is not, and
     * changes nothing.
     */
    method HandleNavigatorEvent(e: NavigatorEvent) returns (handled: bool)
      modifies this`angle, this`orientation, this`exitApplication, this`browserCalls
      ensures handled <==> !e.OtherNavigatorEvent?
      ensures e.Orientation? ==> angle == e.angle && orientation == e.mode
      ensures !e.Orientation? ==> angle == old(angle) && orientation == old(orientation)
      ensures exitApplication == if e.Exit? then 1 else old(exitApplication)
      ensures browserCalls == old(browserCalls) +
        match e
        case OrientationCheck => [OrientationCheckResponse(true)]
        case Orientation(_, mode) => ResizeCalls(mode, env) + [WindowResized, DoneOrientation]
        case _ => []
    {
      match e {
        case OrientationCheck =>
          browserCalls := browserCalls + [OrientationCheckResponse(true)];
        case Orientation(a, mode) =>
          angle := a;
          orientation := mode;
          var width := env.width;
          var height := env.height;
          if orientation == Portrait {
            browserCalls := browserCalls + [ResizeWindow(width, height)];
          } else if orientation == Landscape {
            browserCalls := browserCalls + [ResizeWindow(height, width)];
          }
          browserCalls := browserCalls + [WindowResized, DoneOrientation];
        case SwipeDown =>
        case Exit =>
          exitApplication := 1;
        case OtherNavigatorEvent(_) =>
          return false;
      }
      return true;
    }
  }
}
