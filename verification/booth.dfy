/**
 The photo booth's main loop (camera.py, `main` and `taking_photo`) as a pure state
 machine. Each iteration consumes one `Tick`: what the two button lines report and
 the timestamp the clock would give if a photo were taken. Hardware effects that
 matter to the loop are recorded as events: edge detection being switched off and on,
 and photos being captured.
 */
module Booth {
  import opened Geometry
  import opened Overlays
  import opened Poller
  import opened Filenames

  /** The configuration the loop reads (from camera-config.yaml), plus the sizes of the
      two bundled overlay images and the program's directory. */
  datatype Config = Config(
    testMode: bool,
    screenW: nat,
    realPath: string,
    folder: string,
    introImage: Size,
    successImage: Size)

  /** The layer `overlay_image` puts overlays on when none is given. */
  const DEFAULT_LAYER: int := 3
  /** Hold durations of the intro and success screens, in seconds. */
  const INTRO_HOLD: int := 3
  const SUCCESS_HOLD: int := 2

  /** One loop iteration's inputs. */
  datatype Tick = Tick(camera: LineSample, exit: LineSample, stamp: string)

  /** What the loop does to the outside world. */
  datatype Event = DisableDetection | EnableDetection | CapturePhoto(path: string)

  /** The loop's state: whether falling-edge detection is armed on both buttons, the
      photos written so far, whether the loop has ended, and the overlays on screen. */
  datatype State = State(detectionEnabled: bool, photos: seq<string>, terminated: bool, screen: Compositor)

  /** A running loop always has edge detection armed. */
  predicate Inv(b: State) {
    Valid(b.screen) && (!b.terminated ==> b.detectionEnabled)
  }

  /** The state and the events after one or more iterations. */
  datatype Outcome = Outcome(booth: State, events: seq<Event>)

  /** Start of `main`: the intro screen is shown for its hold and removed again, then
      edge detection is armed on both buttons. */
  function Start(cfg: Config): (b: State)
    ensures Inv(b) && !b.terminated && b.photos == []
    ensures b.screen.active == map[]
  {
    var intro := OverlayImage(Empty(), cfg.introImage, cfg.screenW, INTRO_HOLD, DEFAULT_LAYER);
    State(true, [], false, intro.screen)
  }

  /** `taking_photo(prefix)`: captures to `prefix + ".jpg"`, then shows the success
      screen for its hold, which removes it again. */
  function TakingPhoto(cfg: Config, screen: Compositor, prefix: string): (r: (string, Compositor))
    requires Valid(screen)
    ensures r.0 == PhotoPath(prefix)
    ensures Valid(r.1) && r.1.active == screen.active
  {
    var success := OverlayImage(screen, cfg.successImage, cfg.screenW, SUCCESS_HOLD, DEFAULT_LAYER);
    (PhotoPath(prefix), success.screen)
  }

  /** The file a capture in this iteration writes. */
  function PhotoFor(cfg: Config, t: Tick): string {
    PhotoPath(BasePath(cfg.realPath, cfg.folder, t.stamp))
  }

  /** One iteration of the `while True` loop. An exit press ends the loop; no press
      (outside test mode) leaves everything as it was; a capture switches detection
      off, writes the photo, and then either ends the loop (test mode) or re-arms
      detection. */
  function Step(cfg: Config, b: State, t: Tick): (r: Outcome)
    requires Inv(b) && !b.terminated
    ensures Inv(r.booth)
    ensures r.booth.screen.active == b.screen.active
    ensures Pressed(t.exit) ==> r.booth.terminated && r.booth.photos == b.photos && r.events == []
    ensures !Pressed(t.exit) && !cfg.testMode && !Pressed(t.camera) ==> r == Outcome(b, [])
    ensures !Pressed(t.exit) && (cfg.testMode || Pressed(t.camera)) ==>
      && r.booth.photos == b.photos + [PhotoFor(cfg, t)]
      && (cfg.testMode ==>
            && r.booth.terminated && !r.booth.detectionEnabled
            && r.events == [DisableDetection, CapturePhoto(PhotoFor(cfg, t))])
      && (!cfg.testMode ==>
            && !r.booth.terminated
            && r.events == [DisableDetection, CapturePhoto(PhotoFor(cfg, t)), EnableDetection])
  {
    match Decide(t.camera, t.exit, cfg.testMode)
    case Exit => Outcome(b.(terminated := true), [])
    case Idle => Outcome(b, [])
    case Capture =>
      var prefix := BasePath(cfg.realPath, cfg.folder, t.stamp);
      var (path, screen) := TakingPhoto(cfg, b.screen, prefix);
      var captured := [DisableDetection, CapturePhoto(path)];
      if cfg.testMode then
        Outcome(State(false, b.photos + [path], true, screen), captured)
      else
        Outcome(State(true, b.photos + [path], false, screen), captured + [EnableDetection])
  }

  /** Runs the loop over the given iterations until it ends or the input runs out. */
  function Run(cfg: Config, b: State, ticks: seq<Tick>): (r: Outcome)
    requires Inv(b)
    ensures Inv(r.booth)
    ensures r.booth.screen.active == b.screen.active
    ensures b.photos <= r.booth.photos
    ensures b.terminated ==> r == Outcome(b, [])
    decreases |ticks|
  {
    if b.terminated || |ticks| == 0 then Outcome(b, [])
    else
      var first := Step(cfg, b, ticks[0]);
      var rest := Run(cfg, first.booth, ticks[1..]);
      Outcome(rest.booth, first.events + rest.events)
  }

  /** Whether edge detection is armed after replaying `events` from `enabled`. */
  function DetectionAfter(events: seq<Event>, enabled: bool): bool
    decreases |events|
  {
    if |events| == 0 then enabled
    else
      match events[0]
      case DisableDetection => DetectionAfter(events[1..], false)
      case EnableDetection => DetectionAfter(events[1..], true)
      case CapturePhoto(_) => DetectionAfter(events[1..], enabled)
  }

  /** Replaying `events` from `enabled`, every capture happens with detection off. */
  predicate CapturesWhileDisabled(events: seq<Event>, enabled: bool)
    decreases |events|
  {
    if |events| == 0 then true
    else
      match events[0]
      case DisableDetection => CapturesWhileDisabled(events[1..], false)
      case EnableDetection => CapturesWhileDisabled(events[1..], true)
      case CapturePhoto(_) => !enabled && CapturesWhileDisabled(events[1..], enabled)
  }

  /** The paths of the captures among `events`, in order. */
  function Captured(events: seq<Event>): seq<string>
    decreases |events|
  {
    if |events| == 0 then []
    else if events[0].CapturePhoto? then [events[0].path] + Captured(events[1..])
    else Captured(events[1..])
  }

  /** Replaying a concatenation replays the first part, then the second from where the
      first left detection. */
  lemma {:induction false} ReplayAppend(a: seq<Event>, c: seq<Event>, enabled: bool)
    ensures DetectionAfter(a + c, enabled) == DetectionAfter(c, DetectionAfter(a, enabled))
    ensures CapturesWhileDisabled(a + c, enabled)
      == (CapturesWhileDisabled(a, enabled) && CapturesWhileDisabled(c, DetectionAfter(a, enabled)))
    ensures Captured(a + c) == Captured(a) + Captured(c)
    decreases |a|
  {
    if |a| > 0 {
      assert (a + c)[1..] == a[1..] + c;
      var e := match a[0] case DisableDetection => false case EnableDetection => true case CapturePhoto(_) => enabled;
      ReplayAppend(a[1..], c, e);
    } else {
      assert a + c == c;
    }
  }

  /** Edge detection is off during every capture, the events explain the final
      detection state, and the photos written are exactly the captures in the events. */
  lemma {:induction false} RunDisablesDetectionForCaptures(cfg: Config, b: State, ticks: seq<Tick>)
    requires Inv(b)
    ensures var r := Run(cfg, b, ticks);
      && CapturesWhileDisabled(r.events, b.detectionEnabled)
      && DetectionAfter(r.events, b.detectionEnabled) == r.booth.detectionEnabled
      && r.booth.photos == b.photos + Captured(r.events)
    decreases |ticks|
  {
    if !(b.terminated || |ticks| == 0) {
      var first := Step(cfg, b, ticks[0]);
      var rest := Run(cfg, first.booth, ticks[1..]);
      RunDisablesDetectionForCaptures(cfg, first.booth, ticks[1..]);
      StepReplay(cfg, b, ticks[0]);
      ComposeReplay(b.photos, first, rest);
      assert Run(cfg, b, ticks) == Outcome(rest.booth, first.events + rest.events);
    } else {
      assert Captured([]) == [];
    }
  }

  /** An iteration followed by the rest of a run: if each part's events account for its
      detection state and photos, so do their joined events. */
  lemma ComposeReplay(photos: seq<string>, first: Outcome, rest: Outcome)
    requires CapturesWhileDisabled(first.events, true)
    requires DetectionAfter(first.events, true) == first.booth.detectionEnabled
    requires first.booth.photos == photos + Captured(first.events)
    requires CapturesWhileDisabled(rest.events, first.booth.detectionEnabled)
    requires DetectionAfter(rest.events, first.booth.detectionEnabled) == rest.booth.detectionEnabled
    requires rest.booth.photos == first.booth.photos + Captured(rest.events)
    ensures CapturesWhileDisabled(first.events + rest.events, true)
    ensures DetectionAfter(first.events + rest.events, true) == rest.booth.detectionEnabled
    ensures rest.booth.photos == photos + Captured(first.events + rest.events)
  {
    ReplayAppend(first.events, rest.events, true);
    calc {
      rest.booth.photos;
      (photos + Captured(first.events)) + Captured(rest.events);
      photos + (Captured(first.events) + Captured(rest.events));
    }
  }

  /** One iteration's events, replayed from armed detection, capture with detection
      off, end in the iteration's detection state, and name the photo it wrote. */
  lemma StepReplay(cfg: Config, b: State, t: Tick)
    requires Inv(b) && !b.terminated
    ensures var r := Step(cfg, b, t);
      && CapturesWhileDisabled(r.events, true)
      && DetectionAfter(r.events, true) == r.booth.detectionEnabled
      && r.booth.photos == b.photos + Captured(r.events)
  {
    var r := Step(cfg, b, t);
    if r.events != [] {
      CaptureCycleReplay(PhotoFor(cfg, t));
    }
  }

  /** The event sequences of a capture in test mode and outside it. */
  lemma CaptureCycleReplay(path: string)
    ensures var once := [DisableDetection, CapturePhoto(path)];
      && CapturesWhileDisabled(once, true) && !DetectionAfter(once, true) && Captured(once) == [path]
    ensures var cycle := [DisableDetection, CapturePhoto(path), EnableDetection];
      && CapturesWhileDisabled(cycle, true) && DetectionAfter(cycle, true) && Captured(cycle) == [path]
  {
    var once := [DisableDetection, CapturePhoto(path)];
    var cycle := once + [EnableDetection];
    var photo: seq<Event> := [CapturePhoto(path)];
    var photoThenEnable: seq<Event> := [CapturePhoto(path), EnableDetection];
    var enable: seq<Event> := [EnableDetection];
    assert once[1..] == photo && photo[1..] == [];
    assert cycle[1..] == photoThenEnable && photoThenEnable[1..] == enable && enable[1..] == [];
    assert DetectionAfter(photo, false) == false;
    assert CapturesWhileDisabled(photo, false);
    assert Captured(photo) == [path];
    assert DetectionAfter(enable, false) == true;
    assert CapturesWhileDisabled(enable, false);
    assert Captured(enable) == [];
    assert DetectionAfter(photoThenEnable, false) == true;
    assert CapturesWhileDisabled(photoThenEnable, false);
    assert Captured(photoThenEnable) == [path];
  }

  /** Outside test mode the loop only ends on an exit press: after a run it has ended
      exactly when one of the iterations registered the exit button. */
  lemma {:induction false} RunEndsOnlyOnExit(cfg: Config, b: State, ticks: seq<Tick>)
    requires Inv(b) && !b.terminated && !cfg.testMode
    ensures Run(cfg, b, ticks).booth.terminated <==> exists i :: 0 <= i < |ticks| && Pressed(ticks[i].exit)
    decreases |ticks|
  {
    if |ticks| > 0 {
      var first := Step(cfg, b, ticks[0]);
      if !Pressed(ticks[0].exit) {
        RunEndsOnlyOnExit(cfg, first.booth, ticks[1..]);
        if exists i :: 0 <= i < |ticks| && Pressed(ticks[i].exit) {
          var i :| 0 <= i < |ticks| && Pressed(ticks[i].exit);
          assert ticks[1..][i - 1] == ticks[i];
        }
        if exists i :: 0 <= i < |ticks[1..]| && Pressed(ticks[1..][i].exit) {
          var i :| 0 <= i < |ticks[1..]| && Pressed(ticks[1..][i].exit);
          assert ticks[i + 1] == ticks[1..][i];
        }
      }
    }
  }

  /** In test mode the loop runs one iteration only: unless the exit button is
      registered first, it writes exactly one photo, into the configured folder, and
      ends with detection off and no overlay left on screen. */
  lemma TestModeCapturesOnce(cfg: Config, ticks: seq<Tick>)
    requires cfg.testMode && |ticks| > 0
    ensures var r := Run(cfg, Start(cfg), ticks);
      && r.booth.terminated
      && r.booth.screen.active == map[]
      && (Pressed(ticks[0].exit) ==> r.booth.photos == [] && r.events == [])
      && (!Pressed(ticks[0].exit) ==>
            && r.booth.photos == [PhotoFor(cfg, ticks[0])]
            && r.events == [DisableDetection, CapturePhoto(PhotoFor(cfg, ticks[0]))]
            && !r.booth.detectionEnabled)
  {
    var b := Start(cfg);
    var first := Step(cfg, b, ticks[0]);
    assert Run(cfg, first.booth, ticks[1..]) == Outcome(first.booth, []);
    assert first.events + [] == first.events;
  }

  /** Iterations without any registered press (outside test mode) change nothing. */
  lemma {:induction false} IdleTicksChangeNothing(cfg: Config, b: State, ticks: seq<Tick>)
    requires Inv(b) && !cfg.testMode
    requires forall i :: 0 <= i < |ticks| ==> !Pressed(ticks[i].exit) && !Pressed(ticks[i].camera)
    ensures Run(cfg, b, ticks) == Outcome(b, [])
    decreases |ticks|
  {
    if !(b.terminated || |ticks| == 0) {
      IdleTicksChangeNothing(cfg, b, ticks[1..]);
    }
  }
}
