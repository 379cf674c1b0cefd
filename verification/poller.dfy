/**
 The per-iteration button poll of the main loop (camera.py, `main`): each button line
 reports whether a falling edge was latched since the last check and, after the
 debounce sleep, the sampled input level; the poll decides whether to exit, capture
 a photo, or stay idle.
 */
module Poller {

  /** One button line as seen in one iteration. `level` is what `GPIO.input` returns;
      it is only read when an edge was latched, so it is irrelevant otherwise. */
  datatype LineSample = LineSample(edge: bool, level: int)

  /** The outcome of one poll. */
  datatype Decision = Exit | Capture | Idle

  /** A button registers as pressed when an edge was latched and the debounced level
      reads 0 (the line is pulled up, so 0 means held down). */
  predicate Pressed(s: LineSample) {
    s.edge && s.level == 0
  }

  /** The decision of one iteration, given both lines and the test-mode flag:
      an exit press wins over everything; otherwise test mode or a camera press
      captures; otherwise the loop idles and polls again. */
  function Decide(camera: LineSample, exit: LineSample, testMode: bool): (d: Decision)
    ensures d == Exit <==> Pressed(exit)
    ensures d == Capture <==> !Pressed(exit) && (testMode || Pressed(camera))
    ensures d == Idle <==> !Pressed(exit) && !testMode && !Pressed(camera)
  {
    if Pressed(exit) then Exit
    else if testMode || Pressed(camera) then Capture
    else Idle
  }

  /** Exit has priority: a registered exit press decides Exit whatever the camera line
      and the test-mode flag say, and both edges latched together with both levels low
      never capture. */
  lemma ExitHasPriority(camera: LineSample, exit: LineSample, testMode: bool)
    requires Pressed(exit)
    ensures Decide(camera, exit, testMode) == Exit
    ensures forall cam: LineSample, t: bool :: Decide(cam, exit, t) != Capture
  {
  }

  /** Debounce: an edge whose debounced level is not 0 registers nothing, so it decides
      exactly what the same poll without that edge would decide. */
  lemma BounceIsIgnored(camera: LineSample, exit: LineSample, testMode: bool)
    ensures camera.edge && camera.level != 0 ==>
      Decide(camera, exit, testMode) == Decide(LineSample(false, 0), exit, testMode)
    ensures exit.edge && exit.level != 0 ==>
      Decide(camera, exit, testMode) == Decide(camera, LineSample(false, 0), testMode)
  {
  }

  /** The loop body as the program writes it: two flags that start unset, each set by a
      latched edge whose debounced read is 0, then an early return on the exit flag,
      test mode forcing the photo flag, and an idle `continue` when it is still unset.
      It decides exactly what `Decide` does. */
  method PollOnce(camera: LineSample, exit: LineSample, testMode: bool) returns (d: Decision)
    ensures d == Decide(camera, exit, testMode)
  {
    var photoPressed := false;
    var exitPressed := false;
    if camera.edge {
      if camera.level == 0 {
        photoPressed := true;
      }
    }
    if exit.edge {
      if exit.level == 0 {
        exitPressed := true;
      }
    }
    if exitPressed {
      return Exit;
    }
    if testMode {
      photoPressed := true;
    }
    if !photoPressed {
      return Idle;
    }
    return Capture;
  }
}
