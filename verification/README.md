# Raspberry Pi photo booth: a Dafny model of its decision logic

The photo booth (`camera.py`) waits for a button press, then captures a still to a
timestamped file and shows a short success overlay. Most of the script drives
hardware. This project models the parts of it that decide things, as pure functions
and a small state machine:

- **Geometry** (`geometry.dfy`): `overlay_image` fits an image to the screen width
  and pads its buffer to the camera renderer's 32x16 block size. The compositor is
  told the fitted, unpadded size.
- **Overlays** (`overlays.dfy`): the overlay handle lifecycle. The compositor is a map
  of on-screen overlays keyed by handle. A timed overlay is removed again, and the
  caller gets the sentinel `-1`. An untimed one stays on screen, and the caller gets
  its handle.
- **Poller** (`poller.dfy`): one iteration of the button poll. Each line reports a
  latched falling edge and a debounced level. The poll decides Exit, Capture or Idle.
  An exit press wins, and test mode forces a capture.
- **Filenames** (`filenames.dfy`): the base file name comes from the timestamp text.
  It is the text before the first `.`, with spaces turned into `_` and colons into
  `-`. It goes under `REAL_PATH/folder/`, and the photo adds `.jpg`.
- **Booth** (`booth.dfy`): the main loop as a state machine over
  `State(detectionEnabled, photos, terminated, screen)`. Each iteration consumes a `Tick`
  holding both button samples and the clock's timestamp. The loop's effects are
  recorded as events: detection off, capture, detection on.

Hardware reads, the clock and the bundled images' sizes are parameters. The camera,
GPIO and PIL calls are not modelled beyond their effect on the overlay map and on
the event trace.

Three points about the code that shape the model:
- The code records only whether each button registered in this iteration (`None` or
  `True` in `photo_button_is_pressed` and `exit_button_is_pressed`, camera.py:250-261).
  `Poller.Pressed` models that.
- `CAMERA.add_overlay` returns a renderer object, whose `.layer` is set at
  camera.py:191. The `-1` is assigned by `overlay_image` itself at camera.py:196,
  after it removes a timed overlay. The model issues positive integer handles from a
  counter, so no handle can equal the `-1` sentinel.
- The docstring at camera.py:135 mentions a `_1of4` suffix that the code never
  produces, so it is not modelled.

## Model

| member | source | states |
|---|---|---|
| Geometry.PadUp | camera.py:174-177 | The padded dimension is a multiple of the block and lies in `[x, x + block)`: padding never shrinks a dimension and adds less than one block |
| Geometry.PadUpUnique | camera.py:174-177 | The rounding formula equals its reference definition: any multiple of the block within `[x, x + block)` is the padded value |
| Geometry.PadUpLeast | camera.py:174-177 | The padded value is the least multiple of the block that is at least `x` |
| Geometry.PadUpAlignedUnchanged | camera.py:174-177 | A dimension is unchanged by padding exactly when it is already aligned, and padding twice equals padding once |
| Geometry.FitToScreen | camera.py:157-162 | An image wider than the screen gets exactly the screen width and a height that is the truncated proportional height, never larger than before; a narrower image is left untouched |
| Geometry.PadToBlocks | camera.py:173-177 | The buffer width is a multiple of 32 and its height a multiple of 16, each within one block above the image's size |
| Geometry.PadToBlocksIdempotent | camera.py:174-177 | Padding a size twice equals padding it once, and an aligned size is left as it is (both directions) |
| Geometry.PlaceImage | camera.py:157-190 | The size announced to the compositor is the fitted, unpadded size; the buffer is block-aligned and holds the fitted image at its corner without cropping |
| Overlays.AddOverlay | camera.py:190-191 | A new overlay gets a fresh positive handle, and only that handle is added to the screen |
| Overlays.RemoveOverlay | camera.py:195 | The removed handle is gone from the screen, and every other overlay is kept unchanged |
| Overlays.OverlayImage | camera.py:147-198 | With a positive duration the sentinel -1 is returned and the screen is as before; otherwise a fresh handle is returned and stays on screen with the fitted placement and layer |
| Overlays.KeptOverlayAnnouncesFittedSize | camera.py:188-191 | The kept overlay is announced with the fitted size, its buffer is the padding of that size, and it sits on the requested layer |
| Overlays.RemoveKeptOverlayRestores | camera.py:193-198 | Removing the handle returned for an untimed overlay restores the screen to what it was before the call |
| Poller.Decide | camera.py:249-273 | Exit exactly when the exit line registers a press; otherwise Capture exactly when test mode is on or the camera line registers; Idle exactly when nothing registers and test mode is off |
| Poller.ExitHasPriority | camera.py:258-267 | A registered exit press decides Exit whatever the camera line and test mode say; with it, no input decides Capture |
| Poller.BounceIsIgnored | camera.py:253-261 | A latched edge whose debounced level is not 0 decides the same as no edge at all, on each line independently of the other |
| Poller.PollOnce | camera.py:249-273 | The loop body, written with the program's two flags and early exits, decides exactly what `Decide` does |
| Filenames.BeforeFirstDot | camera.py:138 | The result is a prefix of the timestamp with no dot, followed in it by a dot or by its end |
| Filenames.ReplaceChar | camera.py:139-140 | The result has the same length, with every occurrence of the target replaced and every other character kept |
| Filenames.BaseName | camera.py:138-140 | The base name has no space, colon or dot, and is the character-wise sanitised text of the timestamp before its first dot |
| Filenames.BasePath | camera.py:138-144 | For a timestamp without `/`, the base path splits back into the directory `REAL_PATH/folder` and the base name |
| Filenames.PhotoPath | camera.py:209 | Adding `.jpg` keeps the path's directory, lengthens only its final file name by those four characters, and adds no `/` |
| Filenames.SplitLastOfJoin | camera.py:142 | Joining a directory and a slash-free name with `/` can be split back into both parts |
| Filenames.PhotoLandsInFolder | camera.py:138-144 | For a timestamp without `/`, the photo's directory is `REAL_PATH/folder` and its file name is the base name plus `.jpg` |
| Filenames.SecondsPart | camera.py:138 | The text before the first dot is the seconds part, whether the stamp carries a `.fraction` or not |
| Filenames.SameSecondSameName | camera.py:138-140 | Any two timestamps with the same text before the first dot get the same base name, so two captures in one second collide |
| Filenames.WithOrWithoutFraction | camera.py:138-140 | A stamp printed without a fraction (microsecond 0) and one with a fraction in the same second give the same base name |
| Booth.Start | camera.py:237-247 | The loop starts running, armed, with no photos and no overlay left on screen after the timed intro |
| Booth.TakingPhoto | camera.py:203-218 | The capture goes to the prefix plus `.jpg`, and the timed success overlay leaves the screen as it was |
| Booth.Step | camera.py:249-293 | An exit press ends the loop with no capture. No press outside test mode changes nothing. A capture writes the timestamped photo and emits detection off then capture; test mode then ends the loop, and otherwise detection is re-armed |
| Booth.Run | camera.py:249-293 | Over any input, the loop invariant (running implies armed) is kept, photos are only appended, and no overlay is leaked |
| Booth.StepReplay | camera.py:278-293 | Within one iteration, capture happens with detection off, and the events account for the final detection state and for the photo written |
| Booth.RunDisablesDetectionForCaptures | camera.py:278-293 | Over a whole run, every capture happens with detection off, the events account for the final detection state, and the photos written are exactly the captures in the events |
| Booth.RunEndsOnlyOnExit | camera.py:263-264 | Outside test mode, a run has ended exactly when some iteration registered the exit button |
| Booth.TestModeCapturesOnce | camera.py:266-289 | In test mode the loop ends after its first iteration. Unless exit was pressed, it writes exactly one photo into the folder and ends with detection off. No overlay is left on screen |
| Booth.IdleTicksChangeNothing | camera.py:269-273 | Outside test mode, iterations without any registered press leave the state unchanged and emit no events |

## Left out

- Geometry.FitToScreen: the scaled height is the exact floor of `h * SCREEN_W / w`. The program computes it with floats (camera.py:160-161), where rounding error can make it one pixel smaller.
- Geometry.FitToScreen: a fitted dimension of 0 is accepted here, where PIL's resize at camera.py:162 would reject it. This happens with a configured screen width of 0, or when `img.h * SCREEN_W < img.w` makes the fitted height 0 (for example a 10000x1 image on a 100-pixel screen).
- Overlays.OverlayImage: the pixel mode, the buffer's contents and the anti-aliased resize are not modelled; only sizes, handles and layers are.
- Configuration loading (camera.py:48-92): file I/O and a YAML library. The second `except KeyError` at camera.py:91 can never run, so it has no counterpart here.
- Camera and GPIO setup (camera.py:98-106), preview start, and the `add_overlay`/`capture`/`resize`/`paste`/`tobytes` calls are hardware and library calls. The compositor is the overlay map, and a capture is an event.
- Every `sleep` (debounce, 0.1 s idle poll, overlay holds): timing only; a hold just removes the overlay afterwards.
- Console `print` output and the annotation text reset in `taking_photo`: they do not affect any decision.
- Folder creation in `health_test_required_folders` (camera.py:111-124): filesystem I/O.
- `KeyboardInterrupt` and the `finally` cleanup (camera.py:296-307): process-level resource release.
- The wall clock: the timestamp text is an input of each `Tick`.
- Capture failures raised by the camera: they propagate out of the loop, which the pure model does not represent.
