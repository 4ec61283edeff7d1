# HomeCam person-triggered capture, in Dafny

This project models the capture logic of HomeCam's `MainActivity`. The camera
runs an object detector on every frame. When a batch of detections contains a
`"person"` box and more than 10 000 ms have passed since the last capture, the
activity swaps the analyzer of its `ImageAnalysis` use case for a one-shot
grabber. The grabber saves the next frame to the gallery and mails it if the
gallery insert produced a URI. It then records the time at which it was armed
as the last capture and posts a rebind of the camera use cases, which puts the
continuous detector back.

Modules:

- `Long64` (`long64.dfy`): Kotlin's `Long` and its wrapping subtraction. The
  cooldown test subtracts two `Long` timestamps.
- `Detection` (`detection.dfy`): bounding boxes, of which only the class label
  is read, and the person test.
- `Capture` (`capture.dfy`): the state machine as values. The state is
  `State(lastScreenshotTime, imageAnalysis)`. Here `imageAnalysis` is
  `Unbound` before the camera is first bound, and otherwise `Bound` with exactly
  one analyzer, `Continuous` or `OneShot(armedAt)`. There is one function per
  event (`AfterDetect`, `AfterFrame`, `AfterBind`), plus the lemmas about single
  events.
- `Activity` (`activity.dfy`): the same machine as objects. `MainActivity`
  holds the `lastScreenshotTime` field and the `imageAnalyzer` use case, and
  `ImageAnalysis` holds one analyzer slot that is cleared and set in place.
  Each handler is proved to move `Model()` exactly as the matching `Capture`
  function does.
- `Trace` (`trace.dfy`): runs of events in sequence, with properties that
  relate many steps and the concrete scenarios.

The timing collaborators are parameters. The clock reading `currentTime` is an
argument of `OnDetect`. The outcome of the gallery insert, of opening the output
stream and of the JPEG encoder make up a `SaveOutcome`. Launching the mail is an
`Email(subject, attachment)` effect.

Behaviour kept as the code has it:

- `lastScreenshotTime` is written only when the grabbed frame arrives
  (MainActivity.kt:241), and the value written is the time captured at arming.
  Until that frame arrives, a newer sighting can re-arm and replace the grabber
  (`RearmReplacesGrabber`, `CaptureRecordsLatestArming`).
- The grabber does not remove itself. The rebind is posted to the UI thread
  (MainActivity.kt:243), so it is a separate `Bind` event. The closure never
  calls `clearAnalyzer`, so a frame that reaches the grabber before the rebind
  runs is captured and mailed again (`SecondFrameBeforeRebindCapturesAgain`).
- `saveScreenshotToGallery` returns the URI whenever the insert succeeded, even
  when the stream could not be opened or the encoder failed. The mail is gated
  on the insert alone (`CompressFailureStillMails`).
- A failed insert does not abandon the trigger. The closure writes
  `lastScreenshotTime` whatever `saveScreenshotToGallery` returned, so a failed
  insert still starts the cooldown (`FailedInsertStillStartsCooldown`).
- Because `lastScreenshotTime` starts at 0, a sighting at time 0 does not arm.
  Only a clock reading above 10000 arms (`FirstDetectionArms`).
- The gate is computed in `Long` arithmetic. Clock readings before the epoch
  can wrap around and pass the gate (`NegativeClockWrapsPastCooldown`).
  `lastScreenshotTime` never decreases under either of two conditions on the
  clock. If the readings are all non-negative, it holds in whatever order they
  come (`CooldownNeverDecreases`). If the clock never goes backwards, it holds
  from a new activity, negative readings included
  (`CooldownMonotoneOnForwardClock`).

## Model

| member | source | states |
|---|---|---|
| `Long64.Minus` | app/src/main/java/com/surendramaran/yolov9tflite/MainActivity.kt:232 | `Long` subtraction yields the value congruent to the true difference modulo 2^64. It equals the true difference whenever that fits in a `Long` |
| `Long64.MinusSameSignExact` | app/src/main/java/com/surendramaran/yolov9tflite/MainActivity.kt:232 | two timestamps of the same sign subtract without wrapping |
| `Long64.MinusUnique` | app/src/main/java/com/surendramaran/yolov9tflite/MainActivity.kt:232 | the wrapped difference is the only `Long` congruent to the true one |
| `Detection.PersonDetected` | app/src/main/java/com/surendramaran/yolov9tflite/MainActivity.kt:229 | true iff some box in the batch has class name `"person"` |
| `Capture.CooldownElapsed` | app/src/main/java/com/surendramaran/yolov9tflite/MainActivity.kt:232 | the comparison against the 10000 ms constant declared at line 60. For non-negative readings, the gate opens iff `now` is more than 10000 ms after the last capture |
| `Capture.AfterDetect` | app/src/main/java/com/surendramaran/yolov9tflite/MainActivity.kt:228-247 | a detection never changes the cooldown or whether a use case is bound. Any change installs `OneShot(now)`, and it happens only when some box is a person |
| `Capture.SavedScreenshot` | app/src/main/java/com/surendramaran/yolov9tflite/MainActivity.kt:250-275 | the returned URI is exactly the insert's. There is no toast iff the insert failed, and "saved" iff stream and encoder both worked. "failed to open" iff the stream did not open |
| `Capture.AfterFrame` | app/src/main/java/com/surendramaran/yolov9tflite/MainActivity.kt:236-244 | a frame is captured iff a grabber is registered. The analyzer slot stays as it was. A capture sets the cooldown to the grabber's arming time, and it mails iff the insert returned a URI, attaching that URI. Nothing else changes |
| `Capture.AfterBind` | app/src/main/java/com/surendramaran/yolov9tflite/MainActivity.kt:127-134 | binding leaves one continuous analyzer and keeps the cooldown |
| `Capture.NoPersonNoChange` | app/src/main/java/com/surendramaran/yolov9tflite/MainActivity.kt:229-230 | with no person box, neither the analyzer nor the cooldown changes |
| `Capture.ArmedIffCooldownElapsed` | app/src/main/java/com/surendramaran/yolov9tflite/MainActivity.kt:230-236 | with a person and a bound use case, the capture is armed iff `now - lastScreenshotTime > 10000` |
| `Capture.CooldownBoundary` | app/src/main/java/com/surendramaran/yolov9tflite/MainActivity.kt:232 | exactly 10000 ms after the last capture is suppressed, and 10001 ms arms |
| `Capture.FirstDetectionArms` | app/src/main/java/com/surendramaran/yolov9tflite/MainActivity.kt:59-60 | after the first bind, the first person seen at any time above 10000 arms, because the cooldown starts at 0 |
| `Capture.UnboundNeverArms` | app/src/main/java/com/surendramaran/yolov9tflite/MainActivity.kt:234 | before any use case is bound, a detection changes nothing |
| `Capture.RearmReplacesGrabber` | app/src/main/java/com/surendramaran/yolov9tflite/MainActivity.kt:234-236 | re-arming before the frame arrives leaves one grabber with the newer arming time, and the cooldown unchanged |
| `Capture.EmailIffInserted` | app/src/main/java/com/surendramaran/yolov9tflite/MainActivity.kt:238-239 | a grabbed frame is mailed iff the insert returned a URI. The mail carries that URI and the subject "Person Detected" |
| `Capture.CompressFailureStillMails` | app/src/main/java/com/surendramaran/yolov9tflite/MainActivity.kt:258-274 | an encoder failure after a successful insert still mails the frame and toasts "failed to save" |
| `Capture.CaptureThenRebindResumes` | app/src/main/java/com/surendramaran/yolov9tflite/MainActivity.kt:241-243 | whatever the save outcome, a capture followed by its rebind leaves the continuous detector. The cooldown is the arming time |
| `Capture.SecondFrameBeforeRebindCapturesAgain` | app/src/main/java/com/surendramaran/yolov9tflite/MainActivity.kt:236-244 | the grabber stays registered after a capture, so a second frame before the rebind is captured again with the same state |
| `Capture.NegativeClockWrapsPastCooldown` | app/src/main/java/com/surendramaran/yolov9tflite/MainActivity.kt:231-241 | a clock reading of `Long.MIN_VALUE` after a capture at 10001 wraps past the gate, arms, and lowers the cooldown |
| `Activity.MainActivity.constructor` | app/src/main/java/com/surendramaran/yolov9tflite/MainActivity.kt:51-60 | a new activity has cooldown 0 and no use case |
| `Activity.MainActivity.OnDetect` | app/src/main/java/com/surendramaran/yolov9tflite/MainActivity.kt:220-249 | the handler may change only the use case's analyzer slot, it keeps exactly one analyzer registered, and the new state is `AfterDetect` of the old one |
| `Activity.MainActivity.SaveScreenshotToGallery` | app/src/main/java/com/surendramaran/yolov9tflite/MainActivity.kt:250-275 | returns the URI and the toast that `SavedScreenshot` describes |
| `Activity.MainActivity.DeliverFrame` | app/src/main/java/com/surendramaran/yolov9tflite/MainActivity.kt:236-244 | the frame callback keeps the same use case object, and the new state and its effect are `AfterFrame` of the old state |
| `Activity.MainActivity.BindCameraUseCases` | app/src/main/java/com/surendramaran/yolov9tflite/MainActivity.kt:112-134 | builds a fresh use case whose one analyzer is the continuous detector, and keeps the cooldown |
| `Trace.ArmingExceedsCooldown` | app/src/main/java/com/surendramaran/yolov9tflite/MainActivity.kt:232-236 | every arming time exceeds the cooldown then in force by more than 10000 ms, and installs a grabber carrying it |
| `Trace.StepKeepsCooldownOrdered` | app/src/main/java/com/surendramaran/yolov9tflite/MainActivity.kt:232-241 | each event keeps the cooldown non-negative and no later than a registered grabber's time, and never lowers it |
| `Trace.CooldownNeverDecreases` | app/src/main/java/com/surendramaran/yolov9tflite/MainActivity.kt:232-241 | along any run with non-negative clock readings, `lastScreenshotTime` never decreases |
| `Trace.CooldownMonotoneAlongRun` | app/src/main/java/com/surendramaran/yolov9tflite/MainActivity.kt:59-241 | from a new activity, the cooldown at an earlier point of a run is at most the cooldown at any later point |
| `Trace.StepOnForwardClock` | app/src/main/java/com/surendramaran/yolov9tflite/MainActivity.kt:232-241 | under a clock that never goes backwards, one event keeps every registered grabber no earlier than the cooldown and never lowers the cooldown. An arming reading exceeds a cooldown of 0 through the gate, and any other cooldown because that cooldown is an earlier reading |
| `Trace.ForwardClockRun` | app/src/main/java/com/surendramaran/yolov9tflite/MainActivity.kt:232-241 | running any prefix of a forward-clock trace never lowers the cooldown, and leaves the rest of the trace no earlier than the new cooldown and grabber |
| `Trace.CooldownMonotoneOnForwardClock` | app/src/main/java/com/surendramaran/yolov9tflite/MainActivity.kt:59-241 | if the clock never goes backwards, then from a new activity the cooldown at an earlier point of a run is at most the cooldown at any later point, negative readings included |
| `Trace.GrabberCarriesLatestArming` | app/src/main/java/com/surendramaran/yolov9tflite/MainActivity.kt:234-236 | a registered grabber carries the latest arming time of the run. If nothing armed, it is the grabber the run started with |
| `Trace.CaptureRecordsLatestArming` | app/src/main/java/com/surendramaran/yolov9tflite/MainActivity.kt:231-241 | the cooldown a capture writes is the time of the most recent arming |
| `Trace.NoInsertNoEmail` | app/src/main/java/com/surendramaran/yolov9tflite/MainActivity.kt:238-239 | if every gallery insert fails, no mail is ever launched |
| `Trace.NoPersonNoCapture` | app/src/main/java/com/surendramaran/yolov9tflite/MainActivity.kt:229-230 | with no person in any batch, nothing is armed or captured and the cooldown stays put |
| `Trace.CaptureCycleCapturesOnce` | app/src/main/java/com/surendramaran/yolov9tflite/MainActivity.kt:229-243 | sighting, frame and rebind with the cooldown passed give one capture, the cooldown set to the sighting time, the continuous detector back, and one mail iff the insert worked |
| `Trace.RetriggerWithinCooldownSuppressed` | app/src/main/java/com/surendramaran/yolov9tflite/MainActivity.kt:232 | a person at `t` and again at `t + 5000` gives one capture and one mail |
| `Trace.RetriggerAfterCooldownCaptures` | app/src/main/java/com/surendramaran/yolov9tflite/MainActivity.kt:232 | a person at `t` and again at `t + 11000` gives two captures and two mails |
| `Trace.FailedInsertStillStartsCooldown` | app/src/main/java/com/surendramaran/yolov9tflite/MainActivity.kt:238-243 | a failed insert mails nothing, yet it starts the cooldown and resumes detection. A person 1 ms later is not captured |

## Left out

- Camera provider setup, permissions and the activity lifecycle (MainActivity.kt:62-212). These are platform plumbing. The model keeps only the analyzer-slot effect of `bindCameraUseCases`, and assumes the camera provider is present when it runs, so the `IllegalStateException` at line 113 is not modelled.
- Bitmap buffer copy, rotation matrix and the `toBitmap` conversion (MainActivity.kt:135-162, 237). These are floating-point graphics inside library calls.
- `Detector.detect`, `restart` (GPU switch) and `close`. `Detector` is not part of this model. A continuous frame yields the `Analyzed` effect, and the detector's answer arrives later as an `OnDetect` call. Of a `BoundingBox`, only `clsName` is kept.
- `onEmptyDetect`, the overlay and the inference-time label (MainActivity.kt:214-226). These are display only.
- The MediaStore insert and JPEG encoding internals, and the file name `Person_<time>.jpg`. They are reduced to the three outcomes in `SaveOutcome`.
- `EmailSender` and the coroutine in `sendEmail` (MainActivity.kt:278-302). These are SMTP network I/O. The model records only the launch of a mail (`Email`), with its subject. The body's formatted date, the credentials, and the success or failure toast of the send are not modelled.
- Thread hand-offs (`runOnUiThread`, the camera executor, `GlobalScope.launch`). Events are modelled as a sequential interleaving. The instant between `clearAnalyzer` and `setAnalyzer`, when no analyzer is registered, is not observable in the model.
- Capture.AfterFrame: does not model the exception path of the grabber. Neither the closure (MainActivity.kt:236-244) nor `saveScreenshotToGallery` (250-275) catches exceptions. If `toBitmap` (237), `insert` (258), `openOutputStream` (261) or `compress` (262) throws, the closure stops before line 239. Then no mail is sent, `imageProxy.close()` is skipped, `lastScreenshotTime` is not written, no rebind is posted, and the exception escapes onto the camera executor. In the model, every frame that reaches a grabber completes normally and writes the cooldown.
- Toast text is reduced to three values (`ScreenshotSaved`, `FailedToSave`, `FailedToOpenStream`).
