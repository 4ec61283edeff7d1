/**
 * The person-triggered capture state machine of `MainActivity`, as values:
 * the cooldown field, the analyzer slot of the bound `ImageAnalysis` use case,
 * and one function per event that changes them.
 */
module Capture {
  import opened Wrappers
  import opened Long64
  import opened Detection

  /** Minimum spacing, in milliseconds, between two captures. */
  const ScreenshotCooldown: Long := 10000
  const EmailSubject: string := "Person Detected"

  /** The handle the gallery insert returns for a new image. */
  datatype Uri = Uri(id: nat)

  /** What the bound use case runs on each frame: the detector, or the grabber armed at `armedAt`. */
  datatype Analyzer = Continuous | OneShot(armedAt: Long)

  /** `imageAnalyzer`: null until the camera is first bound, then one use case with exactly one analyzer. */
  datatype UseCase = Unbound | Bound(analyzer: Analyzer)

  datatype State = State(lastScreenshotTime: Long, imageAnalysis: UseCase)

  /** Freshly created activity: no capture yet, camera not bound. */
  const Initial: State := State(0, Unbound)

  predicate OneShotArmed(s: State) {
    s.imageAnalysis.Bound? && s.imageAnalysis.analyzer.OneShot?
  }

  /** The cooldown gate `currentTime - lastScreenshotTime > screenshotCooldown`, in `Long` arithmetic. */
  function CooldownElapsed(now: Long, last: Long): (r: bool)
    ensures 0 <= now && 0 <= last ==> (r <==> now > last + ScreenshotCooldown)
  {
    Minus(now, last) > ScreenshotCooldown
  }

  /** A detection batch arms a capture: a person, the cooldown passed, and a use case to swap. */
  predicate Arms(s: State, boxes: seq<BoundingBox>, now: Long) {
    PersonDetected(boxes) && CooldownElapsed(now, s.lastScreenshotTime) && s.imageAnalysis.Bound?
  }

  /** `onDetect`: when armed, clear the analyzer and install a grabber that remembers `now`. */
  function AfterDetect(s: State, boxes: seq<BoundingBox>, now: Long): (s': State)
    ensures s'.lastScreenshotTime == s.lastScreenshotTime
    ensures s'.imageAnalysis.Bound? == s.imageAnalysis.Bound?
    ensures s' != s ==> s'.imageAnalysis == Bound(OneShot(now))
    ensures s' != s ==> exists i :: 0 <= i < |boxes| && boxes[i].clsName == PersonClass
  {
    if Arms(s, boxes, now) then s.(imageAnalysis := Bound(OneShot(now))) else s
  }

  /** External outcomes of `saveScreenshotToGallery`: the insert's URI, the stream, the JPEG encoder. */
  datatype SaveOutcome = SaveOutcome(inserted: Option<Uri>, streamOpened: bool, compressed: bool)

  datatype Toast = ScreenshotSaved | FailedToSave | FailedToOpenStream

  /** What `saveScreenshotToGallery` returns, and the toast it posts (none when the insert failed). */
  datatype Saved = Saved(uri: Option<Uri>, toast: Option<Toast>)

  function SavedScreenshot(o: SaveOutcome): (r: Saved)
    ensures r.uri == o.inserted
    ensures r.toast.None? <==> o.inserted.None?
    ensures r.toast == Some(ScreenshotSaved) <==> o.inserted.Some? && o.streamOpened && o.compressed
    ensures r.toast == Some(FailedToOpenStream) <==> o.inserted.Some? && !o.streamOpened
  {
    match o.inserted
    case None => Saved(None, None)
    case Some(uri) =>
      var toast := if !o.streamOpened then FailedToOpenStream
                   else if o.compressed then ScreenshotSaved
                   else FailedToSave;
      Saved(Some(uri), Some(toast))
  }

  /** The mail the background job is launched with; its body (a formatted date) is not modelled. */
  datatype Email = Email(subject: string, attachment: Uri)

  datatype FrameEffect =
    | NotDelivered        // no use case bound: the camera delivers nothing
    | Analyzed            // the frame went to the continuous detector
    | Captured(email: Option<Email>, toast: Option<Toast>)

  datatype FrameStep = FrameStep(state: State, effect: FrameEffect)

  /**
   * A camera frame reaching the registered analyzer. The grabber saves the frame,
   * mails it when the insert produced a URI, records its arming time as the last
   * capture and posts a rebind; it stays registered until that rebind runs.
   */
  function AfterFrame(s: State, o: SaveOutcome): (r: FrameStep)
    ensures r.state.imageAnalysis == s.imageAnalysis
    ensures r.effect.Captured? <==> OneShotArmed(s)
    ensures !r.effect.Captured? ==> r.state == s
    ensures OneShotArmed(s) ==> r.state.lastScreenshotTime == s.imageAnalysis.analyzer.armedAt
    ensures r.effect.Captured? ==> (r.effect.email.Some? <==> o.inserted.Some?)
    ensures r.effect.Captured? && r.effect.email.Some? ==> r.effect.email.value.attachment == o.inserted.value
  {
    match s.imageAnalysis
    case Unbound => FrameStep(s, NotDelivered)
    case Bound(Continuous) => FrameStep(s, Analyzed)
    case Bound(OneShot(currentTime)) =>
      var saved := SavedScreenshot(o);
      var email := match saved.uri
        case None => None
        case Some(uri) => Some(Email(EmailSubject, uri));
      FrameStep(s.(lastScreenshotTime := currentTime), Captured(email, saved.toast))
  }

  /** `bindCameraUseCases`: a new use case running the continuous detector. */
  function AfterBind(s: State): (s': State)
    ensures s'.imageAnalysis == Bound(Continuous)
    ensures s'.lastScreenshotTime == s.lastScreenshotTime
  {
    s.(imageAnalysis := Bound(Continuous))
  }

  // ---------------------------------------------------------------------------
  // Properties of single events

  /** Without a person box nothing changes, neither the analyzer nor the cooldown. */
  lemma NoPersonNoChange(s: State, boxes: seq<BoundingBox>, now: Long)
    requires forall i :: 0 <= i < |boxes| ==> boxes[i].clsName != PersonClass
    ensures AfterDetect(s, boxes, now) == s
  {
  }

  /** With a person and a bound use case, the capture is armed exactly when more than 10000 ms passed. */
  lemma ArmedIffCooldownElapsed(s: State, boxes: seq<BoundingBox>, now: Long)
    requires PersonDetected(boxes) && s.imageAnalysis.Bound?
    requires 0 <= now && 0 <= s.lastScreenshotTime
    ensures Arms(s, boxes, now) <==> now - s.lastScreenshotTime > 10000
    ensures AfterDetect(s, boxes, now) ==
      if now - s.lastScreenshotTime > 10000 then s.(imageAnalysis := Bound(OneShot(now))) else s
  {
  }

  /** The comparison is strict: exactly 10000 ms after the last capture is still suppressed, 10001 ms is not. */
  lemma CooldownBoundary(s: State, boxes: seq<BoundingBox>)
    requires PersonDetected(boxes) && s.imageAnalysis.Bound?
    requires 0 <= s.lastScreenshotTime <= MaxLong - 10001
    ensures AfterDetect(s, boxes, s.lastScreenshotTime + 10000) == s
    ensures AfterDetect(s, boxes, s.lastScreenshotTime + 10001).imageAnalysis
      == Bound(OneShot(s.lastScreenshotTime + 10001))
  {
  }

  /** Since the cooldown starts at 0, the first person seen after binding at any time past 10000 ms arms. */
  lemma FirstDetectionArms(boxes: seq<BoundingBox>, now: Long)
    requires PersonDetected(boxes) && now > 10000
    ensures AfterDetect(AfterBind(Initial), boxes, now) == State(0, Bound(OneShot(now)))
  {
  }

  /** Before the camera is bound, `imageAnalyzer?.let` finds nothing to swap. */
  lemma UnboundNeverArms(boxes: seq<BoundingBox>, now: Long)
    ensures AfterDetect(Initial, boxes, now) == Initial
  {
  }

  /**
   * Arming again before the grabbed frame arrives replaces the grabber: one analyzer,
   * carrying the newer arming time; the cooldown is still the old one.
   */
  lemma RearmReplacesGrabber(s: State, boxes: seq<BoundingBox>, now: Long)
    requires OneShotArmed(s) && PersonDetected(boxes)
    requires CooldownElapsed(now, s.lastScreenshotTime)
    ensures AfterDetect(s, boxes, now) == State(s.lastScreenshotTime, Bound(OneShot(now)))
  {
  }

  /** The email is sent iff the insert returned a URI, whatever happened to the stream and the encoder. */
  lemma EmailIffInserted(armedAt: Long, last: Long, o: SaveOutcome)
    ensures var r := AfterFrame(State(last, Bound(OneShot(armedAt))), o);
      r.effect.Captured? &&
      (r.effect.email.Some? <==> o.inserted.Some?) &&
      (o.inserted.Some? ==> r.effect.email == Some(Email("Person Detected", o.inserted.value)))
  {
  }

  /** A failed encoding still mails the frame, and its toast says so. */
  lemma CompressFailureStillMails(armedAt: Long, last: Long, uri: Uri)
    ensures AfterFrame(State(last, Bound(OneShot(armedAt))), SaveOutcome(Some(uri), true, false)).effect
      == Captured(Some(Email("Person Detected", uri)), Some(FailedToSave))
  {
  }

  /**
   * Whatever the save outcome, the grabbed frame records the arming time (not the
   * frame's own time) as the last capture, and the rebind it posts returns to the detector.
   */
  lemma CaptureThenRebindResumes(armedAt: Long, last: Long, o: SaveOutcome)
    ensures AfterBind(AfterFrame(State(last, Bound(OneShot(armedAt))), o).state)
      == State(armedAt, Bound(Continuous))
  {
  }

  /**
   * The grabber does not deregister itself: a second frame reaching it before the
   * posted rebind runs is captured and mailed again, with the same arming time.
   */
  lemma SecondFrameBeforeRebindCapturesAgain(s: State, o1: SaveOutcome, o2: SaveOutcome)
    requires OneShotArmed(s)
    ensures var first := AfterFrame(s, o1);
      var second := AfterFrame(first.state, o2);
      second.effect.Captured? && second.state == first.state
  {
  }

  /**
   * The gate subtracts in `Long`: a clock reading far below the last capture
   * wraps around and passes it, so the cooldown can move backwards.
   */
  lemma NegativeClockWrapsPastCooldown()
    ensures var s := State(10001, Bound(Continuous));
      var armed := AfterDetect(s, [BoundingBox(PersonClass)], MinLong);
      armed.imageAnalysis == Bound(OneShot(MinLong)) &&
      AfterFrame(armed, SaveOutcome(None, false, false)).state.lastScreenshotTime < s.lastScreenshotTime
  {
  }
}
