/**
 * Runs of the capture state machine: the detector's callbacks, camera frames
 * and rebinds, taken one at a time in the order the activity processes them.
 */
module Trace {
  import opened Wrappers
  import opened Long64
  import opened Detection
  import opened Capture

  datatype Event =
    | Detect(boxes: seq<BoundingBox>, now: Long)
    | Frame(outcome: SaveOutcome)
    | Bind

  function Step(s: State, e: Event): State {
    match e
    case Detect(boxes, now) => AfterDetect(s, boxes, now)
    case Frame(o) => AfterFrame(s, o).state
    case Bind => AfterBind(s)
  }

  function Run(s: State, es: seq<Event>): State
    decreases |es|
  {
    if es == [] then s else Run(Step(s, es[0]), es[1..])
  }

  predicate ArmsAt(s: State, e: Event) {
    e.Detect? && Arms(s, e.boxes, e.now)
  }

  /** The times at which the detections of `es` armed a capture, oldest first. */
  function ArmingTimes(s: State, es: seq<Event>): seq<Long>
    decreases |es|
  {
    if es == [] then []
    else (if ArmsAt(s, es[0]) then [es[0].now] else []) + ArmingTimes(Step(s, es[0]), es[1..])
  }

  /** The mails launched along `es`. */
  function Emails(s: State, es: seq<Event>): seq<Email>
    decreases |es|
  {
    if es == [] then []
    else
      var sent := match es[0]
        case Frame(o) =>
          var eff := AfterFrame(s, o).effect;
          if eff.Captured? && eff.email.Some? then [eff.email.value] else []
        case _ => [];
      sent + Emails(Step(s, es[0]), es[1..])
  }

  /** The number of frames the grabber captured along `es`. */
  function Captures(s: State, es: seq<Event>): nat
    decreases |es|
  {
    if es == [] then 0
    else (if es[0].Frame? && OneShotArmed(s) then 1 else 0) + Captures(Step(s, es[0]), es[1..])
  }

  /** Clock readings handed to the detection callback are never before the epoch. */
  predicate ClockNonNegative(es: seq<Event>) {
    forall i :: 0 <= i < |es| && es[i].Detect? ==> 0 <= es[i].now
  }

  /** The cooldown is a non-negative reading, and an armed grabber carries a time no earlier. */
  predicate CooldownOrdered(s: State) {
    0 <= s.lastScreenshotTime &&
    (OneShotArmed(s) ==> s.lastScreenshotTime <= s.imageAnalysis.analyzer.armedAt)
  }

  // ---------------------------------------------------------------------------

  lemma {:induction false} RunConcat(s: State, a: seq<Event>, b: seq<Event>)
    ensures Run(s, a + b) == Run(Run(s, a), b)
    ensures Captures(s, a + b) == Captures(s, a) + Captures(Run(s, a), b)
    ensures Emails(s, a + b) == Emails(s, a) + Emails(Run(s, a), b)
    decreases |a|
  {
    if a == [] {
      assert a + b == b;
    } else {
      assert (a + b)[0] == a[0];
      assert (a + b)[1..] == a[1..] + b;
      RunConcat(Step(s, a[0]), a[1..], b);
    }
  }

  /** Every arming time exceeds the cooldown in force by more than 10000 ms. */
  lemma ArmingExceedsCooldown(s: State, e: Event)
    requires ArmsAt(s, e) && 0 <= e.now && 0 <= s.lastScreenshotTime
    ensures e.now > s.lastScreenshotTime + ScreenshotCooldown
    ensures Step(s, e).imageAnalysis == Bound(OneShot(e.now))
  {
  }

  lemma StepKeepsCooldownOrdered(s: State, e: Event)
    requires CooldownOrdered(s) && (e.Detect? ==> 0 <= e.now)
    ensures CooldownOrdered(Step(s, e))
    ensures s.lastScreenshotTime <= Step(s, e).lastScreenshotTime
  {
  }

  /**
   * With clock readings that are never negative, `lastScreenshotTime` never
   * decreases, whatever order the readings come in.
   */
  lemma {:induction false} CooldownNeverDecreases(s: State, es: seq<Event>)
    requires CooldownOrdered(s) && ClockNonNegative(es)
    ensures CooldownOrdered(Run(s, es))
    ensures s.lastScreenshotTime <= Run(s, es).lastScreenshotTime
    decreases |es|
  {
    if es != [] {
      StepKeepsCooldownOrdered(s, es[0]);
      assert ClockNonNegative(es[1..]) by {
        forall i | 0 <= i < |es[1..]| && es[1..][i].Detect?
          ensures 0 <= es[1..][i].now
        {
          assert es[1..][i] == es[i + 1];
        }
      }
      CooldownNeverDecreases(Step(s, es[0]), es[1..]);
    }
  }

  /** The same, between any two points of a run from the freshly created activity. */
  lemma CooldownMonotoneAlongRun(es: seq<Event>, i: nat, j: nat)
    requires ClockNonNegative(es) && i <= j <= |es|
    ensures Run(Initial, es[..i]).lastScreenshotTime <= Run(Initial, es[..j]).lastScreenshotTime
  {
    assert es[..j] == es[..i] + es[i..j];
    RunConcat(Initial, es[..i], es[i..j]);
    assert ClockNonNegative(es[..i]) by {
      forall k | 0 <= k < i && es[..i][k].Detect? ensures 0 <= es[..i][k].now {
        assert es[..i][k] == es[k];
      }
    }
    assert ClockNonNegative(es[i..j]) by {
      forall k | 0 <= k < j - i && es[i..j][k].Detect? ensures 0 <= es[i..j][k].now {
        assert es[i..j][k] == es[i + k];
      }
    }
    CooldownNeverDecreases(Initial, es[..i]);
    CooldownNeverDecreases(Run(Initial, es[..i]), es[i..j]);
  }

  /** Clock readings handed to the detection callback never go backwards. */
  predicate ClockNonDecreasing(es: seq<Event>) {
    forall i, j :: 0 <= i < j < |es| && es[i].Detect? && es[j].Detect? ==> es[i].now <= es[j].now
  }

  /** A registered grabber was armed no earlier than the cooldown it will replace. */
  predicate GrabberNotBeforeCooldown(s: State) {
    OneShotArmed(s) ==> s.lastScreenshotTime <= s.imageAnalysis.analyzer.armedAt
  }

  /**
   * Every reading in `es` comes no earlier than the cooldown (unless it is still the
   * initial 0) and than the arming time of a registered grabber.
   */
  predicate ReadingsNotBefore(s: State, es: seq<Event>) {
    forall i :: 0 <= i < |es| && es[i].Detect? ==>
      (s.lastScreenshotTime != 0 ==> s.lastScreenshotTime <= es[i].now) &&
      (OneShotArmed(s) ==> s.imageAnalysis.analyzer.armedAt <= es[i].now)
  }

  lemma ClockNonDecreasingSuffix(es: seq<Event>, k: nat)
    requires ClockNonDecreasing(es) && k <= |es|
    ensures ClockNonDecreasing(es[k..])
  {
    forall i, j | 0 <= i < j < |es[k..]| && es[k..][i].Detect? && es[k..][j].Detect?
      ensures es[k..][i].now <= es[k..][j].now
    {
      assert es[k..][i] == es[k + i] && es[k..][j] == es[k + j];
    }
  }

  /**
   * One event under a forward clock. An arming reading exceeds a cooldown of 0 by
   * the gate itself, and any other cooldown because it is an earlier reading.
   */
  lemma StepOnForwardClock(s: State, es: seq<Event>)
    requires es != [] && GrabberNotBeforeCooldown(s)
    requires ClockNonDecreasing(es) && ReadingsNotBefore(s, es)
    ensures GrabberNotBeforeCooldown(Step(s, es[0]))
    ensures ReadingsNotBefore(Step(s, es[0]), es[1..])
    ensures s.lastScreenshotTime <= Step(s, es[0]).lastScreenshotTime
  {
    var s1 := Step(s, es[0]);
    if ArmsAt(s, es[0]) {
      var n := es[0].now;
      if s.lastScreenshotTime == 0 {
        assert Minus(n, 0) == n;
      }
      assert s.lastScreenshotTime <= n;
      forall i | 0 <= i < |es[1..]| && es[1..][i].Detect?
        ensures n <= es[1..][i].now
      {
        assert es[1..][i] == es[i + 1];
      }
    }
    forall i | 0 <= i < |es[1..]| && es[1..][i].Detect?
      ensures (s1.lastScreenshotTime != 0 ==> s1.lastScreenshotTime <= es[1..][i].now) &&
              (OneShotArmed(s1) ==> s1.imageAnalysis.analyzer.armedAt <= es[1..][i].now)
    {
      assert es[1..][i] == es[i + 1];
    }
  }

  /** Runs a prefix `pre` of a forward-clock trace, keeping what the rest of the trace needs. */
  lemma {:induction false} ForwardClockRun(s: State, pre: seq<Event>, post: seq<Event>)
    requires GrabberNotBeforeCooldown(s)
    requires ClockNonDecreasing(pre + post) && ReadingsNotBefore(s, pre + post)
    ensures GrabberNotBeforeCooldown(Run(s, pre))
    ensures ReadingsNotBefore(Run(s, pre), post)
    ensures s.lastScreenshotTime <= Run(s, pre).lastScreenshotTime
    decreases |pre|
  {
    var es := pre + post;
    if pre == [] {
      assert es == post;
    } else {
      StepOnForwardClock(s, es);
      assert es[0] == pre[0];
      assert es[1..] == pre[1..] + post;
      ClockNonDecreasingSuffix(es, 1);
      ForwardClockRun(Step(s, es[0]), pre[1..], post);
    }
  }

  /**
   * If the clock never goes backwards, `lastScreenshotTime` never decreases along a
   * run from the freshly created activity, negative readings included.
   */
  lemma CooldownMonotoneOnForwardClock(es: seq<Event>, i: nat, j: nat)
    requires ClockNonDecreasing(es) && i <= j <= |es|
    ensures Run(Initial, es[..i]).lastScreenshotTime <= Run(Initial, es[..j]).lastScreenshotTime
  {
    assert es[..i] + es[i..] == es;
    ForwardClockRun(Initial, es[..i], es[i..]);
    var si := Run(Initial, es[..i]);
    ClockNonDecreasingSuffix(es, i);
    assert es[i..j] + es[j..] == es[i..];
    ForwardClockRun(si, es[i..j], es[j..]);
    assert es[..j] == es[..i] + es[i..j];
    RunConcat(Initial, es[..i], es[i..j]);
  }

  /**
   * A registered grabber carries the latest arming time of the run, or, when
   * nothing armed, is the grabber the run started with.
   */
  lemma {:induction false} GrabberCarriesLatestArming(s: State, es: seq<Event>)
    requires OneShotArmed(Run(s, es))
    ensures var times := ArmingTimes(s, es);
      if times == [] then Run(s, es).imageAnalysis == s.imageAnalysis
      else Run(s, es).imageAnalysis == Bound(OneShot(times[|times| - 1]))
    decreases |es|
  {
    if es != [] {
      var s1 := Step(s, es[0]);
      GrabberCarriesLatestArming(s1, es[1..]);
      var head := if ArmsAt(s, es[0]) then [es[0].now] else [];
      assert ArmingTimes(s, es) == head + ArmingTimes(s1, es[1..]);
    }
  }

  /** The cooldown a capture writes is the time of the most recent arming, not of the frame. */
  lemma CaptureRecordsLatestArming(es: seq<Event>, o: SaveOutcome)
    requires OneShotArmed(Run(Initial, es))
    ensures var times := ArmingTimes(Initial, es);
      times != [] && Run(Initial, es + [Frame(o)]).lastScreenshotTime == times[|times| - 1]
  {
    GrabberCarriesLatestArming(Initial, es);
    RunConcat(Initial, es, [Frame(o)]);
  }

  /** No mail is ever launched when every gallery insert fails. */
  lemma {:induction false} NoInsertNoEmail(s: State, es: seq<Event>)
    requires forall i :: 0 <= i < |es| && es[i].Frame? ==> es[i].outcome.inserted.None?
    ensures Emails(s, es) == []
    decreases |es|
  {
    if es != [] {
      assert es[0].Frame? ==> es[0].outcome.inserted.None?;
      forall i | 0 <= i < |es[1..]| && es[1..][i].Frame?
        ensures es[1..][i].outcome.inserted.None?
      {
        assert es[1..][i] == es[i + 1];
      }
      NoInsertNoEmail(Step(s, es[0]), es[1..]);
    }
  }

  /** Without a person in any batch, no grabber is ever installed and nothing is captured. */
  lemma {:induction false} NoPersonNoCapture(s: State, es: seq<Event>)
    requires !OneShotArmed(s)
    requires forall i :: 0 <= i < |es| && es[i].Detect? ==> !PersonDetected(es[i].boxes)
    ensures Captures(s, es) == 0 && ArmingTimes(s, es) == []
    ensures Run(s, es).lastScreenshotTime == s.lastScreenshotTime
    decreases |es|
  {
    if es != [] {
      assert es[0].Detect? ==> !PersonDetected(es[0].boxes);
      forall i | 0 <= i < |es[1..]| && es[1..][i].Detect?
        ensures !PersonDetected(es[1..][i].boxes)
      {
        assert es[1..][i] == es[i + 1];
      }
      NoPersonNoCapture(Step(s, es[0]), es[1..]);
    }
  }

  // ---------------------------------------------------------------------------
  // Scenarios

  const Person: seq<BoundingBox> := [BoundingBox(PersonClass)]
  const Stored: SaveOutcome := SaveOutcome(Some(Uri(1)), true, true)
  const InsertFailed: SaveOutcome := SaveOutcome(None, false, false)

  lemma PersonIsDetected()
    ensures PersonDetected(Person)
  {
  }

  /** Bind the camera, then see a person at `now`, grab the frame, and run the posted rebind. */
  function CaptureCycle(now: Long, o: SaveOutcome): seq<Event> {
    [Detect(Person, now), Frame(o), Bind]
  }

  /** From detection with the cooldown passed, one cycle captures once and resumes detection. */
  lemma CaptureCycleCapturesOnce(last: Long, now: Long, o: SaveOutcome)
    requires 0 <= last && 0 <= now && now - last > ScreenshotCooldown
    ensures var s := State(last, Bound(Continuous));
      Run(s, CaptureCycle(now, o)) == State(now, Bound(Continuous)) &&
      Captures(s, CaptureCycle(now, o)) == 1 &&
      Emails(s, CaptureCycle(now, o)) == if o.inserted.Some? then [Email(EmailSubject, o.inserted.value)] else []
  {
    PersonIsDetected();
    var es := CaptureCycle(now, o);
    var s0 := State(last, Bound(Continuous));
    var s1 := Step(s0, es[0]);
    var s2 := Step(s1, es[1]);
    var s3 := Step(s2, es[2]);
    assert s1 == State(last, Bound(OneShot(now)));
    assert s2 == State(now, Bound(OneShot(now)));
    assert s3 == State(now, Bound(Continuous));
    assert es[1..] == [Frame(o), Bind] && es[1..][1..] == [Bind] && [Bind][1..] == [];
    assert Run(s2, [Bind]) == s3 && Captures(s2, [Bind]) == 0 && Emails(s2, [Bind]) == [];
    assert Run(s1, es[1..]) == s3 && Captures(s1, es[1..]) == 1;
  }

  /** A person at `t` and again 5000 ms later: one capture; the second sighting is suppressed. */
  lemma {:induction false} RetriggerWithinCooldownSuppressed(t: Long)
    requires 10000 < t <= MaxLong - 20000
    ensures var es := [Bind] + CaptureCycle(t, Stored) + [Detect(Person, t + 5000), Frame(Stored)];
      Captures(Initial, es) == 1 && Run(Initial, es) == State(t, Bound(Continuous))
      && Emails(Initial, es) == [Email(EmailSubject, Uri(1))]
  {
    PersonIsDetected();
    var s1 := State(0, Bound(Continuous));
    var tail := [Detect(Person, t + 5000), Frame(Stored)];
    var es := [Bind] + CaptureCycle(t, Stored) + tail;
    assert es == [Bind] + (CaptureCycle(t, Stored) + tail);
    RunConcat(Initial, [Bind], CaptureCycle(t, Stored) + tail);
    assert Run(Initial, [Bind]) == s1 && Captures(Initial, [Bind]) == 0 && Emails(Initial, [Bind]) == [];
    RunConcat(s1, CaptureCycle(t, Stored), tail);
    CaptureCycleCapturesOnce(0, t, Stored);
    var s2 := State(t, Bound(Continuous));
    assert Step(s2, tail[0]) == s2;
    assert tail[1..] == [Frame(Stored)] && [Frame(Stored)][1..] == [];
    assert Run(s2, [Frame(Stored)]) == s2 && Captures(s2, [Frame(Stored)]) == 0 && Emails(s2, [Frame(Stored)]) == [];
    assert Run(s2, tail) == s2 && Captures(s2, tail) == 0 && Emails(s2, tail) == [];
  }

  /** A person at `t` and again 11000 ms later: two captures, two mails. */
  lemma {:induction false} RetriggerAfterCooldownCaptures(t: Long)
    requires 10000 < t <= MaxLong - 20000
    ensures var es := [Bind] + CaptureCycle(t, Stored) + CaptureCycle(t + 11000, Stored);
      Captures(Initial, es) == 2 && Run(Initial, es) == State(t + 11000, Bound(Continuous))
      && Emails(Initial, es) == [Email(EmailSubject, Uri(1)), Email(EmailSubject, Uri(1))]
  {
    var s1 := State(0, Bound(Continuous));
    var tail := CaptureCycle(t + 11000, Stored);
    var es := [Bind] + CaptureCycle(t, Stored) + tail;
    assert es == [Bind] + (CaptureCycle(t, Stored) + tail);
    RunConcat(Initial, [Bind], CaptureCycle(t, Stored) + tail);
    assert Run(Initial, [Bind]) == s1 && Captures(Initial, [Bind]) == 0 && Emails(Initial, [Bind]) == [];
    RunConcat(s1, CaptureCycle(t, Stored), tail);
    CaptureCycleCapturesOnce(0, t, Stored);
    CaptureCycleCapturesOnce(t, t + 11000, Stored);
  }

  /**
   * A failed insert mails nothing, yet it still starts the cooldown and the rebind
   * resumes detection: a person 1 ms later is not captured.
   */
  lemma {:induction false} FailedInsertStillStartsCooldown(t: Long)
    requires 10000 < t <= MaxLong - 20000
    ensures var es := [Bind] + CaptureCycle(t, InsertFailed) + [Detect(Person, t + 1)];
      Captures(Initial, es) == 1 && Emails(Initial, es) == []
      && Run(Initial, es) == State(t, Bound(Continuous))
  {
    PersonIsDetected();
    var s1 := State(0, Bound(Continuous));
    var tail := [Detect(Person, t + 1)];
    var es := [Bind] + CaptureCycle(t, InsertFailed) + tail;
    assert es == [Bind] + (CaptureCycle(t, InsertFailed) + tail);
    RunConcat(Initial, [Bind], CaptureCycle(t, InsertFailed) + tail);
    assert Run(Initial, [Bind]) == s1 && Captures(Initial, [Bind]) == 0 && Emails(Initial, [Bind]) == [];
    RunConcat(s1, CaptureCycle(t, InsertFailed), tail);
    CaptureCycleCapturesOnce(0, t, InsertFailed);
    var s2 := State(t, Bound(Continuous));
    assert Step(s2, tail[0]) == s2 && tail[1..] == [];
    assert Run(s2, tail) == s2 && Captures(s2, tail) == 0 && Emails(s2, tail) == [];
  }
}
