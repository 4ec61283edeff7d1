/**
 * `MainActivity` as an object: the cooldown field and the `imageAnalyzer`
 * use case are updated in place, and each event handler is proved to move
 * the abstract state exactly as the matching `Capture` function says.
 */
module Activity {
  import opened Wrappers
  import opened Long64
  import opened Detection
  import Capture

  /** A camera `ImageAnalysis` use case: one analyzer slot, cleared and set in place. */
  class ImageAnalysis {
    var analyzer: Option<Capture.Analyzer>

    constructor ()
      ensures analyzer == None
    {
      analyzer := None;
    }

    method ClearAnalyzer()
      modifies this
      ensures analyzer == None
    {
      analyzer := None;
    }

    /** Registers `a`, replacing whatever was registered. */
    method SetAnalyzer(a: Capture.Analyzer)
      modifies this
      ensures analyzer == Some(a)
    {
      analyzer := Some(a);
    }
  }

  class MainActivity {
    var lastScreenshotTime: Long
    var imageAnalyzer: ImageAnalysis?

    /** Once a use case is bound, exactly one analyzer is registered on it. */
    ghost predicate Valid()
      reads this, imageAnalyzer
    {
      imageAnalyzer != null ==> imageAnalyzer.analyzer.Some?
    }

    ghost function Model(): Capture.State
      reads this, imageAnalyzer
      requires Valid()
    {
      Capture.State(lastScreenshotTime,
        if imageAnalyzer == null then Capture.Unbound
        else Capture.Bound(imageAnalyzer.analyzer.value))
    }

    constructor ()
      ensures Valid() && Model() == Capture.Initial
    {
      lastScreenshotTime := 0;
      imageAnalyzer := null;
    }

    /**
     * The detector's callback. Only the analyzer slot may change; the cooldown
     * field is outside the frame, so arming never touches it.
     */
    method OnDetect(boundingBoxes: seq<BoundingBox>, currentTime: Long)
      requires Valid()
      modifies imageAnalyzer
      ensures Valid()
      ensures Model() == Capture.AfterDetect(old(Model()), boundingBoxes, currentTime)
    {
      var personDetected := PersonDetected(boundingBoxes);
      if personDetected {
        if Minus(currentTime, lastScreenshotTime) > Capture.ScreenshotCooldown {
          if imageAnalyzer != null {
            imageAnalyzer.ClearAnalyzer();
            imageAnalyzer.SetAnalyzer(Capture.OneShot(currentTime));
          }
        }
      }
    }

    /** Inserts the image; the URI is returned whenever the insert gave one, whatever the encoder did. */
    method SaveScreenshotToGallery(o: Capture.SaveOutcome) returns (uri: Option<Capture.Uri>, toast: Option<Capture.Toast>)
      ensures Capture.Saved(uri, toast) == Capture.SavedScreenshot(o)
    {
      uri := o.inserted;
      toast := None;
      if uri.Some? {
        if !o.streamOpened {
          toast := Some(Capture.FailedToOpenStream);
        } else if o.compressed {
          toast := Some(Capture.ScreenshotSaved);
        } else {
          toast := Some(Capture.FailedToSave);
        }
      }
    }

    /**
     * A camera frame reaching the registered analyzer. The continuous detector's
     * result comes back later through `OnDetect`; the grabber saves, mails and
     * records its arming time, and leaves the rebind to `BindCameraUseCases`.
     */
    method DeliverFrame(o: Capture.SaveOutcome) returns (effect: Capture.FrameEffect)
      requires Valid()
      modifies this
      ensures Valid() && imageAnalyzer == old(imageAnalyzer)
      ensures Capture.FrameStep(Model(), effect) == Capture.AfterFrame(old(Model()), o)
    {
      if imageAnalyzer == null {
        effect := Capture.NotDelivered;
        return;
      }
      match imageAnalyzer.analyzer.value
      case Continuous =>
        effect := Capture.Analyzed;
      case OneShot(currentTime) =>
        var imageUri, toast := SaveScreenshotToGallery(o);
        var email: Option<Capture.Email> := None;
        if imageUri.Some? {
          email := Some(Capture.Email(Capture.EmailSubject, imageUri.value));
        }
        lastScreenshotTime := currentTime;
        effect := Capture.Captured(email, toast);
    }

    /** Builds a new analysis use case that runs the continuous detector. */
    method BindCameraUseCases()
      requires Valid()
      modifies this
      ensures Valid() && fresh(imageAnalyzer)
      ensures Model() == Capture.AfterBind(old(Model()))
    {
      var analysis := new ImageAnalysis();
      analysis.SetAnalyzer(Capture.Continuous);
      imageAnalyzer := analysis;
    }
  }
}
