/**
 * SlidingPhotoViewController's dismiss pan (`onPan`): while the finger moves the
 * photo follows it vertically and the black backdrop fades; on release the photo
 * is either flung off screen and the controller dismissed, or snapped back.
 */
module PhotoController {
  import opened Wrappers
  import opened Geometry

  /** The UIGestureRecognizer states `onPan` can see. */
  datatype PanState = Possible | Began | Changed | Ended | Cancelled | Failed

  /** What a released pan does. */
  datatype Release = DismissUp | DismissDown | SnapBack

  /** The speed, in points per second, a release must exceed to dismiss. */
  const FLING_SPEED: real := 1000.0

  /** The duration of the snap-back animation and the longest dismiss animation, in seconds. */
  const ANIMATION_DURATION: real := 0.25

  /** `isMoveUp` / `isMoveDown`: a fast fling in the direction the photo was dragged. */
  function Classify(velocity: real, translation: real): (r: Release)
    ensures r == DismissUp <==> velocity < -FLING_SPEED && translation < 0.0
    ensures r == DismissDown <==> velocity > FLING_SPEED && translation > 0.0
    ensures r == SnapBack <==> !(velocity < -FLING_SPEED && translation < 0.0) && !(velocity > FLING_SPEED && translation > 0.0)
  {
    if velocity < -FLING_SPEED && translation < 0.0 then DismissUp
    else if velocity > FLING_SPEED && translation > 0.0 then DismissDown
    else SnapBack
  }

  /** A fling against the direction of the drag snaps back, however fast. */
  lemma FlingAgainstDragSnapsBack(velocity: real, translation: real)
    requires (velocity < 0.0 && translation > 0.0) || (velocity > 0.0 && translation < 0.0)
    ensures Classify(velocity, translation) == SnapBack
  {
  }

  /** A release no faster than the fling speed snaps back, however far the photo was dragged. */
  lemma SlowReleaseSnapsBack(velocity: real, translation: real)
    requires Abs(velocity) <= FLING_SPEED
    ensures Classify(velocity, translation) == SnapBack
  {
  }

  /** `1 - abs(translation / height)`: the backdrop's alpha while dragging. */
  function DragAlpha(translation: real, height: real): (a: real)
    requires height > 0.0
    ensures a * height == height - Abs(translation)
    ensures a <= 1.0 && (a == 1.0 <==> translation == 0.0)
    ensures a >= 0.0 <==> Abs(translation) <= height
  {
    1.0 - Abs(translation / height)
  }

  /** `0.25 * (height - abs(translation)) / height`: the dismiss animation covers the remaining distance. */
  function DismissDuration(translation: real, height: real): (d: real)
    requires height > 0.0
    ensures d * height == ANIMATION_DURATION * (height - Abs(translation))
    ensures translation == 0.0 ==> d == ANIMATION_DURATION
    ensures Abs(translation) <= height ==> 0.0 <= d <= ANIMATION_DURATION
  {
    ANIMATION_DURATION * (height - Abs(translation)) / height
  }

  /** The further the photo has already travelled, the shorter its dismiss animation. */
  lemma DismissDurationShrinks(t1: real, t2: real, height: real)
    requires height > 0.0
    requires Abs(t1) <= Abs(t2)
    ensures DismissDuration(t2, height) <= DismissDuration(t1, height)
  {
    DivideMonotone(ANIMATION_DURATION * (height - Abs(t2)), ANIMATION_DURATION * (height - Abs(t1)), height);
  }

  /** Dividing by a positive number keeps the order. */
  lemma DivideMonotone(x: real, y: real, d: real)
    requires d > 0.0 && x <= y
    ensures x / d <= y / d
  {
  }

  /**
   * A `UIView.animate` call: its duration, the translation and alpha its
   * `animations` block assigns, and whether its completion dismisses the controller.
   */
  datatype Animation = Animation(duration: real, toTranslation: real, toAlpha: real, thenDismiss: bool)

  /** The animation a release starts. */
  function ReleaseAnimation(velocity: real, translation: real, height: real): (a: Animation)
    requires height > 0.0
    ensures a.thenDismiss <==> Classify(velocity, translation) != SnapBack
    ensures Classify(velocity, translation) == DismissUp ==> a.toTranslation == -height
    ensures Classify(velocity, translation) == DismissDown ==> a.toTranslation == height
    ensures a.thenDismiss ==> a.toAlpha == 0.0 && a.duration == DismissDuration(translation, height)
    ensures !a.thenDismiss ==> a == Animation(ANIMATION_DURATION, 0.0, 1.0, false)
  {
    match Classify(velocity, translation)
    case DismissUp => Animation(DismissDuration(translation, height), height * -1.0, 0.0, true)
    case DismissDown => Animation(DismissDuration(translation, height), height * 1.0, 0.0, true)
    case SnapBack => Animation(ANIMATION_DURATION, 0.0, 1.0, false)
  }

  /**
   * A dismiss never leaves the photo partly on screen: it ends a full height away,
   * on the side it was dragged towards.
   */
  lemma DismissLeavesTheScreen(velocity: real, translation: real, height: real)
    requires height > 0.0
    requires ReleaseAnimation(velocity, translation, height).thenDismiss
    ensures var a := ReleaseAnimation(velocity, translation, height);
      Abs(a.toTranslation) == height && (a.toTranslation < 0.0 <==> translation < 0.0)
  {
  }

  class SlidingPhotoViewController {
    /**
     * The height of `view` and of `slidingPhotoView`, which the constraints of
     * `viewDidLoad` pin to the controller's view.
     */
    const height: real

    /** The `ty` of `slidingPhotoView.transform`; `.identity` is 0. */
    var translationY: real
    /** `backgroundView.alpha` */
    var backdropAlpha: real
    /** The last animation `onPan` started. */
    var lastAnimation: Option<Animation>

    constructor (height: real)
      requires height > 0.0
      ensures this.height == height
      ensures translationY == 0.0 && backdropAlpha == 1.0 && lastAnimation == None
    {
      this.height := height;
      translationY := 0.0;
      backdropAlpha := 1.0;
      lastAnimation := None;
    }

    /**
     * `onPan(sender:)` with the recognizer's state and its vertical translation and
     * velocity. `UIView.animate` assigns the final values of its `animations` block
     * at once; the dismissal itself waits for the completion.
     */
    method OnPan(state: PanState, translation: real, velocity: real)
      requires height > 0.0
      modifies this`translationY, this`backdropAlpha, this`lastAnimation
      ensures state == Changed ==>
        && translationY == translation
        && backdropAlpha == DragAlpha(translation, height)
        && lastAnimation == old(lastAnimation)
      ensures state == Ended ==>
        var a := ReleaseAnimation(velocity, translation, height);
        && lastAnimation == Some(a)
        && translationY == a.toTranslation
        && backdropAlpha == a.toAlpha
      ensures state != Changed && state != Ended ==>
        translationY == 0.0 && backdropAlpha == 1.0 && lastAnimation == old(lastAnimation)
    {
      match state
      case Changed =>
        var ratio := Abs(translation / height);
        translationY := translation;
        backdropAlpha := 1.0 - ratio;
      case Ended =>
        var isMoveUp := velocity < -FLING_SPEED && translation < 0.0;
        var isMoveDown := velocity > FLING_SPEED && translation > 0.0;
        if isMoveUp || isMoveDown {
          var duration := ANIMATION_DURATION * (height - Abs(translation)) / height;
          var target := height * (if isMoveUp then -1.0 else 1.0);
          lastAnimation := Some(Animation(duration, target, 0.0, true));
          translationY := target;
          backdropAlpha := 0.0;
        } else {
          lastAnimation := Some(Animation(ANIMATION_DURATION, 0.0, 1.0, false));
          translationY := 0.0;
          backdropAlpha := 1.0;
        }
      case _ =>
        translationY := 0.0;
        backdropAlpha := 1.0;
    }
  }
}
