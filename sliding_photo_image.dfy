/**
 * The `sp.image` property that SlidingPhoto adds to every UIView: the image is
 * kept by the view itself when it is a displayable (a UIImageView), otherwise as
 * its layer's contents, and setting one also picks the content mode and the
 * `contentsRect` crop.
 */
module SlidingPhotoImage {
  import opened Wrappers
  import opened Geometry
  import opened Images

  /** What the crop rule assigns for an image shown by a plain view. */
  function ModeFor(image: Size, view: Size): (m: ContentMode)
    requires image.IsPositive() && view.IsPositive()
    ensures m == ScaleToFill <==> IsTall(image, view)
    ensures m == ScaleAspectFill <==> !IsTall(image, view)
  {
    if IsTall(image, view) then ScaleToFill else ScaleAspectFill
  }

  /**
   * A tall image is stretched over the whole view from its crop, which has the
   * view's shape; any other image keeps its shape and fills the view.
   */
  lemma {:induction false} ShownWithoutDistortion(image: Size, view: Size)
    requires image.IsPositive() && view.IsPositive()
    ensures ModeFor(image, view) == ScaleToFill ==>
      (CropRect(image, view).height * image.height) * view.width == image.width * view.height
    ensures ModeFor(image, view) != ScaleToFill ==> CropRect(image, view) == UNIT_RECT
  {
    if IsTall(image, view) {
      CropMatchesViewAspect(image, view);
    }
  }

  /** `SlidingPhoto<Base>` over a UIView `base`: the parts of `base` the property touches. */
  class SlidingPhoto {
    /** Whether `base` conforms to SlidingPhotoDisplayable. */
    const isDisplayable: bool
    /** `base.bounds.size` */
    const bounds: Size

    /** The displayable's own `image` */
    var displayedImage: Option<UIImage>
    /** `base.layer.contents` */
    var layerContents: Option<CGImage>
    /** `base.contentMode` */
    var contentMode: ContentMode
    /** `base.layer.contentsRect` */
    var contentsRect: Rect

    /** `SlidingPhoto(base)`: wraps an existing view in whatever state it is in. */
    constructor (isDisplayable: bool, bounds: Size, displayedImage: Option<UIImage>,
                 layerContents: Option<CGImage>, contentMode: ContentMode, contentsRect: Rect)
      ensures this.isDisplayable == isDisplayable && this.bounds == bounds
      ensures this.displayedImage == displayedImage && this.layerContents == layerContents
      ensures this.contentMode == contentMode && this.contentsRect == contentsRect
    {
      this.isDisplayable := isDisplayable;
      this.bounds := bounds;
      this.displayedImage := displayedImage;
      this.layerContents := layerContents;
      this.contentMode := contentMode;
      this.contentsRect := contentsRect;
    }

    /** The getter: the displayable's image, else the layer's bitmap wrapped at scale 1. */
    function Image(): (r: Option<UIImage>)
      reads this
      ensures !isDisplayable && layerContents.None? ==> r.None?
      ensures !isDisplayable && layerContents.Some? ==> r == Some(Wrap(layerContents.value))
      ensures isDisplayable ==> r == displayedImage
    {
      if isDisplayable then displayedImage
      else if layerContents.None? then None
      else Some(Wrap(layerContents.value))
    }

    /** The setter. The fade that depends on the time spent is not modelled. */
    method SetImage(newValue: Option<UIImage>)
      requires bounds.IsPositive()
      requires newValue.Some? ==> newValue.value.IsPositive()
      modifies this`displayedImage, this`layerContents, this`contentMode, this`contentsRect
      ensures isDisplayable ==> displayedImage == newValue && layerContents == old(layerContents)
      ensures !isDisplayable ==> displayedImage == old(displayedImage)
      ensures !isDisplayable ==> layerContents == (if newValue.Some? then Some(newValue.value.cgImage) else None)
      ensures newValue.None? ==> contentMode == old(contentMode) && contentsRect == old(contentsRect)
      ensures newValue.Some? ==>
        && contentMode == ModeFor(newValue.value.Size(), bounds)
        && contentsRect == CropRect(newValue.value.Size(), bounds)
      ensures Image().None? <==> newValue.None?
      ensures newValue.Some? ==> Image().value.cgImage == newValue.value.cgImage
      ensures isDisplayable ==> Image() == newValue
    {
      if isDisplayable {
        displayedImage := newValue;
      } else {
        layerContents := if newValue.Some? then Some(newValue.value.cgImage) else None;
      }

      if newValue.Some? {
        var image := newValue.value;
        var iw := image.Size().width;
        var ih := image.Size().height;
        var vw := bounds.width;
        var vh := bounds.height;
        var scale := (ih / iw) / (vh / vw);
        if scale > 1.0 {
          contentMode := ScaleToFill;
          contentsRect := Rect(0.0, 0.0, 1.0, (iw / ih) * (vh / vw));
        } else {
          contentMode := ScaleAspectFill;
          contentsRect := Rect(0.0, 0.0, 1.0, 1.0);
        }
      }
    }
  }

  /**
   * Reading back what a plain view stores gives the same bitmap, and the crop rule
   * applied to what was read back agrees with the one the setter applied.
   */
  lemma {:induction false} ReadBackCropsAlike(image: UIImage, view: Size)
    requires image.IsPositive() && view.IsPositive()
    ensures Wrap(image.cgImage).IsPositive()
    ensures CropRect(Wrap(image.cgImage).Size(), view) == CropRect(image.Size(), view)
    ensures ModeFor(Wrap(image.cgImage).Size(), view) == ModeFor(image.Size(), view)
  {
    CropIgnoresScale(image, 1.0, view);
  }
}
