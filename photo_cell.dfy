/**
 * SlidingPhotoViewCell's geometry: the photo is laid out at the cell's width with
 * its own aspect ratio inside a zooming scroll view, centred while it is smaller
 * than the cell, and a double tap toggles between no zoom and the largest zoom
 * around the touched point.
 */
module PhotoCell {
  import opened Wrappers
  import opened Geometry
  import opened Images

  /** `scrollView.maximumZoomScale` */
  const MAX_ZOOM: real := 3.0

  /** The height of the laid-out photo: the image scaled to the cell's width, else the cell's height. */
  function FitHeight(image: Option<UIImage>, bounds: Size): (h: real)
    requires image.Some? ==> image.value.IsPositive()
    ensures image.Some? ==> h * image.value.Size().width == image.value.Size().height * bounds.width
    ensures image.None? ==> h == bounds.height
  {
    if image.Some? then image.value.Size().height * bounds.width / image.value.Size().width
    else bounds.height
  }

  /**
   * A photo is taller than the cell once laid out exactly when the crop rule calls
   * it tall: a tall photo scrolls vertically, any other is letterboxed.
   */
  lemma {:induction false} FitHeightExceedsBoundsIffTall(image: UIImage, bounds: Size)
    requires image.IsPositive() && bounds.IsPositive()
    ensures FitHeight(Some(image), bounds) > bounds.height <==> IsTall(image.Size(), bounds)
  {
    var s := image.Size();
    var h := FitHeight(Some(image), bounds);
    IsTallCrossMultiplied(s, bounds);
    ScaledComparison(h, s.width, bounds.height, s.height * bounds.width);
  }

  /** For `w > 0` and `h * w == p`: `h > b` exactly when `p > w * b`. */
  lemma ScaledComparison(h: real, w: real, b: real, p: real)
    requires w > 0.0 && h * w == p
    ensures h > b <==> p > w * b
  {
    if h > b {
      assert h * w > b * w;
    } else {
      assert h * w <= b * w;
    }
  }

  /** The insets `centerContents` assigns for a content of size `content` in a scroll view of size `bounds`. */
  function CenterInsets(content: Size, bounds: Size): (r: Insets)
    ensures r.top == r.bottom && r.left == r.right
    ensures r.top >= 0.0 && r.left >= 0.0
    ensures content.height >= bounds.height ==> r.top == 0.0
    ensures content.width >= bounds.width ==> r.left == 0.0
    ensures content.height < bounds.height ==> r.top + content.height + r.bottom == bounds.height
    ensures content.width < bounds.width ==> r.left + content.width + r.right == bounds.width
  {
    var top := if content.height < bounds.height then (bounds.height - content.height) * 0.5 else 0.0;
    var left := if content.width < bounds.width then (bounds.width - content.width) * 0.5 else 0.0;
    Insets(top, left, top, left)
  }

  /** The rectangle `onDoubleTap` zooms to: the cell's size over the largest zoom, centred on the touch. */
  function ZoomRect(touch: Point, bounds: Size): (r: Rect)
    ensures r.width * MAX_ZOOM == bounds.width && r.height * MAX_ZOOM == bounds.height
    ensures r.x + r.width * 0.5 == touch.x && r.y + r.height * 0.5 == touch.y
  {
    var width := bounds.width / MAX_ZOOM;
    var height := bounds.height / MAX_ZOOM;
    Rect(touch.x - width * 0.5, touch.y - height * 0.5, width, height)
  }

  /** What a double tap asks the scroll view to do. */
  datatype ZoomRequest = ResetZoom | ZoomTo(rect: Rect)

  class SlidingPhotoViewCell {
    /** `bounds.size` of the cell */
    var bounds: Size
    /** `scrollView.zoomScale` */
    var zoomScale: real
    /** `scrollView.frame`; the scroll view's own bounds have the same size */
    var scrollFrame: Rect
    /** `displayView.frame` */
    var displayFrame: Rect
    /** `scrollView.contentSize` */
    var contentSize: Size
    /** `scrollView.contentInset` */
    var contentInset: Insets
    /** `displayView.image` */
    var image: Option<UIImage>
    /** The cell's own `contentMode` */
    var contentMode: ContentMode
    /** The cell's own `layer.contentsRect` */
    var contentsRect: Rect

    /**
     * A shown image has a size. The zoom is not bounded: with `bouncesZoom` a pinch
     * rubber-bands past the zoom limits and the scroll view reports those scales too.
     */
    ghost predicate Valid()
      reads this
    {
      image.Some? ==> image.value.IsPositive()
    }

    /** `init(frame:)` and `setup()`: both subviews fill the cell, nothing is shown yet. */
    constructor (frame: Size)
      ensures Valid()
      ensures bounds == frame && image == None && zoomScale == 1.0
      ensures scrollFrame == Rect(0.0, 0.0, frame.width, frame.height) && displayFrame == scrollFrame
      ensures contentSize == Size(0.0, 0.0) && contentInset == ZERO_INSETS
      ensures contentMode == ScaleToFill && contentsRect == UNIT_RECT
    {
      bounds := frame;
      zoomScale := 1.0;
      scrollFrame := Rect(0.0, 0.0, frame.width, frame.height);
      displayFrame := Rect(0.0, 0.0, frame.width, frame.height);
      contentSize := Size(0.0, 0.0);
      contentInset := ZERO_INSETS;
      image := None;
      contentMode := ScaleToFill;
      contentsRect := UNIT_RECT;
    }

    /** `centerContents()` */
    method CenterContents()
      modifies this`contentInset
      ensures contentInset == CenterInsets(contentSize, Size(scrollFrame.width, scrollFrame.height))
    {
      var top: real, left: real := 0.0, 0.0;
      if contentSize.height < scrollFrame.height {
        top := (scrollFrame.height - contentSize.height) * 0.5;
      }
      if contentSize.width < scrollFrame.width {
        left := (scrollFrame.width - contentSize.width) * 0.5;
      }
      contentInset := Insets(top, left, top, left);
    }

    /**
     * `layoutContents()`: zoom reset, the photo at the cell's width and its own
     * aspect ratio, the content exactly the photo, centred.
     */
    method LayoutContents()
      requires Valid()
      modifies this`zoomScale, this`scrollFrame, this`displayFrame, this`contentSize, this`contentInset
      ensures Valid()
      ensures zoomScale == 1.0
      ensures scrollFrame == Rect(0.0, 0.0, bounds.width, bounds.height)
      ensures var h := FitHeight(image, bounds);
        && displayFrame == Rect(0.0, 0.0, bounds.width, h)
        && contentSize == Size(bounds.width, h)
        && contentInset == CenterInsets(contentSize, bounds)
    {
      zoomScale := 1.0;
      scrollFrame := Rect(0.0, 0.0, bounds.width, bounds.height);

      var height: real;
      if image.Some? {
        height := image.value.Size().height * bounds.width / image.value.Size().width;
      } else {
        height := bounds.height;
      }
      var size := Size(bounds.width, height);
      displayFrame := Rect(0.0, 0.0, size.width, size.height);
      contentSize := size;

      CenterContents();
    }

    /**
     * `scrollViewDidZoom(_:)`, after the scroll view has applied a zoom of
     * `newZoom` and resized its content to `newContentSize`.
     */
    method ScrollViewDidZoom(newZoom: real, newContentSize: Size)
      requires Valid()
      modifies this`zoomScale, this`contentSize, this`contentInset
      ensures Valid()
      ensures zoomScale == newZoom && contentSize == newContentSize
      ensures contentInset == CenterInsets(newContentSize, Size(scrollFrame.width, scrollFrame.height))
    {
      zoomScale := newZoom;
      contentSize := newContentSize;
      CenterContents();
    }

    /** `onDoubleTap(sender:)` with the touch located in the display view. */
    method OnDoubleTap(touch: Point) returns (request: ZoomRequest)
      ensures zoomScale > 1.0 <==> request == ResetZoom
      ensures request.ZoomTo? ==>
        && request.rect.width * MAX_ZOOM == bounds.width
        && request.rect.height * MAX_ZOOM == bounds.height
        && request.rect.x + request.rect.width * 0.5 == touch.x
        && request.rect.y + request.rect.height * 0.5 == touch.y
    {
      if zoomScale > 1.0 {
        request := ResetZoom;
      } else {
        var scale := MAX_ZOOM;
        var width := bounds.width / scale;
        var height := bounds.height / scale;
        request := ZoomTo(Rect(touch.x - width * 0.5, touch.y - height * 0.5, width, height));
      }
    }

    /**
     * The `image` setter: the image is handed to the display view, the cell's own
     * content mode and crop follow the crop rule, and the layout is redone. The
     * fade that depends on the time spent is not modelled.
     */
    method SetImage(newValue: Option<UIImage>)
      requires Valid() && bounds.IsPositive()
      requires newValue.Some? ==> newValue.value.IsPositive()
      modifies this`image, this`contentMode, this`contentsRect
      modifies this`zoomScale, this`scrollFrame, this`displayFrame, this`contentSize, this`contentInset
      ensures Valid() && image == newValue
      ensures newValue.None? ==> contentMode == old(contentMode) && contentsRect == old(contentsRect)
      ensures newValue.Some? ==>
        && contentMode == (if IsTall(newValue.value.Size(), bounds) then ScaleAspectFill else ScaleAspectFit)
        && contentsRect == CropRect(newValue.value.Size(), bounds)
      ensures zoomScale == 1.0
      ensures scrollFrame == Rect(0.0, 0.0, bounds.width, bounds.height)
      ensures var h := FitHeight(newValue, bounds);
        && displayFrame == Rect(0.0, 0.0, bounds.width, h)
        && contentSize == Size(bounds.width, h)
        && contentInset == CenterInsets(contentSize, bounds)
    {
      image := newValue;

      if newValue.Some? {
        var iw := newValue.value.Size().width;
        var ih := newValue.value.Size().height;
        var vw := bounds.width;
        var vh := bounds.height;
        var scale := (ih / iw) / (vh / vw);
        if scale > 1.0 {
          contentMode := ScaleAspectFill;
          contentsRect := Rect(0.0, 0.0, 1.0, (iw / ih) * (vh / vw));
        } else {
          contentMode := ScaleAspectFit;
          contentsRect := UNIT_RECT;
        }
      }

      LayoutContents();
    }
  }

  /**
   * After layout the photo spans the cell's width, so it is never inset sideways;
   * vertically it is centred when it is shorter than the cell and starts at the top
   * edge otherwise, which for a photo happens exactly when it is tall.
   */
  lemma {:induction false} LaidOutPhotoPlacement(image: UIImage, bounds: Size)
    requires image.IsPositive() && bounds.IsPositive()
    ensures var h := FitHeight(Some(image), bounds);
      var insets := CenterInsets(Size(bounds.width, h), bounds);
      && insets.left == 0.0 && insets.right == 0.0
      && (IsTall(image.Size(), bounds) ==> insets.top == 0.0 && insets.bottom == 0.0)
      && (!IsTall(image.Size(), bounds) ==> insets.top + h + insets.bottom == bounds.height)
  {
    FitHeightExceedsBoundsIffTall(image, bounds);
  }
}
