/**
 * Images and the "top-anchored crop" rule shared by the `sp.image` setter and
 * SlidingPhotoViewCell's `image` setter: an image that is relatively taller than
 * the view it is shown in is cropped to its top part, full width, so that the part
 * shown has exactly the view's aspect ratio.
 */
module Images {
  import opened Geometry

  /** A bitmap (CGImage): an identity and its size in pixels. */
  datatype CGImage = CGImage(id: nat, pixelWidth: real, pixelHeight: real)

  /** An upright UIImage backed by a bitmap; its size in points is the pixel size over `scale`. */
  datatype UIImage = UIImage(cgImage: CGImage, scale: real) {
    predicate IsPositive() {
      cgImage.pixelWidth > 0.0 && cgImage.pixelHeight > 0.0 && scale > 0.0
    }

    function Size(): (s: Geometry.Size)
      requires IsPositive()
      ensures s.IsPositive()
      ensures s.width * scale == cgImage.pixelWidth && s.height * scale == cgImage.pixelHeight
    {
      Geometry.Size(cgImage.pixelWidth / scale, cgImage.pixelHeight / scale)
    }
  }

  /** `UIImage(cgImage:)`: the bitmap wrapped at scale 1. */
  function Wrap(cgImage: CGImage): (r: UIImage)
    ensures r.cgImage == cgImage && r.scale == 1.0
  {
    UIImage(cgImage, 1.0)
  }

  /** `(ih / iw) / (vh / vw)`: how much taller the image is than the view, relatively. */
  function Tallness(image: Size, view: Size): real
    requires image.IsPositive() && view.IsPositive()
  {
    (image.height / image.width) / (view.height / view.width)
  }

  /** The setters' test `scale > 1.0` (the NaN case cannot arise for positive sizes). */
  predicate IsTall(image: Size, view: Size)
    requires image.IsPositive() && view.IsPositive()
  {
    Tallness(image, view) > 1.0
  }

  /** Relatively taller means: the image's height-to-width ratio exceeds the view's. */
  lemma {:induction false} IsTallCrossMultiplied(image: Size, view: Size)
    requires image.IsPositive() && view.IsPositive()
    ensures IsTall(image, view) <==> image.height * view.width > image.width * view.height
  {
    var t := Tallness(image, view);
    var p := image.height * view.width;
    var q := image.width * view.height;
    assert t * q == p by {
      TallnessTimes(image, view);
    }
    assert q > 0.0 by {
      PositiveProduct(image.width, view.height);
    }
    if t > 1.0 {
      MoreThanFactor(t, q);
    }
    if p > q {
      assert t > 1.0 by {
        if t <= 1.0 {
          AtMostFactor(t, q);
        }
      }
    }
  }

  lemma TallnessTimes(image: Size, view: Size)
    requires image.IsPositive() && view.IsPositive()
    ensures Tallness(image, view) * (image.width * view.height) == image.height * view.width
  {
    var a := image.height / image.width;
    var b := view.height / view.width;
    assert a * image.width == image.height;
    assert b * view.width == view.height;
    calc {
      (a / b) * (image.width * view.height);
      (a / b) * (image.width * (b * view.width));
      ((a / b) * b) * (image.width * view.width);
      a * (image.width * view.width);
      (a * image.width) * view.width;
    }
  }

  lemma PositiveProduct(a: real, b: real)
    requires a > 0.0 && b > 0.0
    ensures a * b > 0.0
  {
  }

  lemma MoreThanFactor(t: real, q: real)
    requires t > 1.0 && q > 0.0
    ensures t * q > q
  {
  }

  lemma AtMostFactor(t: real, q: real)
    requires t <= 1.0 && q > 0.0
    ensures t * q <= q
  {
  }

  /**
   * The `contentsRect` the setters assign for an image: for a tall image the top
   * `(iw / ih) * (vh / vw)` of it, full width; otherwise the whole image.
   */
  function CropRect(image: Size, view: Size): (r: Rect)
    requires image.IsPositive() && view.IsPositive()
    ensures r.x == 0.0 && r.y == 0.0 && r.width == 1.0
    ensures IsTall(image, view) ==> 0.0 < r.height < 1.0 && r.height * Tallness(image, view) == 1.0
    ensures !IsTall(image, view) ==> r == UNIT_RECT
  {
    if IsTall(image, view) then
      Rect(0.0, 0.0, 1.0, (image.width / image.height) * (view.height / view.width))
    else
      UNIT_RECT
  }

  /**
   * The part of a tall image that is kept has the view's aspect ratio, so stretching
   * it to the view's bounds does not distort it.
   */
  lemma {:induction false} CropMatchesViewAspect(image: Size, view: Size)
    requires image.IsPositive() && view.IsPositive()
    requires IsTall(image, view)
    ensures (CropRect(image, view).height * image.height) * view.width == image.width * view.height
  {
    TallnessTimes(image, view);
    ReciprocalCancels(CropRect(image, view).height, Tallness(image, view),
                      image.height * view.width, image.width * view.height);
    Regroup(CropRect(image, view).height, image.height, view.width);
  }

  lemma ReciprocalCancels(h: real, t: real, p: real, q: real)
    requires h * t == 1.0 && t * q == p
    ensures h * p == q
  {
    calc {
      h * p;
      h * (t * q);
      (h * t) * q;
    }
  }

  lemma Regroup(a: real, b: real, c: real)
    ensures (a * b) * c == a * (b * c)
  {
  }

  /** The crop depends on the image's shape only, not on its scale factor. */
  lemma {:induction false} CropIgnoresScale(image: UIImage, scale: real, view: Size)
    requires image.IsPositive() && scale > 0.0 && view.IsPositive()
    ensures UIImage(image.cgImage, scale).IsPositive()
    ensures IsTall(UIImage(image.cgImage, scale).Size(), view) == IsTall(image.Size(), view)
    ensures CropRect(UIImage(image.cgImage, scale).Size(), view) == CropRect(image.Size(), view)
  {
    var a, b := image.Size(), UIImage(image.cgImage, scale).Size();
    assert a.height / a.width == b.height / b.width by {
      SameRatio(image.cgImage.pixelWidth, image.cgImage.pixelHeight, image.scale, scale);
    }
    assert a.width / a.height == b.width / b.height by {
      SameRatio(image.cgImage.pixelHeight, image.cgImage.pixelWidth, image.scale, scale);
    }
  }

  lemma SameRatio(w: real, h: real, s: real, u: real)
    requires w > 0.0 && h > 0.0 && s > 0.0 && u > 0.0
    ensures (h / s) / (w / s) == (h / u) / (w / u)
  {
    assert (h / s) / (w / s) == h / w;
    assert (h / u) / (w / u) == h / w;
  }
}
