/**
 * The page arithmetic of SlidingPhotoView.scrollViewDidScroll: which page the
 * horizontal content offset shows, and the window of pages around it that must
 * have a loaded cell.
 */
module PageMath {
  import opened Wrappers

  /** Swift's `Int(_: CGFloat)`: truncation toward zero. */
  function Trunc(x: real): (r: int)
    ensures 0.0 <= x ==> r as real <= x < r as real + 1.0
    ensures x < 0.0 ==> r as real - 1.0 < x <= r as real
  {
    if x >= 0.0 then x.Floor else -((-x).Floor)
  }

  /** `Int(contentOffset.x / bounds.width + 0.5)` for a page width `pageWidth`. */
  function Page(offset: real, pageWidth: real): int
    requires pageWidth > 0.0
  {
    Trunc(offset / pageWidth + 0.5)
  }

  lemma MulPos(a: real, w: real)
    requires a > 0.0 && w > 0.0
    ensures a * w > 0.0
  {}

  lemma MulNonNeg(a: real, w: real)
    requires a >= 0.0 && w > 0.0
    ensures a * w >= 0.0
  {}

  lemma DivMul(o: real, w: real)
    requires w > 0.0
    ensures (o / w) * w == o
  {}

  /** Scaling `offset / pageWidth < b` back to points. */
  lemma BelowScaled(offset: real, pageWidth: real, b: real)
    requires pageWidth > 0.0
    requires offset / pageWidth < b
    ensures offset < b * pageWidth
  {
    var q := offset / pageWidth;
    DivMul(offset, pageWidth);
    MulPos(b - q, pageWidth);
    assert (b - q) * pageWidth == b * pageWidth - offset;
  }

  /** Scaling `a <= offset / pageWidth` back to points. */
  lemma AtLeastScaled(offset: real, pageWidth: real, a: real)
    requires pageWidth > 0.0
    requires a <= offset / pageWidth
    ensures a * pageWidth <= offset
  {
    var q := offset / pageWidth;
    DivMul(offset, pageWidth);
    MulNonNeg(q - a, pageWidth);
    assert (q - a) * pageWidth == offset - a * pageWidth;
  }

  /** Offsets from half a page before the first page onwards round to the nearest page. */
  lemma PageIsNearest(offset: real, pageWidth: real)
    requires pageWidth > 0.0
    requires offset >= -pageWidth / 2.0
    ensures var p := Page(offset, pageWidth) as real;
      (p - 0.5) * pageWidth <= offset < (p + 0.5) * pageWidth
  {
    var p := Page(offset, pageWidth) as real;
    assert offset / pageWidth >= -0.5 by {
      assert (-pageWidth / 2.0) / pageWidth == -0.5;
    }
    AtLeastScaled(offset, pageWidth, p - 0.5);
    BelowScaled(offset, pageWidth, p + 0.5);
  }

  /**
   * Truncation rather than rounding: every offset in (-1.5 W, 0.5 W) gives page 0,
   * although offsets in (-1.5 W, -0.5 W) lie nearer to page -1.
   */
  lemma PageTruncatesTowardZero(offset: real, pageWidth: real)
    requires pageWidth > 0.0
    requires -1.5 * pageWidth < offset < 0.5 * pageWidth
    ensures Page(offset, pageWidth) == 0
  {
    var x := offset / pageWidth + 0.5;
    assert offset == (x - 0.5) * pageWidth;
    assert -1.0 < x < 1.0;
  }

  /** The offset `scrollToItem` sets for item `k` shows page `k` again. */
  lemma PageOfItemOffset(k: int, pageWidth: real)
    requires pageWidth > 0.0
    requires k >= 0
    ensures Page(pageWidth * k as real, pageWidth) == k
  {
    assert (pageWidth * k as real) / pageWidth == k as real;
  }

  /** A closed range `lo ... hi` of page indices. */
  datatype Window = Window(lo: int, hi: int) {
    predicate Contains(i: int) { lo <= i <= hi }
  }

  function Max(a: int, b: int): int { if a < b then b else a }

  function Min(a: int, b: int): int { if a < b then a else b }

  /**
   * `max(page - 1, 0) ... min(page + 1, count - 1)`. Swift traps when the lower
   * bound exceeds the upper one; that case is `None`.
   */
  function VisibleWindow(page: int, count: int): (r: Option<Window>)
    ensures r.Some? <==> count >= 1 && -1 <= page <= count
    ensures r.Some? ==> 0 <= r.value.lo <= r.value.hi < count
    ensures r.Some? ==> forall i :: r.value.Contains(i) <==> 0 <= i < count && page - 1 <= i <= page + 1
    ensures 0 <= page < count ==> r.Some? && r.value.Contains(page)
  {
    var lo := Max(page - 1, 0);
    var hi := Min(page + 1, count - 1);
    if lo <= hi then Some(Window(lo, hi)) else None
  }

  /** The window never holds more than three pages. */
  lemma WindowHoldsAtMostThreePages(page: int, count: int)
    requires VisibleWindow(page, count).Some?
    ensures var w := VisibleWindow(page, count).value; w.hi - w.lo <= 2
  {
  }

}
