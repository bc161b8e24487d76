/**
 * SlidingPhotoView: the paging surface. It keeps the reuse pool of cells, binds
 * the cells of the pages around the scroll position, asks its data source to
 * prepare each cell once per binding, and reports the focused page to its
 * delegate when it changes. It also decides whether the dismiss pan may begin.
 */
module PhotoView {
  import opened Wrappers
  import opened Geometry
  import opened PageMath
  import opened CellPool

  /** The inner scroll view state of the focused cell that the dismiss-pan test reads. */
  datatype InnerScroll = InnerScroll(
    zoomScale: real,
    isDragging: bool,
    isDecelerating: bool,
    contentHeight: real,
    boundsHeight: real,
    offsetY: real)

  /**
   * `gestureRecognizerShouldBegin` for the dismiss pan, given the pan velocity
   * and the focused cell's inner scroll state (`None` when no cell is bound to
   * the current page).
   */
  function ShouldBeginDismiss(vx: real, vy: real, focused: Option<InnerScroll>): (b: bool)
    ensures b <==>
      && Abs(vy) > Abs(vx)
      && focused.Some?
      && focused.value.zoomScale == 1.0
      && !focused.value.isDragging
      && !focused.value.isDecelerating
      && var f := focused.value;
         || f.contentHeight <= f.boundsHeight
         || (f.offsetY <= 0.0 && vy > 250.0)
         || (f.offsetY > 0.0 && f.offsetY + f.boundsHeight >= f.contentHeight && vy < -250.0)
  {
    if Abs(vy) > Abs(vx) && focused.Some? && focused.value.zoomScale == 1.0
       && !focused.value.isDragging && !focused.value.isDecelerating
    then
      var f := focused.value;
      if f.contentHeight > f.boundsHeight then
        if f.offsetY <= 0.0 then vy > 250.0
        else if f.offsetY + f.boundsHeight >= f.contentHeight then vy < -250.0
        else false
      else true
    else false
  }

  /** A tall image scrolled away from both of its edges never lets the dismiss pan begin. */
  lemma MidScrollBlocksDismiss(vx: real, vy: real, f: InnerScroll)
    requires f.contentHeight > f.boundsHeight
    requires 0.0 < f.offsetY && f.offsetY + f.boundsHeight < f.contentHeight
    ensures !ShouldBeginDismiss(vx, vy, Some(f))
  {
  }

  /** A vertical pan over an unzoomed, resting image that fits the cell's height always begins. */
  lemma FittingImageAllowsVerticalDismiss(vx: real, vy: real, f: InnerScroll)
    requires Abs(vy) > Abs(vx)
    requires f.zoomScale == 1.0 && !f.isDragging && !f.isDecelerating
    requires f.contentHeight <= f.boundsHeight
    ensures ShouldBeginDismiss(vx, vy, Some(f))
  {
  }

  /**
   * The kind of cell `dequeueReusableCell` creates when no cell is free: the
   * registered class, else the registered nib, else the default class.
   */
  function NewCellKind(cellClass: Option<string>, cellNib: Option<string>): CellKind {
    if cellClass.Some? then ClassCell(cellClass.value)
    else if cellNib.Some? then NibCell(cellNib.value)
    else DefaultCell
  }

  /**
   * The calls of an optional delegate method that reach the delegate: all of
   * them when it implements the method, none otherwise (`delegate?.method?(...)`).
   */
  function Delivered(implemented: bool, calls: seq<Notice>): (r: seq<Notice>)
    ensures implemented ==> r == calls
    ensures !implemented ==> r == []
  {
    if implemented then calls else []
  }

  class SlidingPhotoView {
    /** Width of the view's bounds: the width of one cell. */
    const boundsWidth: real
    /** `pageSpacing`; the paging scroll view is `boundsWidth + pageSpacing` wide. */
    const pageSpacing: real
    /** Whether the delegate implements `didUpdateFocus`. */
    const observesFocus: bool
    /** Whether the delegate implements `didEndDisplaying`. */
    const observesEnd: bool

    /** `scrollView.contentOffset.x` */
    var contentOffset: real
    var currentPage: int
    /** `reusableCells` */
    var cells: seq<Cell>
    var cellClass: Option<string>
    var cellNib: Option<string>

    /** `prepareForDisplay` calls made on the data source. */
    ghost var prepareLog: seq<Notice>
    /** `didEndDisplaying` calls made on the delegate. */
    ghost var endLog: seq<Notice>
    /** `didUpdateFocus` calls made on the delegate. */
    ghost var focusLog: seq<Notice>

    /** `scrollView.bounds.width`: one page. */
    function PageWidth(): real {
      boundsWidth + pageSpacing
    }

    ghost predicate Valid()
      reads this
    {
      && PageWidth() > 0.0
      && UniqueBindings(cells)
      && !(cellClass.Some? && cellNib.Some?)
    }


    constructor (boundsWidth: real, pageSpacing: real, observesFocus: bool, observesEnd: bool)
      requires boundsWidth + pageSpacing > 0.0
      ensures Valid()
      ensures this.boundsWidth == boundsWidth && this.pageSpacing == pageSpacing
      ensures this.observesFocus == observesFocus && this.observesEnd == observesEnd
      ensures contentOffset == 0.0 && currentPage == 0 && cells == []
      ensures cellClass == None && cellNib == None
      ensures prepareLog == [] && endLog == [] && focusLog == []
    {
      this.boundsWidth := boundsWidth;
      this.pageSpacing := pageSpacing;
      this.observesFocus := observesFocus;
      this.observesEnd := observesEnd;
      contentOffset := 0.0;
      currentPage := 0;
      cells := [];
      cellClass := None;
      cellNib := None;
      prepareLog := [];
      endLog := [];
      focusLog := [];
    }

    /** `register(_: T.Type)`: ignored once a nib is registered. */
    method RegisterClass(name: string)
      requires Valid()
      modifies this`cellClass
      ensures Valid()
      ensures cellClass == if cellNib.Some? then old(cellClass) else Some(name)
    {
      if cellNib.Some? {
        return;
      }
      cellClass := Some(name);
    }

    /** `register(_: UINib)`: ignored once a class is registered. */
    method RegisterNib(name: string)
      requires Valid()
      modifies this`cellNib
      ensures Valid()
      ensures cellNib == if cellClass.Some? then old(cellNib) else Some(name)
    {
      if cellClass.Some? {
        return;
      }
      cellNib := Some(name);
    }

    /** `dequeueReusableCell(for:)`, called only when no cell is bound to `index`. */
    method DequeueReusableCell(index: int) returns (slot: nat)
      requires Valid()
      requires LoadedCell(cells, index).None?
      modifies this`cells
      ensures Valid()
      ensures Acquired(cells, slot) == Dequeue(old(cells), index, boundsWidth, pageSpacing, NewCellKind(cellClass, cellNib))
      ensures |old(cells)| <= |cells| <= |old(cells)| + 1
    {
      AcquireKeepsPool(cells, index, boundsWidth, pageSpacing, NewCellKind(cellClass, cellNib));
      var reused := FirstUnprepared(cells);
      var one: Cell;
      if reused.Some? {
        slot := reused.value;
        one := cells[slot];
      } else {
        slot := |cells|;
        one := FreshCell(NewCellKind(cellClass, cellNib));
      }
      one := Bind(one, index, boundsWidth, pageSpacing);
      if reused.None? {
        cells := cells + [one];
      } else {
        cells := cells[slot := one];
      }
    }

    /** `acquireCell(for:)`: the cell bound to `index`, binding one if there is none. */
    method AcquireCell(index: int) returns (slot: nat)
      requires Valid()
      modifies this`cells
      ensures Valid()
      ensures Acquired(cells, slot) == Acquire(old(cells), index, boundsWidth, pageSpacing, NewCellKind(cellClass, cellNib))
      ensures cells[slot].index == index
      ensures |old(cells)| <= |cells| <= |old(cells)| + 1
    {
      var loaded := LoadedCell(cells, index);
      if loaded.Some? {
        slot := loaded.value;
      } else {
        slot := DequeueReusableCell(index);
      }
    }

    /** Assignment to `currentPage` with its `didSet` observer. */
    method SetCurrentPage(page: int)
      requires Valid()
      modifies this`currentPage, this`cells, this`focusLog
      ensures Valid()
      ensures currentPage == page
      ensures old(currentPage) != page && observesFocus ==>
        var a := Acquire(old(cells), page, boundsWidth, pageSpacing, NewCellKind(cellClass, cellNib));
        cells == a.pool && focusLog == old(focusLog) + [Notice(a.slot, page)]
      ensures !(old(currentPage) != page && observesFocus) ==>
        cells == old(cells) && focusLog == old(focusLog)
    {
      var oldValue := currentPage;
      currentPage := page;
      if oldValue != currentPage && observesFocus {
        var slot := AcquireCell(currentPage);
        focusLog := focusLog + [Notice(slot, currentPage)];
      }
    }

    /**
     * `scrollToItem(at:animated:)`: the content offset becomes that of page
     * `index`, then `currentPage` is set. Without animation `setContentOffset`
     * calls `scrollViewDidScroll` at the new offset before it returns; `itemCount`
     * is what the data source answers there (None without a data source). With
     * animation the callbacks come later, while the scroll view moves.
     */
    method ScrollToItem(index: int, animated: bool, itemCount: Option<int>)
      requires Valid()
      requires !animated && itemCount.Some? ==>
        ScrollWindow(PageWidth() * index as real, PageWidth(), itemCount.value).Some?
      modifies this`contentOffset, this`currentPage, this`cells, this`prepareLog, this`endLog, this`focusLog
      ensures Valid()
      ensures contentOffset == PageWidth() * index as real
      ensures currentPage == index
      ensures animated || itemCount.None? ==>
        && prepareLog == old(prepareLog) && endLog == old(endLog)
        && (old(currentPage) != index && observesFocus ==>
              var a := Acquire(old(cells), index, boundsWidth, pageSpacing, NewCellKind(cellClass, cellNib));
              cells == a.pool && focusLog == old(focusLog) + [Notice(a.slot, index)])
        && (!(old(currentPage) != index && observesFocus) ==>
              cells == old(cells) && focusLog == old(focusLog))
      ensures !animated && itemCount.Some? ==>
        var c := DidScroll(old(cells), PageWidth() * index as real, PageWidth(), itemCount.value,
                           boundsWidth, pageSpacing, NewCellKind(cellClass, cellNib), old(currentPage), observesFocus);
        && prepareLog == old(prepareLog) + c.prepared
        && endLog == old(endLog) + Delivered(observesEnd, c.ended)
        && (c.page != index && observesFocus ==>
              var a := Acquire(c.pool, index, boundsWidth, pageSpacing, NewCellKind(cellClass, cellNib));
              cells == a.pool && focusLog == old(focusLog) + c.focused + [Notice(a.slot, index)])
        && (!(c.page != index && observesFocus) ==>
              cells == c.pool && focusLog == old(focusLog) + c.focused)
    {
      contentOffset := PageWidth() * index as real;
      if !animated {
        ScrollViewDidScroll(itemCount);
      }
      SetCurrentPage(index);
    }

    /** `purgeCellsExclude(_:)` */
    method PurgeCellsExclude(window: Window)
      requires Valid()
      modifies this`cells, this`endLog
      ensures Valid()
      ensures cells == Purge(old(cells), window, contentOffset, PageWidth())
      ensures endLog == old(endLog) + Delivered(observesEnd, EndNotices(old(cells), window, contentOffset, PageWidth()))
    {
      ghost var pool := cells;
      PurgeResetsExactlyStale(pool, window, contentOffset, PageWidth());
      var k := 0;
      while k < |cells|
        invariant 0 <= k <= |cells| == |pool|
        invariant forall j :: 0 <= j < k ==> cells[j] == PurgeCell(pool[j], window, contentOffset, PageWidth())
        invariant forall j :: k <= j < |pool| ==> cells[j] == pool[j]
        invariant endLog == old(endLog) + Delivered(observesEnd, EndNotices(pool[..k], window, contentOffset, PageWidth()))
      {
        assert pool[..k + 1][..k] == pool[..k];
        if IsStale(cells[k], window, contentOffset, PageWidth()) {
          if observesEnd {
            endLog := endLog + [Notice(k, cells[k].index)];
          }
          cells := cells[k := Reset(cells[k])];
        }
        k := k + 1;
      }
      assert pool[..k] == pool;
      assert cells == Purge(pool, window, contentOffset, PageWidth());
    }

    /** One turn of the loop below, for page `index`. */
    method PrepareCell(index: int)
      requires Valid()
      modifies this`cells, this`prepareLog
      ensures Valid()
      ensures cells == FillStep(old(cells), index, boundsWidth, pageSpacing, NewCellKind(cellClass, cellNib))
      ensures prepareLog == old(prepareLog) + StepNotices(old(cells), index, boundsWidth, pageSpacing, NewCellKind(cellClass, cellNib))
    {
      var slot := AcquireCell(index);
      if !cells[slot].prepared {
        cells := cells[slot := cells[slot].(prepared := true)];
        prepareLog := prepareLog + [Notice(slot, index)];
      }
    }

    /**
     * The `for index in range` loop of `scrollViewDidScroll`: acquire each page's
     * cell and, when it is not prepared, mark it and ask the data source to prepare it.
     */
    method PrepareWindow(lo: int, hi: int)
      requires Valid()
      requires 0 <= lo
      modifies this`cells, this`prepareLog
      ensures Valid()
      ensures var r := Fill(old(cells), lo, hi, boundsWidth, pageSpacing, NewCellKind(cellClass, cellNib));
        cells == r.pool && prepareLog == old(prepareLog) + r.notices
    {
      ghost var kind := NewCellKind(cellClass, cellNib);
      ghost var target := Fill(cells, lo, hi, boundsWidth, pageSpacing, kind);
      var index := lo;
      while index <= hi
        invariant lo <= index
        invariant Valid() && NewCellKind(cellClass, cellNib) == kind
        invariant Fill(cells, index, hi, boundsWidth, pageSpacing, kind).pool == target.pool
        invariant prepareLog + Fill(cells, index, hi, boundsWidth, pageSpacing, kind).notices
               == old(prepareLog) + target.notices
        decreases hi - index
      {
        ghost var before, log := cells, prepareLog;
        FillPeel(cells, index, hi, boundsWidth, pageSpacing, kind);
        PrepareCell(index);
        AppendAssoc(log, StepNotices(before, index, boundsWidth, pageSpacing, kind),
                    Fill(cells, index + 1, hi, boundsWidth, pageSpacing, kind).notices);
        index := index + 1;
      }
    }

    /**
     * The body of `scrollViewDidScroll` up to the `currentPage` assignment: purge the
     * cells outside the window, then acquire and prepare each page of the window.
     */
    method LoadWindow(itemCount: int)
      requires Valid()
      requires ScrollWindow(contentOffset, PageWidth(), itemCount).Some?
      modifies this`cells, this`prepareLog, this`endLog
      ensures Valid()
      ensures var s := ScrollPool(old(cells), contentOffset, PageWidth(), itemCount,
                                  boundsWidth, pageSpacing, NewCellKind(cellClass, cellNib));
        && cells == s.pool
        && endLog == old(endLog) + Delivered(observesEnd, s.ended)
        && prepareLog == old(prepareLog) + s.prepared
    {
      var page := Page(contentOffset, PageWidth());
      var window := VisibleWindow(page, itemCount).value;
      ScrollReadiesWindow(cells, contentOffset, PageWidth(), itemCount, boundsWidth, pageSpacing,
                          NewCellKind(cellClass, cellNib));
      PurgeCellsExclude(window);
      PrepareWindow(window.lo, window.hi);
    }

    /**
     * `scrollViewDidScroll(_:)`. `itemCount` is the data source's `numberOfItems`,
     * `None` when there is no data source. Swift traps when the window
     * `max(page - 1, 0) ... min(page + 1, itemCount - 1)` is empty.
     */
    method ScrollViewDidScroll(itemCount: Option<int>)
      requires Valid()
      requires itemCount.Some? ==> ScrollWindow(contentOffset, PageWidth(), itemCount.value).Some?
      modifies this`cells, this`currentPage, this`prepareLog, this`endLog, this`focusLog
      ensures Valid()
      ensures itemCount.None? ==>
        && cells == old(cells) && currentPage == old(currentPage)
        && prepareLog == old(prepareLog) && endLog == old(endLog) && focusLog == old(focusLog)
      ensures itemCount.Some? ==>
        var c := DidScroll(old(cells), contentOffset, PageWidth(), itemCount.value,
                           boundsWidth, pageSpacing, NewCellKind(cellClass, cellNib), old(currentPage), observesFocus);
        && cells == c.pool && currentPage == c.page
        && endLog == old(endLog) + Delivered(observesEnd, c.ended)
        && prepareLog == old(prepareLog) + c.prepared
        && focusLog == old(focusLog) + c.focused
    {
      if itemCount.None? {
        return;
      }
      var n := itemCount.value;
      var page := Page(contentOffset, PageWidth());
      DidScrollFocusesLoadedCell(cells, contentOffset, PageWidth(), n, boundsWidth, pageSpacing,
                                 NewCellKind(cellClass, cellNib), currentPage, observesFocus);
      LoadWindow(n);
      if 0 <= page < n {
        SetCurrentPage(page);
      }
    }

    /**
     * The dismiss pan's `gestureRecognizerShouldBegin`, reading the focused cell
     * `loadedCell(of: currentPage)`; `focusedScroll` is that cell's inner scroll state.
     */
    function ShouldBeginDismissPan(vx: real, vy: real, focusedScroll: InnerScroll): (b: bool)
      reads this
      ensures b ==> LoadedCell(cells, currentPage).Some? && Abs(vy) > Abs(vx)
    {
      ShouldBeginDismiss(vx, vy, if LoadedCell(cells, currentPage).Some? then Some(focusedScroll) else None)
    }
  }
}
