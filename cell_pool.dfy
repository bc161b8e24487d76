/**
 * The reuse pool of SlidingPhotoView as values: `reusableCells` is a sequence of
 * cell records, and a cell is named by its slot in that sequence. Each function
 * here is the specification of one step of the view's scroll handling; the class
 * in module PhotoView performs the same steps in place.
 */
module CellPool {
  import opened Wrappers
  import opened PageMath

  /** The `index` of a cell that is bound to no page. */
  const UNBOUND: int := -1

  /** How a pooled cell was made: registered class, registered nib, or the default class. */
  datatype CellKind = DefaultCell | ClassCell(className: string) | NibCell(nibName: string)

  /** A pooled cell: the page it is bound to, whether content was requested, its frame's x extent. */
  datatype Cell = Cell(index: int, prepared: bool, minX: real, maxX: real, kind: CellKind)

  /** One delegate or data-source call, naming the cell by slot and the page it carried. */
  datatype Notice = Notice(slot: nat, index: int)

  /** A cell as `init` makes it: bound to no page and not prepared. */
  function FreshCell(kind: CellKind): (c: Cell)
    ensures c.index == UNBOUND && !c.prepared && c.kind == kind
  {
    Cell(UNBOUND, false, 0.0, 0.0, kind)
  }

  /** No two cells are bound to the same page. */
  predicate UniqueBindings(pool: seq<Cell>) {
    forall j, k :: 0 <= j < |pool| && 0 <= k < |pool| && j != k && pool[j].index >= 0 ==>
      pool[j].index != pool[k].index
  }

  /** `loadedCell(of:)`: the first cell whose index is `i`. */
  function LoadedCell(pool: seq<Cell>, i: int): (r: Option<nat>)
    ensures r.Some? ==> r.value < |pool| && pool[r.value].index == i
    ensures r.Some? ==> forall k :: 0 <= k < r.value ==> pool[k].index != i
    ensures r.None? ==> forall k :: 0 <= k < |pool| ==> pool[k].index != i
  {
    if |pool| == 0 then None
    else if pool[0].index == i then Some(0)
    else match LoadedCell(pool[1..], i)
      case None => None
      case Some(k) => Some(k + 1)
  }

  /** The first cell that is not prepared, the one `dequeueReusableCell` reuses. */
  function FirstUnprepared(pool: seq<Cell>): (r: Option<nat>)
    ensures r.Some? ==> r.value < |pool| && !pool[r.value].prepared
    ensures r.Some? ==> forall k :: 0 <= k < r.value ==> pool[k].prepared
    ensures r.None? ==> forall k :: 0 <= k < |pool| ==> pool[k].prepared
  {
    if |pool| == 0 then None
    else if !pool[0].prepared then Some(0)
    else match FirstUnprepared(pool[1..])
      case None => None
      case Some(k) => Some(k + 1)
  }

  /** `width * index + pageSpacing * (index + 0.5)`: the x origin of page `i`'s cell. */
  function SlotMinX(i: int, width: real, spacing: real): real {
    width * i as real + spacing * (i as real + 0.5)
  }

  /**
   * Page `i` occupies [i * W, (i + 1) * W) of the scroll content, W = width + spacing;
   * its cell, `width` wide, leaves half the spacing free on either side.
   */
  lemma SlotCentredInPage(i: int, width: real, spacing: real)
    ensures var pageWidth := width + spacing;
      && SlotMinX(i, width, spacing) - i as real * pageWidth == spacing / 2.0
      && (i as real + 1.0) * pageWidth - (SlotMinX(i, width, spacing) + width) == spacing / 2.0
  {
    var x := i as real;
    assert x * (width + spacing) == width * x + spacing * x;
    assert (x + 1.0) * (width + spacing) == width * x + spacing * x + width + spacing;
  }

  /** The frame and index `dequeueReusableCell` gives a cell for page `i`. */
  function Bind(c: Cell, i: int, width: real, spacing: real): (r: Cell)
    ensures r.index == i && r.prepared == c.prepared && r.kind == c.kind
    ensures r.minX == SlotMinX(i, width, spacing) && r.maxX - r.minX == width
  {
    c.(index := i, minX := SlotMinX(i, width, spacing), maxX := SlotMinX(i, width, spacing) + width)
  }

  /** The pool after a call, and the slot of the cell the call returned. */
  datatype Acquired = Acquired(pool: seq<Cell>, slot: nat)

  /**
   * `dequeueReusableCell(for: i)`: rebind the first unprepared cell to page `i`,
   * or append a new cell of the registered kind.
   */
  function Dequeue(pool: seq<Cell>, i: int, width: real, spacing: real, kind: CellKind): (r: Acquired)
    ensures r.slot < |r.pool| && r.pool[r.slot].index == i && !r.pool[r.slot].prepared
    ensures r.pool[r.slot].minX == SlotMinX(i, width, spacing)
    ensures r.pool[r.slot].maxX == r.pool[r.slot].minX + width
    ensures |r.pool| == |pool| + (if FirstUnprepared(pool).None? then 1 else 0)
    ensures FirstUnprepared(pool).Some? ==> r.slot == FirstUnprepared(pool).value
    ensures FirstUnprepared(pool).None? ==> r.slot == |pool| && r.pool[r.slot].kind == kind
    ensures forall k :: 0 <= k < |pool| && k != r.slot ==> r.pool[k] == pool[k]
  {
    match FirstUnprepared(pool)
    case Some(k) => Acquired(pool[k := Bind(pool[k], i, width, spacing)], k)
    case None => Acquired(pool + [Bind(FreshCell(kind), i, width, spacing)], |pool|)
  }

  /** `acquireCell(for: i)`: the cell already bound to `i`, else a dequeued one. */
  function Acquire(pool: seq<Cell>, i: int, width: real, spacing: real, kind: CellKind): (r: Acquired)
    ensures r.slot < |r.pool| && r.pool[r.slot].index == i
    ensures LoadedCell(pool, i).Some? ==> r == Acquired(pool, LoadedCell(pool, i).value)
    ensures LoadedCell(pool, i).None? ==> r == Dequeue(pool, i, width, spacing, kind)
  {
    match LoadedCell(pool, i)
    case Some(k) => Acquired(pool, k)
    case None => Dequeue(pool, i, width, spacing, kind)
  }

  /**
   * Acquiring never touches a prepared cell, grows the pool by at most one cell
   * and keeps every page bound to at most one cell.
   */
  lemma AcquireKeepsPool(pool: seq<Cell>, i: int, width: real, spacing: real, kind: CellKind)
    requires UniqueBindings(pool)
    ensures var r := Acquire(pool, i, width, spacing, kind);
      && |pool| <= |r.pool| <= |pool| + 1
      && UniqueBindings(r.pool)
      && (forall k :: 0 <= k < |pool| && pool[k].prepared ==> r.pool[k] == pool[k])
      && (forall k :: 0 <= k < |pool| && k != r.slot ==> r.pool[k] == pool[k])
  {
  }

  /** With unique bindings, a cell bound to page `i >= 0` is the one `LoadedCell` finds. */
  lemma LoadedCellUnique(pool: seq<Cell>, i: int, k: nat)
    requires UniqueBindings(pool)
    requires i >= 0 && k < |pool| && pool[k].index == i
    ensures LoadedCell(pool, i) == Some(k)
  {
  }

  /** Page `i` has a bound cell whose content was requested. */
  predicate IsReady(pool: seq<Cell>, i: int) {
    LoadedCell(pool, i).Some? && pool[LoadedCell(pool, i).value].prepared
  }

  // ---------------------------------------------------------------------------
  // purgeCellsExclude

  /** The test `purgeCellsExclude` applies to each cell. */
  predicate IsStale(c: Cell, window: Window, offset: real, pageWidth: real) {
    && c.prepared
    && !window.Contains(c.index)
    && (c.minX > offset + 2.0 * pageWidth || c.maxX < offset - pageWidth)
  }

  /** A purged cell: unbound and no longer prepared. */
  function Reset(c: Cell): (r: Cell)
    ensures r.index == UNBOUND && !r.prepared
    ensures r.minX == c.minX && r.maxX == c.maxX && r.kind == c.kind
  {
    c.(prepared := false, index := UNBOUND)
  }

  function PurgeCell(c: Cell, window: Window, offset: real, pageWidth: real): Cell {
    if IsStale(c, window, offset, pageWidth) then Reset(c) else c
  }

  /** The pool after `purgeCellsExclude(window)` at content offset `offset`. */
  function Purge(pool: seq<Cell>, window: Window, offset: real, pageWidth: real): (r: seq<Cell>)
    ensures |r| == |pool|
  {
    seq(|pool|, k requires 0 <= k < |pool| => PurgeCell(pool[k], window, offset, pageWidth))
  }

  /**
   * Purging resets exactly the stale cells, leaves every cell bound inside the
   * window as it was, leaves no stale cell behind and keeps bindings unique.
   */
  lemma PurgeResetsExactlyStale(pool: seq<Cell>, window: Window, offset: real, pageWidth: real)
    requires UniqueBindings(pool)
    ensures var r := Purge(pool, window, offset, pageWidth);
      && UniqueBindings(r)
      && (forall k :: 0 <= k < |pool| ==>
            (IsStale(pool[k], window, offset, pageWidth) ==> r[k].index == UNBOUND && !r[k].prepared)
            && (!IsStale(pool[k], window, offset, pageWidth) ==> r[k] == pool[k]))
      && (forall k :: 0 <= k < |pool| && window.Contains(pool[k].index) ==> r[k] == pool[k])
      && (forall k :: 0 <= k < |r| ==> !IsStale(r[k], window, offset, pageWidth))
  {
  }

  /** The `didEndDisplaying` calls of one purge, in pool order, each with the index the cell had. */
  function EndNotices(pool: seq<Cell>, window: Window, offset: real, pageWidth: real): seq<Notice>
  {
    if |pool| == 0 then []
    else
      var last := |pool| - 1;
      EndNotices(pool[..last], window, offset, pageWidth)
        + (if IsStale(pool[last], window, offset, pageWidth) then [Notice(last, pool[last].index)] else [])
  }

  /** Every stale cell, and no other, gets exactly one `didEndDisplaying`. */
  lemma {:induction false} EndNoticesExactlyOncePerStaleCell(pool: seq<Cell>, window: Window, offset: real, pageWidth: real)
    ensures forall j :: 0 <= j < |EndNotices(pool, window, offset, pageWidth)| ==>
      var n := EndNotices(pool, window, offset, pageWidth)[j];
      n.slot < |pool| && IsStale(pool[n.slot], window, offset, pageWidth) && n.index == pool[n.slot].index
    ensures forall j, k :: 0 <= j < k < |EndNotices(pool, window, offset, pageWidth)| ==>
      EndNotices(pool, window, offset, pageWidth)[j].slot < EndNotices(pool, window, offset, pageWidth)[k].slot
    ensures forall k :: 0 <= k < |pool| && IsStale(pool[k], window, offset, pageWidth) ==>
      Notice(k, pool[k].index) in EndNotices(pool, window, offset, pageWidth)
  {
    if |pool| > 0 {
      var last := |pool| - 1;
      var front := pool[..last];
      EndNoticesExactlyOncePerStaleCell(front, window, offset, pageWidth);
      var ns := EndNotices(pool, window, offset, pageWidth);
      var fs := EndNotices(front, window, offset, pageWidth);
      assert forall k :: 0 <= k < last ==> front[k] == pool[k];
      forall k | 0 <= k < |pool| && IsStale(pool[k], window, offset, pageWidth)
        ensures Notice(k, pool[k].index) in ns
      {
        if k < last {
          assert Notice(k, front[k].index) in fs;
        } else {
          assert ns[|ns| - 1] == Notice(k, pool[k].index);
        }
      }
    }
  }

  // ---------------------------------------------------------------------------
  // The `for index in range` loop of scrollViewDidScroll

  /** One turn of that loop, for page `i`: acquire the page's cell and mark it prepared. */
  function FillStep(pool: seq<Cell>, i: int, width: real, spacing: real, kind: CellKind): seq<Cell> {
    var a := Acquire(pool, i, width, spacing, kind);
    a.pool[a.slot := a.pool[a.slot].(prepared := true)]
  }

  /** The `prepareForDisplay` call of that turn: one if the acquired cell was not prepared. */
  function StepNotices(pool: seq<Cell>, i: int, width: real, spacing: real, kind: CellKind): seq<Notice> {
    var a := Acquire(pool, i, width, spacing, kind);
    if a.pool[a.slot].prepared then [] else [Notice(a.slot, i)]
  }

  /**
   * One turn keeps bindings unique, leaves prepared cells alone, readies page `i`
   * and changes no other page's readiness.
   */
  lemma FillStepReadiness(pool: seq<Cell>, i: int, width: real, spacing: real, kind: CellKind)
    requires UniqueBindings(pool) && i >= 0
    ensures var s := FillStep(pool, i, width, spacing, kind);
      && UniqueBindings(s)
      && |pool| <= |s|
      && (forall k :: 0 <= k < |pool| && pool[k].prepared ==> s[k] == pool[k])
      && IsReady(s, i)
      && (forall j :: j >= 0 && j != i ==> (IsReady(s, j) <==> IsReady(pool, j)))
      && (Acquire(pool, i, width, spacing, kind).pool[Acquire(pool, i, width, spacing, kind).slot].prepared
          <==> IsReady(pool, i))
  {
    var a := Acquire(pool, i, width, spacing, kind);
    var s := FillStep(pool, i, width, spacing, kind);
    AcquireKeepsPool(pool, i, width, spacing, kind);
    assert forall k :: 0 <= k < |s| && k != a.slot ==> s[k] == a.pool[k];
    LoadedCellUnique(s, i, a.slot);
    forall j | j >= 0 && j != i
      ensures IsReady(s, j) <==> IsReady(pool, j)
    {
      if IsReady(pool, j) {
        LoadedCellUnique(s, j, LoadedCell(pool, j).value);
      }
      if IsReady(s, j) {
        var k := LoadedCell(s, j).value;
        assert k != a.slot;
        LoadedCellUnique(pool, j, k);
      }
    }
  }

  /** The pool after the loop, and its `prepareForDisplay` calls in order. */
  datatype Filled = Filled(pool: seq<Cell>, notices: seq<Notice>)

  /**
   * Pages `lo` to `hi` in turn: acquire the page's cell and, if it is not yet
   * prepared, mark it prepared and ask the data source to prepare it.
   */
  function Fill(pool: seq<Cell>, lo: int, hi: int, width: real, spacing: real, kind: CellKind): (r: Filled)
    ensures |pool| <= |r.pool| <= |pool| + (if lo <= hi then hi - lo + 1 else 0)
    ensures |r.notices| <= (if lo <= hi then hi - lo + 1 else 0)
    decreases hi - lo + 1
  {
    if lo > hi then Filled(pool, [])
    else
      var rest := Fill(FillStep(pool, lo, width, spacing, kind), lo + 1, hi, width, spacing, kind);
      Filled(rest.pool, StepNotices(pool, lo, width, spacing, kind) + rest.notices)
  }

  /** Concatenation regrouped; the solver does not apply associativity on its own. */
  lemma AppendAssoc<T>(a: seq<T>, b: seq<T>, c: seq<T>)
    ensures a + b + c == a + (b + c)
  {
  }

  /** Filling from `lo` is one step at `lo` followed by filling from `lo + 1`. */
  lemma FillPeel(pool: seq<Cell>, lo: int, hi: int, width: real, spacing: real, kind: CellKind)
    requires lo <= hi
    ensures var rest := Fill(FillStep(pool, lo, width, spacing, kind), lo + 1, hi, width, spacing, kind);
      Fill(pool, lo, hi, width, spacing, kind).pool == rest.pool
      && Fill(pool, lo, hi, width, spacing, kind).notices == StepNotices(pool, lo, width, spacing, kind) + rest.notices
  {
  }

  /** The pages of a run of notices. */
  function Pages(ns: seq<Notice>): (r: seq<int>)
    ensures |r| == |ns| && forall j :: 0 <= j < |ns| ==> r[j] == ns[j].index
  {
    seq(|ns|, j requires 0 <= j < |ns| => ns[j].index)
  }

  /** The pages from `lo` to `hi`, in order, that are not ready in `pool`. */
  function Unready(pool: seq<Cell>, lo: int, hi: int): seq<int>
    decreases hi - lo + 1
  {
    if lo > hi then []
    else (if IsReady(pool, lo) then [] else [lo]) + Unready(pool, lo + 1, hi)
  }

  /** `Unready` only looks at the readiness of the pages it ranges over. */
  lemma {:induction false} UnreadySameReadiness(p: seq<Cell>, q: seq<Cell>, lo: int, hi: int)
    requires forall j :: lo <= j <= hi ==> (IsReady(p, j) <==> IsReady(q, j))
    ensures Unready(p, lo, hi) == Unready(q, lo, hi)
    decreases hi - lo + 1
  {
    if lo <= hi {
      UnreadySameReadiness(p, q, lo + 1, hi);
    }
  }

  /**
   * After the loop every page of the window is ready, bindings are still unique,
   * prepared cells are untouched and pages outside the window are as ready as
   * before.
   */
  lemma {:induction false} FillReadiesWindow(pool: seq<Cell>, lo: int, hi: int, width: real, spacing: real, kind: CellKind)
    requires UniqueBindings(pool) && 0 <= lo
    ensures var r := Fill(pool, lo, hi, width, spacing, kind);
      && UniqueBindings(r.pool)
      && (forall k :: 0 <= k < |pool| && pool[k].prepared ==> r.pool[k] == pool[k])
      && (forall i :: lo <= i <= hi ==> IsReady(r.pool, i))
      && (forall j :: j >= 0 && !(lo <= j <= hi) ==> (IsReady(r.pool, j) <==> IsReady(pool, j)))
    decreases hi - lo + 1
  {
    if lo <= hi {
      var s := FillStep(pool, lo, width, spacing, kind);
      FillStepReadiness(pool, lo, width, spacing, kind);
      FillReadiesWindow(s, lo + 1, hi, width, spacing, kind);
    }
  }

  /** The notices of the loop: one for the first page if it was not ready, then those of the rest. */
  lemma FillNoticesUnfold(pool: seq<Cell>, lo: int, hi: int, width: real, spacing: real, kind: CellKind)
    requires UniqueBindings(pool) && 0 <= lo <= hi
    ensures Pages(Fill(pool, lo, hi, width, spacing, kind).notices)
         == (if IsReady(pool, lo) then [] else [lo])
            + Pages(Fill(FillStep(pool, lo, width, spacing, kind), lo + 1, hi, width, spacing, kind).notices)
  {
    var rest := Fill(FillStep(pool, lo, width, spacing, kind), lo + 1, hi, width, spacing, kind);
    var head := StepNotices(pool, lo, width, spacing, kind);
    FillStepReadiness(pool, lo, width, spacing, kind);
    assert Pages(head) == if IsReady(pool, lo) then [] else [lo];
    assert Pages(head + rest.notices) == Pages(head) + Pages(rest.notices);
  }

  /** `prepareForDisplay` goes out exactly for the window pages that were not ready, in page order. */
  lemma {:induction false} FillPreparesUnready(pool: seq<Cell>, lo: int, hi: int, width: real, spacing: real, kind: CellKind)
    requires UniqueBindings(pool) && 0 <= lo
    ensures Pages(Fill(pool, lo, hi, width, spacing, kind).notices) == Unready(pool, lo, hi)
    decreases hi - lo + 1
  {
    if lo <= hi {
      var s := FillStep(pool, lo, width, spacing, kind);
      FillNoticesUnfold(pool, lo, hi, width, spacing, kind);
      assert Pages(Fill(s, lo + 1, hi, width, spacing, kind).notices) == Unready(pool, lo + 1, hi) by {
        FillStepReadiness(pool, lo, width, spacing, kind);
        FillPreparesUnready(s, lo + 1, hi, width, spacing, kind);
        UnreadySameReadiness(s, pool, lo + 1, hi);
      }
    }
  }

  /** Every cell after the loop is either as it was or holds a prepared page of the window. */
  lemma {:induction false} FillBindsOnlyWindow(pool: seq<Cell>, lo: int, hi: int, width: real, spacing: real, kind: CellKind)
    requires UniqueBindings(pool)
    ensures var r := Fill(pool, lo, hi, width, spacing, kind);
      forall k :: 0 <= k < |r.pool| ==>
        (k < |pool| && r.pool[k] == pool[k]) || (lo <= r.pool[k].index <= hi && r.pool[k].prepared)
    decreases hi - lo + 1
  {
    if lo <= hi {
      var a := Acquire(pool, lo, width, spacing, kind);
      var s := FillStep(pool, lo, width, spacing, kind);
      AcquireKeepsPool(pool, lo, width, spacing, kind);
      assert UniqueBindings(s);
      FillBindsOnlyWindow(s, lo + 1, hi, width, spacing, kind);
      var r := Fill(pool, lo, hi, width, spacing, kind);
      forall k | 0 <= k < |r.pool|
        ensures (k < |pool| && r.pool[k] == pool[k]) || (lo <= r.pool[k].index <= hi && r.pool[k].prepared)
      {
        if k < |s| && r.pool[k] == s[k] && k != a.slot {
          assert s[k] == a.pool[k];
        }
      }
    }
  }

  /** A second pass over a window whose pages are all ready changes nothing and prepares nothing. */
  lemma {:induction false} FillOfReadyWindowIsIdentity(pool: seq<Cell>, lo: int, hi: int, width: real, spacing: real, kind: CellKind)
    requires forall i :: lo <= i <= hi ==> IsReady(pool, i)
    ensures Fill(pool, lo, hi, width, spacing, kind) == Filled(pool, [])
    decreases hi - lo + 1
  {
    if lo <= hi {
      assert IsReady(pool, lo);
      var a := Acquire(pool, lo, width, spacing, kind);
      assert a.pool == pool && a.slot == LoadedCell(pool, lo).value;
      assert FillStep(pool, lo, width, spacing, kind) == pool;
      FillOfReadyWindowIsIdentity(pool, lo + 1, hi, width, spacing, kind);
    }
  }

  /** A pool without stale cells is left as it is by a purge, and nobody is told. */
  lemma {:induction false} PurgeWithoutStaleIsIdentity(pool: seq<Cell>, window: Window, offset: real, pageWidth: real)
    requires forall k :: 0 <= k < |pool| ==> !IsStale(pool[k], window, offset, pageWidth)
    ensures Purge(pool, window, offset, pageWidth) == pool
    ensures EndNotices(pool, window, offset, pageWidth) == []
  {
    if |pool| > 0 {
      var front := pool[..|pool| - 1];
      PurgeWithoutStaleIsIdentity(front, window, offset, pageWidth);
    }
  }

  // ---------------------------------------------------------------------------
  // scrollViewDidScroll as a whole

  /** The pool after a scroll callback, with its `didEndDisplaying` and `prepareForDisplay` calls. */
  datatype Scrolled = Scrolled(pool: seq<Cell>, ended: seq<Notice>, prepared: seq<Notice>)

  /** The window a scroll callback uses, when Swift does not trap on it. */
  function ScrollWindow(offset: real, pageWidth: real, count: int): Option<Window>
    requires pageWidth > 0.0
  {
    VisibleWindow(Page(offset, pageWidth), count)
  }

  /** Purge outside the window, then acquire and prepare every page of the window. */
  function ScrollPool(pool: seq<Cell>, offset: real, pageWidth: real, count: int,
                      width: real, spacing: real, kind: CellKind): Scrolled
    requires pageWidth > 0.0
    requires ScrollWindow(offset, pageWidth, count).Some?
  {
    var window := ScrollWindow(offset, pageWidth, count).value;
    var purged := Purge(pool, window, offset, pageWidth);
    var filled := Fill(purged, window.lo, window.hi, width, spacing, kind);
    Scrolled(filled.pool, EndNotices(pool, window, offset, pageWidth), filled.notices)
  }

  /**
   * After a scroll callback every page of the window has a bound, prepared cell,
   * bindings stay unique, and `prepareForDisplay` went out exactly for the window
   * pages that had no prepared cell before the callback, once each, in page order.
   */
  lemma ScrollReadiesWindow(pool: seq<Cell>, offset: real, pageWidth: real, count: int,
                            width: real, spacing: real, kind: CellKind)
    requires UniqueBindings(pool)
    requires pageWidth > 0.0
    requires ScrollWindow(offset, pageWidth, count).Some?
    ensures var window := ScrollWindow(offset, pageWidth, count).value;
      var r := ScrollPool(pool, offset, pageWidth, count, width, spacing, kind);
      && UniqueBindings(r.pool)
      && (forall i :: window.Contains(i) ==> IsReady(r.pool, i))
      && Pages(r.prepared) == Unready(pool, window.lo, window.hi)
  {
    var window := ScrollWindow(offset, pageWidth, count).value;
    var purged := Purge(pool, window, offset, pageWidth);
    PurgeResetsExactlyStale(pool, window, offset, pageWidth);
    FillReadiesWindow(purged, window.lo, window.hi, width, spacing, kind);
    FillPreparesUnready(purged, window.lo, window.hi, width, spacing, kind);
    forall i | window.Contains(i)
      ensures IsReady(purged, i) <==> IsReady(pool, i)
    {
      if IsReady(pool, i) {
        LoadedCellUnique(purged, i, LoadedCell(pool, i).value);
      }
      if IsReady(purged, i) {
        LoadedCellUnique(pool, i, LoadedCell(purged, i).value);
      }
    }
    UnreadySameReadiness(purged, pool, window.lo, window.hi);
  }

  /**
   * A second callback at the same offset and item count finds nothing to purge
   * and nothing to prepare: the pool is unchanged and no delegate or data-source
   * call is made.
   */
  lemma ScrollTwiceIsIdle(pool: seq<Cell>, offset: real, pageWidth: real, count: int,
                          width: real, spacing: real, kind: CellKind)
    requires UniqueBindings(pool)
    requires pageWidth > 0.0
    requires ScrollWindow(offset, pageWidth, count).Some?
    ensures var first := ScrollPool(pool, offset, pageWidth, count, width, spacing, kind);
      ScrollPool(first.pool, offset, pageWidth, count, width, spacing, kind) == Scrolled(first.pool, [], [])
  {
    var window := ScrollWindow(offset, pageWidth, count).value;
    var purged := Purge(pool, window, offset, pageWidth);
    var first := ScrollPool(pool, offset, pageWidth, count, width, spacing, kind);
    PurgeResetsExactlyStale(pool, window, offset, pageWidth);
    FillBindsOnlyWindow(purged, window.lo, window.hi, width, spacing, kind);
    ScrollReadiesWindow(pool, offset, pageWidth, count, width, spacing, kind);
    forall k | 0 <= k < |first.pool|
      ensures !IsStale(first.pool[k], window, offset, pageWidth)
    {
    }
    PurgeWithoutStaleIsIdentity(first.pool, window, offset, pageWidth);
    FillOfReadyWindowIsIdentity(first.pool, window.lo, window.hi, width, spacing, kind);
  }

  // ---------------------------------------------------------------------------
  // The whole callback, with the `currentPage` assignment at its end

  /** What one scroll callback leaves: pool, delegate and data-source calls, and `currentPage`. */
  datatype Callback = Callback(pool: seq<Cell>, ended: seq<Notice>, prepared: seq<Notice>,
                               page: int, focused: seq<Notice>)

  /**
   * `scrollViewDidScroll` at content offset `offset` with `count` items, `current`
   * the page before the call: the scroll steps, then `currentPage = page` when the
   * page is an item, whose `didSet` acquires the focused cell for the delegate
   * when the page changed and the delegate observes focus.
   */
  function DidScroll(pool: seq<Cell>, offset: real, pageWidth: real, count: int,
                     width: real, spacing: real, kind: CellKind, current: int, observesFocus: bool): Callback
    requires pageWidth > 0.0
    requires ScrollWindow(offset, pageWidth, count).Some?
  {
    var s := ScrollPool(pool, offset, pageWidth, count, width, spacing, kind);
    var page := Page(offset, pageWidth);
    if !(0 <= page < count) then Callback(s.pool, s.ended, s.prepared, current, [])
    else if page == current || !observesFocus then Callback(s.pool, s.ended, s.prepared, page, [])
    else
      var a := Acquire(s.pool, page, width, spacing, kind);
      Callback(a.pool, s.ended, s.prepared, page, [Notice(a.slot, page)])
  }

  /**
   * After the callback the pool is the one the scroll steps left (acquiring the
   * focused cell binds nothing new), every window page is ready, `currentPage`
   * is the page under the offset whenever that page is an item, and a focus
   * notice names the cell bound to that page.
   */
  lemma DidScrollFocusesLoadedCell(pool: seq<Cell>, offset: real, pageWidth: real, count: int,
                                   width: real, spacing: real, kind: CellKind, current: int, observesFocus: bool)
    requires UniqueBindings(pool)
    requires pageWidth > 0.0
    requires ScrollWindow(offset, pageWidth, count).Some?
    ensures var c := DidScroll(pool, offset, pageWidth, count, width, spacing, kind, current, observesFocus);
      var page := Page(offset, pageWidth);
      && c.pool == ScrollPool(pool, offset, pageWidth, count, width, spacing, kind).pool
      && UniqueBindings(c.pool)
      && (forall i :: ScrollWindow(offset, pageWidth, count).value.Contains(i) ==> IsReady(c.pool, i))
      && c.page == (if 0 <= page < count then page else current)
      && (if 0 <= page < count && page != current && observesFocus
          then LoadedCell(c.pool, page).Some? && c.focused == [Notice(LoadedCell(c.pool, page).value, page)]
          else c.focused == [])
  {
    var page := Page(offset, pageWidth);
    ScrollReadiesWindow(pool, offset, pageWidth, count, width, spacing, kind);
    if 0 <= page < count {
      assert ScrollWindow(offset, pageWidth, count).value.Contains(page);
    }
  }

  /**
   * The whole callback repeated at the same offset and item count, from the page
   * and pool the first call left, changes nothing and makes no prepare, end or
   * focus call.
   */
  lemma DidScrollTwiceIsIdle(pool: seq<Cell>, offset: real, pageWidth: real, count: int,
                             width: real, spacing: real, kind: CellKind, current: int, observesFocus: bool)
    requires UniqueBindings(pool)
    requires pageWidth > 0.0
    requires ScrollWindow(offset, pageWidth, count).Some?
    ensures var c := DidScroll(pool, offset, pageWidth, count, width, spacing, kind, current, observesFocus);
      DidScroll(c.pool, offset, pageWidth, count, width, spacing, kind, c.page, observesFocus)
        == Callback(c.pool, [], [], c.page, [])
  {
    DidScrollFocusesLoadedCell(pool, offset, pageWidth, count, width, spacing, kind, current, observesFocus);
    ScrollTwiceIsIdle(pool, offset, pageWidth, count, width, spacing, kind);
  }
}
