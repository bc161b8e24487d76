# SlidingPhoto in Dafny

SlidingPhoto is an iOS photo browser widget. A horizontally paging
`SlidingPhotoView` shows one photo per page. It keeps a small pool of reusable
`SlidingPhotoViewCell`s. Cells are bound to the pages around the scroll position,
and the data source is asked once per binding to fill each one. The delegate is
told when a cell goes out of use and when the focused page changes. Each cell
lays out its photo at the cell's width inside a zooming scroll view, and a double
tap toggles the zoom. A top-anchored crop rule decides how a photo that is
relatively taller than its view is shown. `SlidingPhotoViewController` lets the
user drag the photo vertically to dismiss it.

This project models those parts:

- `page_math.dfy` (module `PageMath`): the page under a content offset, computed
  with Swift's truncating `Int(_:)`. It also holds the window of at most three
  pages around that page, which Swift builds as a closed range.
- `cell_pool.dfy` (module `CellPool`): the reuse pool as a sequence of cell
  records. A cell is named by its slot. Every step of the scroll handling is
  specified as a function, and the properties of the pool are proved about
  those functions:
  - no page is bound twice;
  - a purge resets exactly the stale cells;
  - after a scroll every window page is ready;
  - the data source is asked to prepare exactly the pages that were not ready;
  - a second scroll at the same offset does nothing.
- `photo_view.dfy` (module `PhotoView`): the class `SlidingPhotoView`. It holds
  the pool, `currentPage`, the registered cell class or nib, and ghost logs of
  the delegate and data-source calls. Its methods update these in place and are
  proved equal to the `CellPool` functions. The module also holds the
  dismiss-pan admission test.
- `photo_controller.dfy` (module `PhotoController`): the dismiss pan of
  `SlidingPhotoViewController`. It covers the drag, the release classification,
  the remaining-distance duration and the state machine over gesture states.
- `images.dfy` (module `Images`): images and the top-anchored crop rule. The
  crop keeps the top of a tall image, full width, with exactly the view's aspect
  ratio.
- `sliding_photo_image.dfy` (module `SlidingPhotoImage`): the `sp.image`
  property on any view. It stores the image in the view or in its layer, and it
  picks the content mode and crop.
- `photo_cell.dfy` (module `PhotoCell`): the class `SlidingPhotoViewCell`. It
  covers layout, centring insets, the double-tap zoom rectangle and the `image`
  setter.
- `wrappers.dfy`, `geometry.dfy`: `Option` and the CoreGraphics value types
  over exact reals.

Two points of the code shape the model:

- **The visible range can trap.** `max(page - 1, 0) ... min(page + 1, numberOfItems - 1)`
  (Sources/SlidingPhotoView.swift:153) traps whenever its lower end exceeds its
  upper end. With zero items that is always the case. `VisibleWindow` returns
  `None` exactly then, and `ScrollViewDidScroll` requires a window.
- **The `prepared` flag.** The view reads and writes a cell flag `prepared`, but
  the cell declares it as `reusable = true`. The model has one flag, `prepared`,
  which is false for a fresh cell. The view's uses only make sense under that
  reading.

## Model

| member | source | states |
|---|---|---|
| PageMath.Page | Sources/SlidingPhotoView.swift:152 | `Int(offset / W + 0.5)`, truncated toward zero by `Trunc`; what it means is stated by `PageIsNearest`, `PageTruncatesTowardZero` and `PageOfItemOffset` |
| PageMath.Trunc | Sources/SlidingPhotoView.swift:152 | `Int(_:)` truncates toward zero: the result is within one of its argument, on the zero side |
| PageMath.PageIsNearest | Sources/SlidingPhotoView.swift:152 | For offsets from half a page before page 0 onwards, the page is the one whose half-open span [p-1/2, p+1/2) pages holds the offset |
| PageMath.PageTruncatesTowardZero | Sources/SlidingPhotoView.swift:152 | Every offset in (-1.5 W, 0.5 W) maps to page 0, so pulling left past the first page still shows page 0 |
| PageMath.PageOfItemOffset | Sources/SlidingPhotoView.swift:27-30 | The offset `scrollToItem` sets for item k >= 0 maps back to page k |
| PageMath.VisibleWindow | Sources/SlidingPhotoView.swift:153 | The window exists iff count >= 1 and -1 <= page <= count; it lies within [0, count); it holds page i iff i is an item within one of page; an item page is in its own window |
| PageMath.WindowHoldsAtMostThreePages | Sources/SlidingPhotoView.swift:153 | A window never spans more than three pages |
| CellPool.FreshCell | Sources/SlidingPhotoViewCell.swift:15-16 | A new cell is bound to no page (index -1), is not prepared, and has the kind it was made from |
| CellPool.LoadedCell | Sources/SlidingPhotoView.swift:187-189 | Returns the first slot whose cell is bound to page i, or None iff no cell is bound to i |
| CellPool.FirstUnprepared | Sources/SlidingPhotoView.swift:193 | Returns the first slot whose cell is not prepared, or None iff every cell is prepared |
| CellPool.SlotMinX | Sources/SlidingPhotoView.swift:204-205 | The x origin a cell bound to page i gets, `w*i + spacing*(i + 0.5)`; `SlotCentredInPage` states where that puts the cell |
| CellPool.Bind | Sources/SlidingPhotoView.swift:204-207 | A cell rebound to page i gets index i and the frame of slot i; its preparation and kind are kept |
| CellPool.SlotCentredInPage | Sources/SlidingPhotoView.swift:204-205 | A cell's frame sits in its page of width W = width + spacing, with half the spacing free on each side |
| CellPool.Dequeue | Sources/SlidingPhotoView.swift:191-215 | The first unprepared cell is rebound to page i, or else one new cell of the registered kind is appended; the returned cell has index i and minX = i*width + spacing*(i+0.5); no other cell changes |
| CellPool.Acquire | Sources/SlidingPhotoView.swift:183-185 | A cell already bound to i is returned with the pool unchanged; otherwise the pool is dequeued for i |
| CellPool.AcquireKeepsPool | Sources/SlidingPhotoView.swift:183-215 | Acquiring keeps bindings unique, grows the pool by at most one, never touches a prepared cell and changes only the returned slot |
| CellPool.LoadedCellUnique | Sources/SlidingPhotoView.swift:187-189 | With unique bindings, any cell bound to page i is the one `loadedCell` finds |
| CellPool.IsStale | Sources/SlidingPhotoView.swift:172-175 | A cell is purged when it is prepared, not bound to a window page, and lies more than 2W right of or W left of the offset; `PurgeResetsExactlyStale` states the purge in its terms |
| CellPool.Purge | Sources/SlidingPhotoView.swift:171-181 | The pool after `purgeCellsExclude`: same length, each stale cell reset; see `PurgeResetsExactlyStale` |
| CellPool.Reset | Sources/SlidingPhotoView.swift:177-178 | A purged cell is unbound (index -1) and not prepared, with its frame and kind kept |
| CellPool.PurgeResetsExactlyStale | Sources/SlidingPhotoView.swift:171-181 | A purge resets exactly the cells that are prepared, outside the window and more than 2W right of or W left of the offset; every other cell, including every cell inside the window, is unchanged; no stale cell remains; bindings stay unique |
| CellPool.EndNoticesExactlyOncePerStaleCell | Sources/SlidingPhotoView.swift:172-176 | `didEndDisplaying` goes out exactly once for each stale cell and for no other, in pool order, carrying the cell's page |
| CellPool.PurgeWithoutStaleIsIdentity | Sources/SlidingPhotoView.swift:171-181 | A pool without stale cells is left as it is, and no `didEndDisplaying` is sent |
| CellPool.FillStep | Sources/SlidingPhotoView.swift:159-163 | One loop turn: acquire the cell for page i and mark it prepared; `FillStepReadiness` states its effect |
| CellPool.StepNotices | Sources/SlidingPhotoView.swift:160-162 | One loop turn sends `prepareForDisplay` for the acquired cell iff it was not prepared; `FillStepReadiness` and `FillPreparesUnready` state what that amounts to |
| CellPool.Fill | Sources/SlidingPhotoView.swift:158-164 | The prepare loop adds at most one cell and sends at most one `prepareForDisplay` per page of the window |
| CellPool.FillStepReadiness | Sources/SlidingPhotoView.swift:159-163 | One loop turn keeps bindings unique, leaves prepared cells alone and readies page i; no other page's readiness changes; the acquired cell was already prepared iff page i was ready |
| CellPool.FillReadiesWindow | Sources/SlidingPhotoView.swift:158-164 | After the loop every window page has a bound, prepared cell; previously prepared cells are untouched; pages outside the window keep their readiness; bindings stay unique |
| CellPool.FillNoticesUnfold | Sources/SlidingPhotoView.swift:158-164 | The loop prepares the first page iff it was not ready, followed by what the rest of the loop prepares |
| CellPool.FillPreparesUnready | Sources/SlidingPhotoView.swift:158-164 | `prepareForDisplay` is sent exactly for the window pages that were not ready, once each, in page order |
| CellPool.FillBindsOnlyWindow | Sources/SlidingPhotoView.swift:158-164 | Each cell after the loop is either unchanged or a prepared cell bound to a window page |
| CellPool.FillOfReadyWindowIsIdentity | Sources/SlidingPhotoView.swift:158-164 | Over a window whose pages are all ready, the loop changes nothing and prepares nothing |
| CellPool.ScrollPool | Sources/SlidingPhotoView.swift:152-164 | Purge with the window, then the prepare loop over it, with the `didEndDisplaying` and `prepareForDisplay` calls each sends; `ScrollReadiesWindow` and `ScrollTwiceIsIdle` state its effect |
| CellPool.DidScroll | Sources/SlidingPhotoView.swift:145-169 | The whole callback once a data source is set: `ScrollPool`, then `currentPage` and its focus notice; `DidScrollFocusesLoadedCell` states its effect |
| CellPool.ScrollReadiesWindow | Sources/SlidingPhotoView.swift:152-164 | After purge and loop, every window page is ready and bindings are unique; the prepared pages are exactly the window pages not ready before the callback, in order |
| CellPool.ScrollTwiceIsIdle | Sources/SlidingPhotoView.swift:145-164 | A second callback at the same offset and item count changes no cell and sends no delegate or data-source call (prepare happens once per binding) |
| CellPool.DidScrollFocusesLoadedCell | Sources/SlidingPhotoView.swift:19-25 | After the whole callback, the pool is the one the scroll steps left and every window page is ready; `currentPage` is the offset's page when that is an item, else unchanged; one focus notice, naming the cell bound to the new page, is sent iff the page changed and the delegate observes focus |
| CellPool.DidScrollTwiceIsIdle | Sources/SlidingPhotoView.swift:145-169 | The whole callback repeated at the same offset and item count, from the page and pool the first call left, changes no cell and `currentPage` and sends no prepare, end or focus call |
| PhotoView.NewCellKind | Sources/SlidingPhotoView.swift:195-201 | A new cell is of the registered class, else of the registered nib, else the default cell |
| PhotoView.Delivered | Sources/SlidingPhotoView.swift:176 | An optional delegate method called through `delegate?.method?(...)` receives every call when the delegate implements it and none otherwise |
| PhotoView.ShouldBeginDismiss | Sources/SlidingPhotoView.swift:243-264 | The pan begins iff: it is more vertical than horizontal; a focused cell exists, unzoomed and neither dragging nor decelerating; and the content fits its height, or is at the top edge with vy > 250, or at the bottom edge with vy < -250 |
| PhotoView.MidScrollBlocksDismiss | Sources/SlidingPhotoView.swift:250-256 | Tall content scrolled away from both edges never lets the pan begin |
| PhotoView.FittingImageAllowsVerticalDismiss | Sources/SlidingPhotoView.swift:257-258 | Over resting, unzoomed content that fits its height, a vertical pan always begins |
| PhotoView.SlidingPhotoView.ShouldBeginDismissPan | Sources/SlidingPhotoView.swift:243-246 | The pan begins only if some cell is bound to `currentPage` and the pan is more vertical than horizontal |
| PhotoView.SlidingPhotoView.constructor | Sources/SlidingPhotoView.swift:19 | A new view has an empty pool, page 0, nothing registered and no calls logged; whether the delegate implements `didUpdateFocus` and `didEndDisplaying` is fixed per view |
| PhotoView.SlidingPhotoView.RegisterClass | Sources/SlidingPhotoView.swift:132-135 | Ignored while a nib is registered; otherwise the class is stored, a later class replacing an earlier one; a class and a nib are never both set |
| PhotoView.SlidingPhotoView.RegisterNib | Sources/SlidingPhotoView.swift:138-141 | Ignored while a class is registered; otherwise the nib is stored, a later nib replacing an earlier one |
| PhotoView.SlidingPhotoView.DequeueReusableCell | Sources/SlidingPhotoView.swift:191-215 | The pool and returned slot are those of `CellPool.Dequeue`, with the kind from the registration; the pool grows by at most one |
| PhotoView.SlidingPhotoView.AcquireCell | Sources/SlidingPhotoView.swift:183-185 | The pool and returned slot are those of `CellPool.Acquire`; the returned cell is bound to the page |
| PhotoView.SlidingPhotoView.SetCurrentPage | Sources/SlidingPhotoView.swift:19-25 | `currentPage` takes the value; the focused cell is acquired and one `didUpdateFocus` logged iff the value changed and the delegate observes focus; otherwise the pool and log are unchanged |
| PhotoView.SlidingPhotoView.ScrollToItem | Sources/SlidingPhotoView.swift:27-30 | Sets the offset to index*W and then `currentPage` to index with the focus rule of `SetCurrentPage`. Without animation the `scrollViewDidScroll` that `setContentOffset` triggers runs first: its purge, prepare and focus calls are those of `CellPool.DidScroll` at the new offset, and the focus rule then starts from the page and pool that callback left. With animation, or without a data source, only the offset and the focus rule apply |
| PhotoView.SlidingPhotoView.PurgeCellsExclude | Sources/SlidingPhotoView.swift:171-181 | The in-place loop leaves the pool `CellPool.Purge` specifies and logs the `didEndDisplaying` calls `EndNotices` specifies when the delegate implements that method, none otherwise; bindings stay unique |
| PhotoView.SlidingPhotoView.PrepareCell | Sources/SlidingPhotoView.swift:159-163 | One turn of the prepare loop, as `CellPool.FillStep` and `StepNotices` specify |
| PhotoView.SlidingPhotoView.PrepareWindow | Sources/SlidingPhotoView.swift:158-164 | The `for index in range` loop leaves the pool and `prepareForDisplay` log that `CellPool.Fill` specifies |
| PhotoView.SlidingPhotoView.LoadWindow | Sources/SlidingPhotoView.swift:152-164 | Purge then prepare loop: the pool and the `prepareForDisplay` log are those of `CellPool.ScrollPool`; its `didEndDisplaying` calls reach the log when the delegate implements that method |
| PhotoView.SlidingPhotoView.ScrollViewDidScroll | Sources/SlidingPhotoView.swift:145-169 | Without a data source nothing changes; otherwise pool, `currentPage` and all three logs are those of `CellPool.DidScroll`, the `didEndDisplaying` log gated as in `PurgeCellsExclude` (see DidScrollFocusesLoadedCell, ScrollReadiesWindow, ScrollTwiceIsIdle) |
| PhotoController.Classify | Sources/SlidingPhotoViewController.swift:86-87 | Dismiss-up iff velocity < -1000 and t < 0; dismiss-down iff velocity > 1000 and t > 0; snap-back iff neither |
| PhotoController.FlingAgainstDragSnapsBack | Sources/SlidingPhotoViewController.swift:86-89 | A fling against the drag direction snaps back, however fast |
| PhotoController.SlowReleaseSnapsBack | Sources/SlidingPhotoViewController.swift:86-89 | A release no faster than 1000 points/s snaps back, however far the photo was dragged |
| PhotoController.DragAlpha | Sources/SlidingPhotoViewController.swift:80-82 | alpha*height = height - abs(t); alpha <= 1, with alpha = 1 iff t = 0; alpha >= 0 iff abs(t) <= height |
| PhotoController.DismissDuration | Sources/SlidingPhotoViewController.swift:91 | The duration is 0.25 s scaled by the remaining distance: d*height = 0.25*(height - abs(t)); it is 0.25 at t = 0 and in [0, 0.25] while abs(t) <= height |
| PhotoController.DismissDurationShrinks | Sources/SlidingPhotoViewController.swift:91 | The further the photo has travelled, the shorter the dismiss animation |
| PhotoController.ReleaseAnimation | Sources/SlidingPhotoViewController.swift:86-104 | A release dismisses iff it is classified up or down, moving to -height or +height with alpha 0 for `DismissDuration`; otherwise it animates back to translation 0 and alpha 1 over 0.25 s |
| PhotoController.DismissLeavesTheScreen | Sources/SlidingPhotoViewController.swift:90-97 | A dismiss moves the photo a full height away, on the side it was dragged towards |
| PhotoController.SlidingPhotoViewController.constructor | Sources/SlidingPhotoViewController.swift:11-31 | A new controller shows the photo in place (identity transform, translation 0) over an opaque backdrop (alpha 1), with no animation started |
| PhotoController.SlidingPhotoViewController.OnPan | Sources/SlidingPhotoViewController.swift:76-109 | While the pan changes, translation = t and alpha = `DragAlpha`. On release it starts `ReleaseAnimation` and takes its final values. In any other state translation is reset to 0 and alpha to 1 |
| Images.Wrap | Sources/UIImageView+SlidingPhoto.swift:39 | `UIImage(cgImage:)` keeps the bitmap at scale 1 |
| Images.IsTallCrossMultiplied | Sources/UIImageView+SlidingPhoto.swift:57-58 | The test (ih/iw)/(vh/vw) > 1 holds iff ih*vw > iw*vh |
| Images.CropRect | Sources/UIImageView+SlidingPhoto.swift:58-66 | The crop is full-width and top-anchored. For a tall image its height is the reciprocal of the tallness, strictly between 0 and 1; otherwise it is the unit rect |
| Images.CropMatchesViewAspect | Sources/UIImageView+SlidingPhoto.swift:61 | The kept part of a tall image, iw wide and h*ih high, has the view's aspect ratio vw:vh |
| Images.CropIgnoresScale | Sources/UIImageView+SlidingPhoto.swift:53-57 | The tallness test and the crop do not depend on the image's scale factor |
| SlidingPhotoImage.ModeFor | Sources/UIImageView+SlidingPhoto.swift:58-66 | Scale-to-fill iff the image is tall; aspect-fill otherwise |
| SlidingPhotoImage.ShownWithoutDistortion | Sources/UIImageView+SlidingPhoto.swift:58-66 | With scale-to-fill, the stretched crop has the view's aspect (no distortion); otherwise the whole image is shown |
| SlidingPhotoImage.SlidingPhoto.constructor | Sources/UIImageView+SlidingPhoto.swift:11-15 | Wrapping a view keeps it as it is: whether it is a displayable, its size, its image or layer contents, its content mode and its crop are those of the base view |
| SlidingPhotoImage.SlidingPhoto.Image | Sources/UIImageView+SlidingPhoto.swift:30-42 | A displayable returns its own image. A plain view returns nil when its layer has no contents, else its bitmap at scale 1 |
| SlidingPhotoImage.SlidingPhoto.SetImage | Sources/UIImageView+SlidingPhoto.swift:43-67 | A displayable stores the image itself; otherwise the layer stores its bitmap. nil leaves mode and crop unchanged; an image gets `ModeFor` and `CropRect`. Reading back gives nil iff nil was set, the same bitmap otherwise, and the very image for a displayable |
| SlidingPhotoImage.ReadBackCropsAlike | Sources/UIImageView+SlidingPhoto.swift:30-50 | For an upright image, the image a plain view returns gets the same crop and mode as the one that was set |
| PhotoCell.FitHeight | Sources/SlidingPhotoViewCell.swift:75-80 | With an image, the photo's height over the cell's width equals the image's height over its width; without one it is the cell's height |
| PhotoCell.FitHeightExceedsBoundsIffTall | Sources/SlidingPhotoViewCell.swift:77 | A laid-out photo is taller than the cell iff the crop rule calls it tall |
| PhotoCell.CenterInsets | Sources/SlidingPhotoViewCell.swift:88-97 | top = bottom and left = right, both >= 0. On an axis where content is not smaller than the bounds, the inset is 0. Where it is smaller, the two insets and the content exactly fill the bounds |
| PhotoCell.ZoomRect | Sources/SlidingPhotoViewCell.swift:103-107 | The zoom rectangle is the cell's size divided by the maximum zoom, centred on the touch point |
| PhotoCell.LaidOutPhotoPlacement | Sources/SlidingPhotoViewCell.swift:71-97 | After layout a photo has no side insets. A tall photo is not inset vertically; any other photo is centred vertically |
| PhotoCell.SlidingPhotoViewCell.constructor | Sources/SlidingPhotoViewCell.swift:45-47 | Both subviews fill the new cell, the zoom is 1 and no image is shown |
| PhotoCell.SlidingPhotoViewCell.CenterContents | Sources/SlidingPhotoViewCell.swift:88-97 | The content inset becomes `CenterInsets` of the content size in the scroll view's size |
| PhotoCell.SlidingPhotoViewCell.LayoutContents | Sources/SlidingPhotoViewCell.swift:71-86 | Zoom is reset to 1 and the scroll view fills the cell. The display frame and content size are both the cell's width by `FitHeight`, centred by `CenterInsets` |
| PhotoCell.SlidingPhotoViewCell.ScrollViewDidZoom | Sources/SlidingPhotoViewCell.swift:120-122 | After the scroll view zooms to any scale, including one past the limits while a pinch rubber-bands, the new content is re-centred |
| PhotoCell.SlidingPhotoViewCell.OnDoubleTap | Sources/SlidingPhotoViewCell.swift:99-110 | Over zoom 1 it asks to reset the zoom; otherwise it asks to zoom to a rect a third of the cell's size, centred on the touch. The cell is not changed |
| PhotoCell.SlidingPhotoViewCell.SetImage | Sources/SlidingPhotoViewCell.swift:132-159 | The display view shows the new image. For an image, the cell's own mode is aspect-fill when tall and aspect-fit otherwise, and its own crop is `CropRect`; nil leaves both unchanged. The layout is then redone as `LayoutContents` states |

## Left out

- UIKit itself is not modelled. That covers:
  - view hierarchy, Auto Layout and `layoutSubviews`;
  - `reloadData`, `scrollRectToVisible`, paging and bouncing;
  - how `UIScrollView` turns a zoom request into a zoom scale and content size.

  The cell width `w`, `pageSpacing` and the content offset are inputs, and the page width is `w + pageSpacing`, as the constraint at Sources/SlidingPhotoView.swift:96 makes it. `ScrollViewDidZoom` takes the zoom and content size the scroll view has already applied.
- The `pageSpacing` setter (Sources/SlidingPhotoView.swift:12-17): it only updates a layout constraint. `pageSpacing` is a constant of the model.
- The data source and delegate are not called. Their `prepareForDisplay`, `didEndDisplaying` and `didUpdateFocus` calls are recorded in ghost logs. Re-entrant calls from those callbacks back into the view are not modelled.
- The delegate is a reassignable `weak var` (Sources/SlidingPhotoView.swift:40), set after construction (Sources/SlidingPhotoViewController.swift:60). Which optional methods it implements (`observesFocus`, `observesEnd`) is a choice fixed when the view is made; a delegate reassigned between callbacks, or released, is not modelled.
- PhotoView.SlidingPhotoView.ScrollViewDidScroll: it requires a non-empty window, because Swift traps there; the `numberOfItems >= 0` assertion is subsumed by that requirement.
- PhotoView.SlidingPhotoView.ScrollToItem: with `animated: true` the `scrollViewDidScroll` calls that UIKit makes while the scroll view moves towards the new offset are not modelled; only the final offset and the `currentPage` assignment are. The item count the data source answers during the synchronous callback is a parameter, and a window that traps is excluded, as for `ScrollViewDidScroll`.
- SlidingPhotoImage.SlidingPhoto.constructor: the base view is taken as the state it is handed in; its identity and aliasing (several wrappers over one view) are not modelled.
- `dequeueReusableCell`: nib instantiation is modelled as making a cell of the nib's kind. The fallback to a default cell when the nib yields no view is not modelled. The cell's subview insertion and gesture wiring are not modelled.
- Single-tap, double-tap forwarding and long-press handlers of the view (Sources/SlidingPhotoView.swift:221-239). They look up the focused cell and forward the touch to the delegate or to the cell. The single-tap handler first resets a zoomed cell to zoom 1 (lines 223-225), animated by the scroll view; this zoom reset is not modelled either.
- Animation timing and completion callbacks. `UIView.animate` is modelled as taking its final values at once, with the animation recorded. `PresentationAnimator` and `DismissionAnimator` are transition plumbing.
- PhotoController.SlidingPhotoViewController.OnPan: `height` is the height of `slidingPhotoView`, which the constraints at Sources/SlidingPhotoViewController.swift:55-58 make equal to the controller's view, so one height serves both; the dismissal itself is recorded as `thenDismiss`, not performed.
- The fade-in when setting an image takes longer than 0.2 s (Sources/UIImageView+SlidingPhoto.swift:69-71, Sources/SlidingPhotoViewCell.swift:154-156): it depends on the wall clock.
- CGFloat NaN, infinity and rounding. Sizes are exact reals, and the image setters require positive image and view sizes, so the `isNaN` test is always false.
- A UIImage without a CGImage (CIImage-backed): every image here has a bitmap.
- SlidingPhotoImage.SlidingPhoto.Image: the round trip through a plain view's layer keeps the bitmap but not the scale factor, since `UIImage(cgImage:)` uses scale 1; `ReadBackCropsAlike` shows the crop of an upright image is unaffected.
- SlidingPhotoImage.ReadBackCropsAlike: image orientation is not modelled; every image is upright. `UIImage.size` follows `imageOrientation`, and `UIImage(cgImage:)` (Sources/UIImageView+SlidingPhoto.swift:39) reads the bitmap back as `.up`. So a rotated image (a 400x300 bitmap tagged `.right` on a 100x100 view: tall when set, crop height 0.75) reads back 400x300, not tall, and would get aspect-fill and the unit crop.
- PhotoCell.SlidingPhotoViewCell.SetImage: as in the source, the crop and content mode are applied to the cell's own layer, not to the display view that shows the image.
- The pool size is not bounded. Cells outside the window but near the offset stay prepared.
- `SlidingPhotoViewCell.displayViewClass`, the cell's scroll view settings other than the maximum zoom (including `minimumZoomScale = 1`, Sources/SlidingPhotoViewCell.swift:33), and `viewForZooming` are fixed configuration.
- The Example app and the protocol declarations carry no logic of the widget.
