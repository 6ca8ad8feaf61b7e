# Infinitely scrollable image viewer: a verified model of its bookkeeping

The viewer shows an unbounded grid of photo tiles that can be panned and
pinch-zoomed. This project models its core in Dafny as three modules. The
common position types and an `Option` type live in two small helper modules.

- `SegmentedGrid` (`segmented_grid_data.dfy`) models `SegmentedGridData<T>`,
  the sparse grid store. It is a class whose `segments` field maps a segment
  key to an N-by-N block of optional slots.
  - The segment key of a position is the floor division of each coordinate
    by N.
  - The slot inside the segment comes from the source's two-branch formula:
    a negative coordinate is first shifted up by `N * ceil(-c / N)`, then
    Swift's truncating `%` is applied. The model proves that this formula is
    Euclidean `c % N`, so the slot lies in `[0, N)` for every integer
    coordinate.
  - Segment key and slot rebuild the position exactly, so two positions never
    share a slot.
  - The subscript getter is a function. A read from an absent segment is
    `nil`.
  - The setter is a method. It allocates the segment if it is absent, writes
    one slot and changes no other position's value. It never removes a
    segment, even when it writes `nil`.
- `PhotosDataSource` (`random_picsum_photos_data_source.dfy`) models
  `RandomPicsumPhotosDataSource`. It is a class over a store with segments of
  20 and a `nextPhotoId` counter.
  - `UrlForTile` returns the photo id the URL is built from.
  - The first lookup of a tile takes the counter's value, stores it and
    advances the counter by one. A repeat lookup returns the stored id and
    changes nothing.
  - The class invariant keeps every stored id below the counter and different
    for different tiles.
- `ImageViewer` (`image_viewer.dfy`) models the pinch clamp and
  `layoutSubviews`, which reconciles the displayed cells with the window of
  grid positions `columnsRange` x `rowsRange`.
  - Cells are ids taken from a counter (`nextCellId`).
  - The set `subviews` stands for the cells added to the view.
  - Every `reload` call is appended to `reloadLog`, together with the
    position the cell was just bound to.
  - The layout pass runs in three steps. First, the displayed entries outside
    the window form a pool and leave `displayedCells`. Second, the nested
    column and row loops give each window position that has no cell a pool
    cell (an arbitrary one, written `:|`), or a new cell once the pool is
    empty, and reload it. Third, the pool cells nobody took are removed from
    the view.
  - Proved about the whole pass:
    - the displayed positions are exactly the window, with one distinct cell
      each;
    - a position that was already displayed inside the window keeps its cell
      and is not reloaded;
    - each new position is reloaded exactly once;
    - `max(0, new - pool)` cells are allocated and `max(0, pool - new)` are
      removed;
    - a pool cell is still shown exactly when some new position took it.

The layout pass takes the window ranges as inputs. The geometry that
computes them from the view's bounds works in `CGFloat` and is not modelled.

## Model

| member | source | states |
|---|---|---|
| SegmentedGrid.TruncatingRemainder | InfinitelyScrollableImageViewer/SegmentedGridData.swift:22 | Swift's `%`: the remainder is less than the divisor in magnitude, differs from the dividend by a multiple of the divisor, and has the dividend's sign |
| SegmentedGrid.CeilDiv | InfinitelyScrollableImageViewer/SegmentedGridData.swift:14 | `ceil(a / n)` for n > 0: the least q with q*n >= a |
| SegmentedGrid.FloorDiv | InfinitelyScrollableImageViewer/SegmentedGridData.swift:26-27 | `floor(a / n)` for n > 0: the greatest q with q*n <= a |
| SegmentedGrid.NormalizedIndex | InfinitelyScrollableImageViewer/SegmentedGridData.swift:12-22 | the shift-then-`%` formula for one coordinate gives a value in `[0, n)` that equals the Euclidean `c % n`, negative `c` included |
| SegmentedGrid.SegmentKey | InfinitelyScrollableImageViewer/SegmentedGridData.swift:25-29 | the segment key is floor division in each component: key*n <= c < key*n + n |
| SegmentedGrid.LocalIndex | InfinitelyScrollableImageViewer/SegmentedGridData.swift:11-23 | both components of the slot lie in `[0, n)` and equal the Euclidean remainders of the coordinates |
| SegmentedGrid.DecompositionExact | InfinitelyScrollableImageViewer/SegmentedGridData.swift:11-29 | key*n + slot gives back the position in each component |
| SegmentedGrid.DecompositionInjective | InfinitelyScrollableImageViewer/SegmentedGridData.swift:11-29 | two positions have the same segment key and slot if and only if they are equal |
| SegmentedGrid.NegativePositionExample | InfinitelyScrollableImageViewer/SegmentedGridData.swift:11-29 | with segments of 20, position (-25, -3) lies in segment (-2, -1) at slot (15, 17) |
| SegmentedGrid.EmptySegment | InfinitelyScrollableImageViewer/SegmentedGridData.swift:47 | a new segment is N columns of N slots, all `nil` |
| SegmentedGrid.SegmentedGridData.constructor | InfinitelyScrollableImageViewer/SegmentedGridData.swift:4-9 | a new store has no segments, and every position reads `nil` |
| SegmentedGrid.SegmentedGridData.Get | InfinitelyScrollableImageViewer/SegmentedGridData.swift:31-41 | a position whose segment is absent reads `nil` (stated both ways round: a value is read only from a present segment); being a function, a read changes nothing and allocates no segment |
| SegmentedGrid.SegmentedGridData.Set | InfinitelyScrollableImageViewer/SegmentedGridData.swift:42-55 | a write is read back; every other position keeps its value; the key set grows by exactly the written position's segment, even for `nil`; other segments are untouched; in a newly allocated segment every other slot is `nil` |
| PhotosDataSource.RandomPicsumPhotosDataSource.constructor | Internal/RandomPicsumPhotosDataSource.swift:4-5 | the counter starts at 0 over an empty store with segments of 20, and the invariant holds |
| PhotosDataSource.RandomPicsumPhotosDataSource.UrlForTile | Internal/RandomPicsumPhotosDataSource.swift:7-18 | the returned id is the one stored for the tile afterwards; a repeat lookup returns the stored id and changes neither the counter nor the store; a first lookup returns the old counter and advances it by one; the counter never decreases; other tiles keep their ids; stored ids stay below the counter and distinct |
| ImageViewer.Clamp | InfinitelyScrollableImageViewer/InfinitelyScrollableImageViewer.swift:61 | `min(hi, max(lo, x))` lies in `[lo, hi]` when lo <= hi; it is `x` inside the bounds and the nearer bound outside them |
| ImageViewer.InfinitelyScrollableImageViewer.constructor | InfinitelyScrollableImageViewer/InfinitelyScrollableImageViewer.swift:15-22 | scale and base scale start at 1, with no cells, subviews or reloads |
| ImageViewer.InfinitelyScrollableImageViewer.OnPinch | InfinitelyScrollableImageViewer/InfinitelyScrollableImageViewer.swift:56-67 | a change sets the scale to the clamped product of the base scale and the gesture's factor; a finished gesture makes the scale the new base; possible and began change nothing; the scale stays within `[0.5, 4]` |
| ImageViewer.WindowMembership | InfinitelyScrollableImageViewer/InfinitelyScrollableImageViewer.swift:92-98 | a position is in the window set exactly when both range patterns match it |
| ImageViewer.WindowSize | InfinitelyScrollableImageViewer/InfinitelyScrollableImageViewer.swift:92-93 | the window holds (columns) x (rows) positions |
| ImageViewer.InjectiveValuesCount | InfinitelyScrollableImageViewer/InfinitelyScrollableImageViewer.swift:22 | a map binding no cell to two positions has as many distinct cells as positions |
| ImageViewer.SplitAtWindow | InfinitelyScrollableImageViewer/InfinitelyScrollableImageViewer.swift:97-105 | the entries inside and outside the window are disjoint, each binds no cell twice, together they hold every cell, and the positions with a cell inside the window are the same before and after the split |
| ImageViewer.InfinitelyScrollableImageViewer.CollectPool | InfinitelyScrollableImageViewer/InfinitelyScrollableImageViewer.swift:95-101 | the pool is exactly the displayed entries whose position is outside the window |
| ImageViewer.InfinitelyScrollableImageViewer.DetachPool | InfinitelyScrollableImageViewer/InfinitelyScrollableImageViewer.swift:103-105 | the pool's positions leave `displayedCells`, and nothing else changes |
| ImageViewer.InfinitelyScrollableImageViewer.BindCell | InfinitelyScrollableImageViewer/InfinitelyScrollableImageViewer.swift:112-128 | a position without a cell gets a pool cell, or a new one when the pool is empty, and is reloaded once; the loop invariant of bindings, pool, provenance and subviews is kept |
| ImageViewer.InfinitelyScrollableImageViewer.FillColumn | InfinitelyScrollableImageViewer/InfinitelyScrollableImageViewer.swift:108-129 | one column of the window gets covered while the loop invariant is kept |
| ImageViewer.InfinitelyScrollableImageViewer.FillColumns | InfinitelyScrollableImageViewer/InfinitelyScrollableImageViewer.swift:107-130 | every column of the window gets covered while the loop invariant is kept |
| ImageViewer.WindowFilled | InfinitelyScrollableImageViewer/InfinitelyScrollableImageViewer.swift:107-130 | once every column is covered, the bound positions are the window, and those added are exactly the window positions that had no cell |
| ImageViewer.InfinitelyScrollableImageViewer.FillWindow | InfinitelyScrollableImageViewer/InfinitelyScrollableImageViewer.swift:107-130 | afterwards the displayed positions are the window; existing cells are kept; the new reloads cover each new position once; taken pool cells plus allocated cells count the new positions; allocation happens only once the pool is empty; no cell is bound twice; the subviews are the bound cells plus the pool cells left over |
| ImageViewer.KeptAndNew | InfinitelyScrollableImageViewer/InfinitelyScrollableImageViewer.swift:112-126 | every displayed position inside the window keeps its cell, and every new position holds a pool cell or a newly allocated one |
| ImageViewer.RemovedAreLeftover | InfinitelyScrollableImageViewer/InfinitelyScrollableImageViewer.swift:116-134 | the cells no longer shown are exactly the leftover pool cells, and a pool cell is still shown if and only if a new position took it |
| ImageViewer.LayoutCounts | InfinitelyScrollableImageViewer/InfinitelyScrollableImageViewer.swift:116-134 | the cells allocated number `max(0, new - pool)` and the cells removed `max(0, pool - new)` |
| ImageViewer.LayoutOutcome | InfinitelyScrollableImageViewer/InfinitelyScrollableImageViewer.swift:95-134 | the fill and the discard together leave the subviews equal to the bound cells, the counts equal to the window size, and the allocated and removed counts and the pool's fate as stated for `LayoutSubviews` |
| ImageViewer.InfinitelyScrollableImageViewer.DiscardLeftover | InfinitelyScrollableImageViewer/InfinitelyScrollableImageViewer.swift:132-134 | the leftover pool cells leave the subviews, and nothing else changes |
| ImageViewer.InfinitelyScrollableImageViewer.Refill | InfinitelyScrollableImageViewer/InfinitelyScrollableImageViewer.swift:107-134 | from the cells inside the window and the pool outside it, the fill and the discard establish the outcome stated for `LayoutSubviews` |
| ImageViewer.InfinitelyScrollableImageViewer.LayoutSubviews | InfinitelyScrollableImageViewer/InfinitelyScrollableImageViewer.swift:95-134 | the displayed positions are exactly the window, and the live cell count equals its size; cells already displayed inside the window are kept and not reloaded; each new position is reloaded exactly once, with a pool cell or a new one; `max(0, new - pool)` cells are allocated and `max(0, pool - new)` removed, all of them from the pool; a pool cell is still shown if and only if a new position took it; no cell is bound to two positions; reloads from earlier passes are kept |

## Left out

- The network reload of a tile (`URLSession`, image decoding, the main-queue dispatch) is I/O and concurrency. A reload is only recorded, as an event in `reloadLog`.
- A cell is modelled as an id only. `reload` is called on the cell, but the cell class does not define it, so the model treats it as an abstract event.
- The viewport geometry (`tileToLocalRect`, `localPointToTile`, and the column and row counts from the bounds) is `CGFloat` arithmetic. The window ranges are inputs to `LayoutSubviews` instead.
- Assigning each cell's frame during layout is geometry and changes no bookkeeping, so it is not modelled.
- The pan handler and its offset arithmetic are `CGFloat` division and are not modelled.
- The gesture-recognizer setup, `setNeedsLayout` in the property observers and cell drawing are UIKit wiring, not logic.
- The `@unknown default` branch of the pinch handler is not modelled, because `GestureState` lists only the known states.
- `addSubview` and `removeFromSuperview` appear only as changes to the set `subviews`.
- The view controller is startup code only. It assigns a `dataSource` property that the viewer does not declare, so the viewer and the data source are modelled apart. The data-source protocol declares only the lookup.
- The URL text is not built. `UrlForTile` returns the id the URL embeds.
- `SegmentedGridData`'s round trips through `Double` are modelled as exact integer floor and ceiling division. Precision loss for coordinates beyond 2^53 is not modelled.
- `randomElement()` is modelled as an arbitrary choice from the pool, not as a random one.
- The order of dictionary iteration is modelled as an arbitrary order.
- ImageViewer.InfinitelyScrollableImageViewer.OnPinch: `scale`, `baseScale` and the gesture's factor are `CGFloat` (Double) in the source but `real` in the model, so the product `baseScale * pinchScale` is exact and its rounding is not modelled. Infinity and NaN are not modelled either; Swift's `max` and `min` still keep the source's scale within `[0.5, 4]`.
- Swift's trapping overflow of `Int` is not modelled: `nextPhotoId` and the cell counter are unbounded integers.
- SegmentedGrid.SegmentedGridData.constructor: requires a positive segment size. With a zero size, `Double(c) / Double(0)` is infinite or NaN and the `Int(floor(...))` conversion traps. With a negative size the getter returns `nil`, and the setter traps on the negative `count:` when it allocates a segment. The only caller passes 20.
- ImageViewer.InfinitelyScrollableImageViewer.LayoutSubviews: requires each range's lower bound to be at most its upper bound, since Swift's `..<` traps otherwise.
