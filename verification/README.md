# drawy core, modelled in Dafny

drawy is an infinite-canvas whiteboard. This project models its core:
- **Item state.** What the item classes (polygon, freeform stroke, text, group) keep and how they update it.
- **Spatial index.** The quadtree that indexes items by bounding box.
- **Ordering.** The ordered list that gives items their z order.
- **Tile cache.** The LRU grid of cache tiles.
- **Undo history.** The bounded undo/redo command history.
- **Coordinates.** The transforms between world, view and grid coordinates.
- **Hit testing.** The geometric helpers.
- **Input.** The input controller's key buffer, click counting and chord matching, and the action facades those chords switch on and off.

Each module corresponds to one source file:
- An object whose methods update fields becomes a `class` with those fields, `modifies` clauses and a `Valid()` invariant.
- Recursive or pure logic becomes datatypes and functions, with lemmas relating them.
- Each state-changing method is specified by a function of the old state. The lemmas then prove what the source promises about that function: a permutation, an order preserved, a round trip, a bound kept.

Supporting modules:
- `Geometry` stands for Qt's `QPointF`/`QRectF`/`QRect` semantics:
  - null rectangles never intersect;
  - `contains` includes the edges;
  - `qRound` rounds halves away from zero.
- `Wrappers` holds `Option` and `Result`.

A C++ `throw` is modelled as an `Err(NotFound)` or `Fail(NotFound)` result. Clock readings, item hit tests and "is a chord in progress" are parameters.

## Model

| member | source | states |
|---|---|---|
| CommonUtils.Trunc | src/common/utils.hpp:30 | static_cast<int> truncates toward zero: within 1 below a non-negative value, within 1 above a negative one |
| CommonUtils.Orientation | src/common/utils.hpp:26-32 | the orientation is 0 exactly when the cross product is strictly between -1 and 1, 1 when it is at least 1, -1 when it is at most -1 |
| CommonUtils.OrientationSwap | src/common/utils.hpp:26-32 | swapping the last two points negates the orientation |
| CommonUtils.SegmentsIntersect | src/common/utils.hpp:38-43 | a segment whose endpoints coincide intersects nothing, on either side of the test |
| CommonUtils.RectLineIntersects | src/common/utils.hpp:45-53 | a one-point segment never crosses a rectangle, and a rectangle collapsed to a point is never crossed |
| CommonUtils.RectsIntersect | src/common/utils.hpp:34-36 | rectangle intersection is symmetric, and two rectangles that meet share a point, the larger of their normalised top-left corners |
| CommonUtils.RectPointIntersects | src/common/utils.hpp:55-57 | a rectangle without area holds no point, and one with area holds its top-left and bottom-right corners |
| CommonUtils.SegmentsIntersectSymmetric | src/common/utils.hpp:38-43 | segment/segment intersection does not depend on the order of the segments |
| CommonUtils.CollinearNeverIntersect | src/common/utils.hpp:38-43 | two segments on one line are never reported as intersecting, in either order, even when they overlap |
| CommonUtils.Edges | src/common/utils.hpp:45-53 | the four edges are left, top, right and bottom, in the order and direction the rectangle/segment test builds them |
| CommonUtils.InsideSegmentReportedAsCrossing | src/common/utils.hpp:30 | with rectangle (0,0,10,10), the segment (0.05,1)-(1,9) lies inside it, yet the rectangle/segment test reports a crossing |
| CommonUtils.ExactOrientation | src/common/utils.hpp:26-32 | intended orientation: 0, 1 or -1 exactly when the cross product is zero, positive or negative |
| CommonUtils.SameSideOfEdges | src/common/utils.hpp:45-53 | a point strictly inside a proper rectangle has a fixed exact orientation against each of the four edges |
| CommonUtils.InsideSegmentMissesEdges | src/common/utils.hpp:45-53 | with exact signs, a segment strictly inside a proper rectangle crosses none of its edges |
| QtUtil.Index | src/common/utils/qt.cpp:5 | the variant alternative index is 0 for a key and 1 for a mouse button |
| QtUtil.KeyToken | src/common/utils/qt.cpp:4-13 | the 64-bit token holds the alternative in its high half and the enum value's low 32 bits in its low half |
| QtUtil.ShiftOrIsSum | src/common/utils/qt.cpp:12 | for an index below 2, shifting it left by 32 and or-ing in the masked value equals index * 2^32 + masked value |
| QtUtil.TokenInput | src/common/utils/qt.cpp:4-13 | the decoder of tokens: whatever it returns is an in-range input whose token is the one given |
| QtUtil.TokenRoundTrip | src/common/utils/qt.cpp:4-13 | decoding the token of an in-range input gives that input back |
| QtUtil.KeyNeverButton | src/common/utils/qt.cpp:5-12 | a key and a mouse button never share a token, whatever their values |
| QtUtil.TokenInjective | src/common/utils/qt.cpp:4-13 | two in-range inputs have equal tokens exactly when they are equal |
| Actions.CompareNat | src/controller/action.hpp:35-39 | the three-way comparison is Less, Equal or Greater exactly when a < b, a == b or a > b |
| Actions.CompareIsLexicographic | src/controller/action.hpp:21-55 | operator<=> is the lexicographic order on (alternative, enum value, mouse flag, count), in all three outcomes |
| Actions.CompareEqual | src/controller/action.hpp:21-55 | the comparison says Equal exactly when the two keys are equal |
| Actions.CompareAntisymmetric | src/controller/action.hpp:21-55 | swapping the operands reverses the comparison |
| Actions.CompareTransitive | src/controller/action.hpp:21-55 | Less is transitive, as std::set needs |
| Actions.MouseKey | src/controller/action.hpp:58-62 | key(button, count) is a mouse key in alternative 1 with that button and count |
| Actions.KeyboardKey | src/controller/action.hpp:64-66 | key(key, count) is a keyboard key in alternative 0 with that key and count |
| Actions.WellOrderedAppend | src/controller/action.hpp:118-143 | appending a task call that fits the current state keeps start/stop alternating; the task then runs unless the call was stop |
| Actions.ActionFacade.constructor | src/controller/action.hpp:109-111 | a new facade is disabled, holds the task and data given, and has made no calls on its task |
| Actions.ActionFacade.Enable | src/controller/action.hpp:118-126 | enable is a no-op when already enabled; otherwise it starts the task once (if there is one) and sets the flag |
| Actions.ActionFacade.Run | src/controller/action.hpp:128-133 | execute calls the task only when the facade is enabled and has a task; the flag is unchanged |
| Actions.ActionFacade.Disable | src/controller/action.hpp:135-143 | disable is a no-op when disabled; otherwise it stops the task once (if there is one) and clears the flag |
| Actions.ActionFacade.Toggle | src/controller/action.hpp:145 | toggle flips the flag, with exactly one stop or start call on the task |
| Actions.DefaultActions | src/controller/action.hpp:148-162 | the default actions are a move tool and an eraser, as two distinct fresh facades: disabled, hold-to-use, window -2, with their chords |
| Actions.DefaultChordsWellFormed | src/controller/action.hpp:153-158 | every key in the default chords has a mouse flag that matches its alternative, and a count of 1 |
| CoordinateTransformer.RoundPoint | src/context/coordinatetransformer.cpp:183-185 | round(QPointF) moves each coordinate by at most one half |
| CoordinateTransformer.RoundRect | src/context/coordinatetransformer.cpp:187-194 | round(QRectF) moves each of the four edges by at most one half |
| CoordinateTransformer.RoundSize | src/context/coordinatetransformer.cpp:196-198 | round(QSizeF) moves width and height by at most one half each |
| CoordinateTransformer.WorldViewPointRoundTrip | src/context/coordinatetransformer.cpp:39-53 | for a non-zero zoom, worldToView and viewToWorld on points are inverse, in both directions |
| CoordinateTransformer.WorldViewSizeRoundTrip | src/context/coordinatetransformer.cpp:43-57 | for a non-zero zoom, the size maps between world and view are inverse, in both directions |
| CoordinateTransformer.WorldViewRectRoundTrip | src/context/coordinatetransformer.cpp:47-61 | for a non-zero zoom, the rectangle maps between world and view are inverse, in both directions |
| CoordinateTransformer.WorldGridPointRoundTrip | src/context/coordinatetransformer.cpp:87-101 | for a non-zero zoom, worldToGrid and gridToWorld on points are inverse, in both directions |
| CoordinateTransformer.WorldGridSizeRoundTrip | src/context/coordinatetransformer.cpp:91-105 | for a non-zero zoom, the size maps between world and grid are inverse, in both directions |
| CoordinateTransformer.WorldGridRectRoundTrip | src/context/coordinatetransformer.cpp:95-109 | for a non-zero zoom, the rectangle maps between world and grid are inverse, in both directions |
| CoordinateTransformer.GridToViewAfterWorldToGrid | src/context/coordinatetransformer.cpp:147-157 | gridToView applied after worldToGrid equals worldToView directly, for points and rectangles |
| CoordinateTransformer.ViewToGridIsIdentity | src/context/coordinatetransformer.cpp:135-149 | as written, viewToGrid is the identity on points and rectangles, so viewToGrid(gridToView(p)) is p minus offset * zoom |
| CoordinateTransformer.ViewToGridMissesOffset | src/context/coordinatetransformer.cpp:135-137 | with zoom 1 and offset (1,0), the world origin taken to the view and then to the grid lands at (-1,0); worldToGrid puts it at (0,0) |
| CoordinateTransformer.IntendedViewGridRoundTrip | src/context/coordinatetransformer.cpp:135-157 | viewToGrid as intended (adding worldToGrid(offset)) is the inverse of gridToView on points and rectangles, in both directions, and it takes the view image of a world point to that point's grid image |
| CoordinateTransformer.ViewGridSizesUnchanged | src/context/coordinatetransformer.cpp:139-177 | the size maps between view and grid, real and integer, return the size unchanged |
| CoordinateTransformer.RoundRectOfIntegral | src/context/coordinatetransformer.cpp:187-194 | rounding an integer rectangle converted to real gives it back |
| CoordinateTransformer.ShiftedPointOfInt | src/context/coordinatetransformer.cpp:183-185 | rounding an integer point moved by whole pixels gives the moved point |
| CoordinateTransformer.IntegerWorldViewAtUnitZoom | src/context/coordinatetransformer.cpp:63-86 | at zoom 1 with a whole-pixel offset, the integer worldToView moves points and rectangles by minus the offset and keeps sizes, and the integer viewToWorld undoes it |
| CoordinateTransformer.IntegerWorldGridAtUnitZoom | src/context/coordinatetransformer.cpp:111-134 | at zoom 1 the integer worldToGrid and gridToWorld overloads are the identity on points, sizes and rectangles |
| CoordinateTransformer.IntegerViewGridOverloads | src/context/coordinatetransformer.cpp:159-182 | the integer viewToGrid overloads are the identity for every camera; at zoom 1 with a whole-pixel offset the integer gridToView moves by minus the offset |
| Ordering.InElements | src/data-structures/orderedlist.cpp:28-36 | an element is in the set of list elements exactly when it is in the list |
| Ordering.SameElements | src/data-structures/orderedlist.cpp:67-137 | a permutation of the list has the same element set |
| Ordering.PositionOf | src/data-structures/orderedlist.cpp:72 | the iterator the map stores is the first index holding the item |
| Ordering.Without | src/data-structures/orderedlist.cpp:55-65 | list::erase of an item keeps exactly the other elements and never grows the list |
| Ordering.WithoutKeepsOrder | src/data-structures/orderedlist.cpp:55-65 | erasing keeps the relative order of the remaining elements |
| Ordering.ZOrderIsListOrder | src/data-structures/orderedlist.cpp:38-144 | in a well-ordered list, z values increase strictly along the list and positions are distinct |
| Ordering.EndsAreExtremes | src/data-structures/orderedlist.cpp:109-137 | the first element has the least z and the last the greatest |
| Ordering.MovedToBack | src/data-structures/orderedlist.cpp:120 | splicing element k to the front is a permutation with that element first and the earlier ones shifted up by one |
| Ordering.MovedToFront | src/data-structures/orderedlist.cpp:135 | splicing element k to the end is a permutation with that element last and the later ones shifted down by one |
| Ordering.InsertedKeepsOrder | src/data-structures/orderedlist.cpp:38-53 | insert is a no-op for a present item; otherwise it appends the item with a z above all others (0 in an empty list) and keeps every other z |
| Ordering.RemovedKeepsOrder | src/data-structures/orderedlist.cpp:55-65 | remove keeps the list well ordered, drops the item from the list and the z map, and keeps every other element and its z |
| Ordering.InsertedIdempotent | src/data-structures/orderedlist.cpp:40-42 | inserting twice is the same as inserting once |
| Ordering.RemovedIdempotent | src/data-structures/orderedlist.cpp:57-59 | removing twice is the same as removing once |
| Ordering.SwapIsPermutation | src/data-structures/orderedlist.cpp:79-85 | swapping two neighbours permutes the list |
| Ordering.SwapKeepsOrder | src/data-structures/orderedlist.cpp:67-107 | swapping two neighbours together with their z values keeps the list well ordered and the z sequence along the list unchanged |
| Ordering.SameZAlong | src/data-structures/orderedlist.cpp:67-137 | a list whose z sequence equals that of a well-ordered list is well ordered |
| Ordering.BroughtForwardKeepsOrder | src/data-structures/orderedlist.cpp:67-86 | bringForward is a no-op at the end; otherwise it swaps the item with its successor, keeps the order, and is a permutation |
| Ordering.SentBackwardKeepsOrder | src/data-structures/orderedlist.cpp:88-107 | sendBackward is a no-op at the front; otherwise it swaps the item with its predecessor, keeps the order, and is a permutation |
| Ordering.SentToBackKeepsOrder | src/data-structures/orderedlist.cpp:109-122 | sendToBack puts the item first with a z below all others and keeps the others' z |
| Ordering.BroughtToFrontKeepsOrder | src/data-structures/orderedlist.cpp:124-137 | bringToFront puts the item last with a z above all others and keeps the others' z |
| Ordering.WithoutAbsent | src/data-structures/orderedlist.cpp:55-65 | erasing an absent item leaves the list as it is |
| Ordering.WithoutPresent | src/data-structures/orderedlist.cpp:55-65 | in a list without duplicates, erasing the item at k removes exactly position k |
| Ordering.WithoutAt | src/data-structures/orderedlist.cpp:62-63 | erasing an item removes it at its stored position |
| Ordering.ElementsOfWithout | src/data-structures/orderedlist.cpp:55-65 | the element set after erasing x is the old set minus x |
| Ordering.ElementsOfAppend | src/data-structures/orderedlist.cpp:38-53 | the element set after appending x is the old set plus x |
| Ordering.InsertedTracks | src/data-structures/orderedlist.cpp:38-53 | after insert, the iterator map's keys are the list's elements, plus the new item |
| Ordering.RemovedTracks | src/data-structures/orderedlist.cpp:55-65 | after remove, the iterator map's keys are the list's elements, minus the item |
| Ordering.RemovedAbsent | src/data-structures/orderedlist.cpp:57-59 | removing an untracked item changes nothing |
| Ordering.PermutedTracks | src/data-structures/orderedlist.cpp:67-137 | a permutation keeps the iterator map's keys and the list's elements in step |
| Ordering.BroughtForwardTracks | src/data-structures/orderedlist.cpp:67-86 | bringForward keeps the iterator map in step with the list |
| Ordering.SentBackwardTracks | src/data-structures/orderedlist.cpp:88-107 | sendBackward keeps the iterator map in step with the list |
| Ordering.SentToBackTracks | src/data-structures/orderedlist.cpp:109-122 | sendToBack keeps the iterator map in step with the list |
| Ordering.MovedToBackTracks | src/data-structures/orderedlist.cpp:119-121 | the splice to the front with its new z keeps the iterator map in step |
| Ordering.BroughtToFrontTracks | src/data-structures/orderedlist.cpp:124-137 | bringToFront keeps the iterator map in step with the list |
| Ordering.MovedToFrontTracks | src/data-structures/orderedlist.cpp:134-136 | the splice to the end with its new z keeps the iterator map in step |
| Ordering.OrderedList.constructor | src/data-structures/orderedlist.hpp:30-33 | a new ordered list is empty |
| Ordering.OrderedList.HasItem | src/data-structures/orderedlist.cpp:28-36 | hasItem is true exactly when the item is in the list |
| Ordering.OrderedList.Insert | src/data-structures/orderedlist.cpp:38-53 | insert leaves the list and z map as the Inserted function describes |
| Ordering.OrderedList.Remove | src/data-structures/orderedlist.cpp:55-65 | remove leaves the list and z map as the Removed function describes |
| Ordering.OrderedList.BringForward | src/data-structures/orderedlist.cpp:67-86 | bringForward fails with NotFound exactly for an absent item and then changes nothing; otherwise the new state is BroughtForward of the old |
| Ordering.OrderedList.SendBackward | src/data-structures/orderedlist.cpp:88-107 | sendBackward fails with NotFound exactly for an absent item and then changes nothing; otherwise the new state is SentBackward of the old |
| Ordering.OrderedList.SendToBack | src/data-structures/orderedlist.cpp:109-122 | sendToBack fails with NotFound exactly for an absent item and then changes nothing; otherwise the new state is SentToBack of the old |
| Ordering.OrderedList.BringToFront | src/data-structures/orderedlist.cpp:124-137 | bringToFront fails with NotFound exactly for an absent item and then changes nothing; otherwise the new state is BroughtToFront of the old |
| Ordering.OrderedList.ZIndex | src/data-structures/orderedlist.cpp:139-144 | zIndex succeeds exactly for a present item and then returns the z-index stored for it; that value is below another item's exactly when the item comes earlier in the list |
| UniqueDeques.KeysCard | src/data-structures/uniquedeque.hpp:65-68 | with distinct keys, the key set has as many members as the deque |
| UniqueDeques.RemoveAtKeys | src/data-structures/uniquedeque.hpp:95-105 | removing one position drops exactly that key and keeps the keys distinct |
| UniqueDeques.AddedKeys | src/data-structures/uniquedeque.hpp:37-53 | pushing a value with a new key at either end keeps the keys distinct and adds exactly that key |
| UniqueDeques.EraseKeyAbsent | src/data-structures/uniquedeque.hpp:95-105 | erasing an absent key leaves the deque as it is |
| UniqueDeques.EraseKeyAt | src/data-structures/uniquedeque.hpp:98-102 | erasing a present key removes exactly the position that holds it |
| UniqueDeques.KeptMembers | src/data-structures/uniquedeque.hpp:113-124 | erase_if keeps exactly the elements that fail the predicate, keeps keys distinct, and never grows the deque |
| UniqueDeques.KeptIdempotent | src/data-structures/uniquedeque.hpp:113-124 | erase_if twice is erase_if once, and it is a no-op when nothing matches |
| UniqueDeques.UniqueDeque.constructor | src/data-structures/uniquedeque.hpp:8-11 | a new deque is empty and compares elements by the given key |
| UniqueDeques.UniqueDeque.Size | src/data-structures/uniquedeque.hpp:65-68 | size is the number of elements, and the number of keys |
| UniqueDeques.UniqueDeque.Empty | src/data-structures/uniquedeque.hpp:70-73 | empty is true exactly when there are no elements and no keys |
| UniqueDeques.UniqueDeque.PushBack | src/data-structures/uniquedeque.hpp:37-44 | push_back appends exactly when the key is new, and says whether it did |
| UniqueDeques.UniqueDeque.PushFront | src/data-structures/uniquedeque.hpp:46-53 | push_front prepends exactly when the key is new, and says whether it did |
| UniqueDeques.UniqueDeque.Erase | src/data-structures/uniquedeque.hpp:95-105 | erase removes the element with the value's key, drops the key, and says whether it was present |
| UniqueDeques.UniqueDeque.Clear | src/data-structures/uniquedeque.hpp:107-111 | clear empties the elements and the keys |
| UniqueDeques.UniqueDeque.EraseIf | src/data-structures/uniquedeque.hpp:113-124 | erase_if leaves the elements that fail the predicate, in order |
| CommandHistories.Push | src/command/commandhistory.cpp:41-70 | pushing onto a bounded stack, as undo, redo and insert do, puts the command on top and drops the bottom one only at the bound; below it, the stack grows by one |
| CommandHistories.TransitionsBounded | src/command/commandhistory.cpp:32-71 | insert, undo and redo each keep both stacks below 100 commands |
| CommandHistories.InsertOnTop | src/command/commandhistory.cpp:61-71 | insert puts the command on top of the undo stack and empties the redo stack |
| CommandHistories.UndoThenRedo | src/command/commandhistory.cpp:32-59 | below the bound, undoing and then redoing restores both stacks |
| CommandHistories.RedoThenUndo | src/command/commandhistory.cpp:32-59 | below the bound, redoing and then undoing restores both stacks |
| CommandHistories.UndoAtBoundDrops | src/command/commandhistory.cpp:41-42 | undoing with a full redo stack drops that stack's oldest command |
| CommandHistories.CommandHistory.constructor | src/command/commandhistory.cpp:23-26 | a new history has empty stacks and has run nothing |
| CommandHistories.CommandHistory.Undo | src/command/commandhistory.cpp:32-45 | undo moves the top command to the redo stack and undoes it; on an empty stack it does nothing |
| CommandHistories.CommandHistory.Redo | src/command/commandhistory.cpp:47-59 | redo moves the top command back and executes it; on an empty stack it does nothing |
| CommandHistories.CommandHistory.Insert | src/command/commandhistory.cpp:61-71 | insert executes the command, pushes it and clears the redo stack |
| CommandHistories.CommandHistory.Clear | src/command/commandhistory.cpp:73-76 | clear empties both stacks without running anything |
| CacheGrids.PixelInOneCell | src/data-structures/cachegrid.cpp:55-59 | a pixel lies in a cell's rectangle exactly when that cell is the one its coordinates divide into |
| CacheGrids.CellSize | src/data-structures/cachegrid.cpp:69-71 | cellSize is a square with positive side, and every tile's rectangle has that size |
| CacheGrids.TilesAbut | src/data-structures/cachegrid.cpp:55-59 | the rect of the next tile to the right or below starts one pixel past this tile's last column or row |
| CacheGrids.InColumn | src/data-structures/cachegrid.cpp:97-99 | the inner query loop visits exactly the cells of one column between the bounds, once each |
| CacheGrids.InBlock | src/data-structures/cachegrid.cpp:96-100 | the two query loops visit exactly the cells of the block, once each |
| CacheGrids.QueryCoversRect | src/data-structures/cachegrid.cpp:87-103 | every pixel of the queried rectangle lies in one of the cells the query returns |
| CacheGrids.QueryOnlyMeetingCells | src/data-structures/cachegrid.cpp:87-103 | for a non-empty rectangle, every returned cell shares a pixel with it |
| CacheGrids.TouchedKeepsPoints | src/data-structures/cachegrid.cpp:131-145 | moving a hit to the back of the LRU list keeps the same distinct points and puts the hit last |
| CacheGrids.TouchedAt | src/data-structures/cachegrid.cpp:131-145 | moving a hit to the back removes it from its position and appends it |
| CacheGrids.EvictedKeepsPoints | src/data-structures/cachegrid.cpp:115-130 | evicting the front and appending a new point keeps the points distinct and the count unchanged |
| CacheGrids.InTouched | src/data-structures/cachegrid.cpp:131-145 | moving a hit to the back brings in no point that was not there |
| CacheGrids.VisitedSnoc | src/data-structures/cachegrid.cpp:96-100 | the recency list after one more cell() call is one more step of the list before it |
| CacheGrids.StepKeepsRecent | src/data-structures/cachegrid.cpp:112-148 | one cell() call keeps the list duplicate-free and puts its point behind the most recently used points, unless that run already fills the limit |
| CacheGrids.VisitedKeepsRecent | src/data-structures/cachegrid.cpp:96-100 | cell() on a duplicate-free run of points that fits the limit leaves the whole run, in order, at the most recently used end |
| CacheGrids.VisitedKeepsAll | src/data-structures/cachegrid.cpp:87-103 | a duplicate-free run of at most maxSize points is entirely resident afterwards |
| CacheGrids.QueryEvictsOwnTiles | src/data-structures/cachegrid.cpp:87-103 | with a limit of 1, the two tiles of a 501 by 1 rectangle at the origin leave only the second resident |
| CacheGrids.ColumnDistinct | src/data-structures/cachegrid.cpp:97-99 | the inner loop visits no grid point twice |
| CacheGrids.BlockDistinct | src/data-structures/cachegrid.cpp:96-100 | the two loops visit no grid point twice |
| CacheGrids.CellsSoFarStep | src/data-structures/cachegrid.cpp:112-148 | one more cell() call on the next query point, with its hit, miss and eviction cases, extends the loops' progress by one tile |
| CacheGrids.CacheCell.constructor | src/data-structures/cachegrid.cpp:26-37 | a new cell has its point and starts dirty |
| CacheGrids.CacheCell.SetDirty | src/data-structures/cachegrid.cpp:61-63 | setDirty stores the flag |
| CacheGrids.CacheGrid.constructor | src/data-structures/cachegrid.cpp:73-81 | a new grid is empty, with the given maximum size |
| CacheGrids.CacheGrid.Create | src/data-structures/cachegrid.cpp:73-81 | construction fails exactly when the maximum size is 0; otherwise it gives an empty grid of that size |
| CacheGrids.CacheGrid.Size | src/data-structures/cachegrid.cpp:150-152 | size is the number of cached cells, which is the length of the LRU list |
| CacheGrids.CacheGrid.SetSize | src/data-structures/cachegrid.cpp:154-156 | setSize changes only the maximum, evicting nothing |
| CacheGrids.CacheGrid.Cell | src/data-structures/cachegrid.cpp:112-148 | a hit returns the cached cell and moves it to the back; a miss creates a fresh dirty cell and appends it, after evicting the front when the count equals the maximum; other cells are kept |
| CacheGrids.CacheGrid.CellsAt | src/data-structures/cachegrid.cpp:96-100 | the two query loops call cell() on each point in order: the recency list ends as Visited says, the k-th tile is the resident one on a hit and a fresh dirty one on a miss, a still-resident query point holds its returned tile, and other resident tiles are unchanged |
| CacheGrids.CacheGrid.CellsStep | src/data-structures/cachegrid.cpp:98 | one more cell() call extends what the loops have produced by the next point's tile |
| CacheGrids.CacheGrid.QueryCells | src/data-structures/cachegrid.cpp:87-103 | queryCells calls cell() on each grid point of the rectangle in loop order: the recency list ends as Visited says; the k-th tile is the resident one on a hit and a fresh dirty one on a miss; a query point still resident holds the tile returned for it; when the range has at most maxSize tiles every one of them is resident; tiles at other points are untouched |
| CacheGrids.CacheGrid.MarkDirty | src/data-structures/cachegrid.cpp:105-110 | markDirty queries the range, creating missing tiles, so the recency list changes as for queryCells; every resident tile of the range is dirty afterwards, and when the range has at most maxSize tiles all of them are resident and dirty; a tile at another point keeps its flag and its place |
| CacheGrids.CacheGrid.SetAllDirty | src/data-structures/cachegrid.cpp:107-109 | markDirty's loop leaves every tile of the list dirty |
| CacheGrids.CacheGrid.MarkAllDirty | src/data-structures/cachegrid.cpp:158-162 | every cached cell is dirty afterwards |
| QuadTrees.QuadrantsCoverPoints | src/data-structures/quadtree.cpp:43-58 | every point of a proper region lies in one of its four quadrants |
| QuadTrees.QuadrantsTile | src/data-structures/quadtree.cpp:43-58 | a rectangle meets a proper region exactly when it meets one of the four quadrants |
| QuadTrees.Count | src/data-structures/quadtree.cpp:214-224 | size counts the items stored at every node, which is the length of getAllItems |
| QuadTrees.Opened | src/data-structures/quadtree.cpp:82-84 | subdividing a leaf keeps its items and region and gives it four children |
| QuadTrees.OpenedRanksBelow | src/data-structures/quadtree.cpp:82-84 | subdividing a full leaf gives children of lower rank, so the recursion ends |
| QuadTrees.OpenedKeepsBag | src/data-structures/quadtree.cpp:43-58 | subdividing adds no items and loses none |
| QuadTrees.EmptyLeaf | src/data-structures/quadtree.cpp:27-37 | an empty leaf holds no items |
| QuadTrees.EraseFirst | src/data-structures/quadtree.cpp:104-106 | erasing the first copy of a present item removes one copy and nothing else; erasing an absent item changes nothing |
| QuadTrees.InsertKeepsShape | src/data-structures/quadtree.cpp:68-97 | insert keeps the tree well formed and its region unchanged |
| QuadTrees.InsertHitsIffIntersects | src/data-structures/quadtree.cpp:69-71 | insert stores the item somewhere exactly when its box meets the node's region, and otherwise leaves the node as it is |
| QuadTrees.BagOfSplit | src/data-structures/quadtree.cpp:199-208 | the items of a split node are its own items plus those of its four children |
| QuadTrees.DropSum | src/data-structures/quadtree.cpp:199-208 | setting aside x distributes over a union of bags |
| QuadTrees.SplitAddedOnly | src/data-structures/quadtree.cpp:86-96 | if each child gains only copies of x, so does the split node, and it reports a hit when any child did |
| QuadTrees.InsertAddsOnlyItem | src/data-structures/quadtree.cpp:68-97 | insert adds only copies of the item, and reports a hit exactly when it added one |
| QuadTrees.FullInsertAddsOnlyItem | src/data-structures/quadtree.cpp:82-96 | inserting into a full node adds only copies of the item |
| QuadTrees.BagOfWithItems | src/data-structures/quadtree.cpp:199-208 | replacing a node's own items replaces only that part of its bag |
| QuadTrees.StoredAddedOnly | src/data-structures/quadtree.cpp:73-79 | appending the item to a node's list adds exactly one copy |
| QuadTrees.DeleteKeepsShape | src/data-structures/quadtree.cpp:99-121 | delete keeps the tree well formed and its region unchanged |
| QuadTrees.SplitRemovedOnly | src/data-structures/quadtree.cpp:114-120 | if each child loses only copies of x, so does the split node |
| QuadTrees.ErasedRemovesOne | src/data-structures/quadtree.cpp:104-106 | erasing a present item from a node's list removes exactly one copy from its bag |
| QuadTrees.OneLessRemovedOnly | src/data-structures/quadtree.cpp:104-106 | a bag with exactly one copy of x fewer counts as a removal of x alone |
| QuadTrees.DeleteRemovesOnlyItem | src/data-structures/quadtree.cpp:99-121 | delete removes only copies of the item, and reports whether it removed any |
| QuadTrees.UpdatedHereRanksBelow | src/data-structures/quadtree.cpp:149-176 | after the per-node update step, a split node's children rank below it, so the recursion ends |
| QuadTrees.UpdatedHereKeepsShape | src/data-structures/quadtree.cpp:149-176 | the per-node update step keeps the node well formed and its region unchanged |
| QuadTrees.UpdateKeepsShape | src/data-structures/quadtree.cpp:149-176 | update keeps the tree well formed and its region unchanged |
| QuadTrees.SplitSameBesides | src/data-structures/quadtree.cpp:170-175 | if each child is unchanged apart from x, so is the split node |
| QuadTrees.WithItemsSameBesides | src/data-structures/quadtree.cpp:155-168 | replacing a node's items with a list equal apart from x changes nothing but x |
| QuadTrees.EraseFirstBesides | src/data-structures/quadtree.cpp:155-160 | erasing x touches no other item |
| QuadTrees.AppendedBesides | src/data-structures/quadtree.cpp:162-165 | appending x touches no other item |
| QuadTrees.SubdividedSameBesides | src/data-structures/quadtree.cpp:162-168 | subdividing after such a change still changes nothing but x |
| QuadTrees.UpdatedHereMovesOnlyItem | src/data-structures/quadtree.cpp:149-176 | the per-node update step changes nothing but the item's copies |
| QuadTrees.UpdateMovesOnlyItem | src/data-structures/quadtree.cpp:149-176 | update changes no stored item other than x |
| QuadTrees.UpdatePlacesItem | src/data-structures/quadtree.cpp:149-176 | after updating an item whose new box meets the region, the item is stored somewhere |
| QuadTrees.GapShrinks | src/data-structures/quadtree.cpp:242-300 | doubling the region toward a point outside it reduces the gap measure |
| QuadTrees.GapWidens | src/data-structures/quadtree.cpp:242-300 | doubling the region never increases the gap measure |
| QuadTrees.GrownStepsLess | src/data-structures/quadtree.cpp:242-300 | each expansion step reduces the remaining steps, so expand terminates |
| QuadTrees.Expanded | src/data-structures/quadtree.cpp:242-300 | expand ends with a proper region containing the point, and is a no-op when the point is already contained |
| QuadTrees.GrownKeepsShape | src/data-structures/quadtree.cpp:248-296 | one expansion step doubles the region toward the point, keeps the old tree as the quadrant nearest the old origin, and keeps all items |
| QuadTrees.ExpandedKeepsTree | src/data-structures/quadtree.cpp:242-300 | expand keeps the tree well formed, keeps all items, and grows the region to cover the old one |
| QuadTrees.ExpandedToBox | src/data-structures/quadtree.cpp:60-64 | expanding to a box's corners keeps the region proper |
| QuadTrees.ExpandedToBoxCovers | src/data-structures/quadtree.cpp:60-66 | after expanding to a box's four corners, the region contains them all, the tree is well formed, and no item is lost |
| QuadTrees.CornersInIntersects | src/data-structures/quadtree.cpp:60-71 | once the region contains a box's corners, the box meets it exactly when the box is not flat |
| QuadTrees.ClearedEmpties | src/data-structures/quadtree.cpp:123-132 | clear empties every node, keeps the node shape, and keeps the tree well formed |
| QuadTrees.SweepKeepsMisses | src/data-structures/quadtree.cpp:182-189 | deleteItems' loop over a node's list keeps exactly the entries whose box misses the query box, in order, and calls remove once per erased entry |
| QuadTrees.DeleteItemsUnlistsSuccessor | src/data-structures/quadtree.cpp:184-185 | as written, with a list [a, b] where only a meets the box, a is erased but b is the one removed from the ordered list; with [a] alone, remove reads past the end |
| QuadTrees.IntendedSweepUnlistsHits | src/data-structures/quadtree.cpp:182-189 | with remove called on the entry before erasing it, the ordered list loses exactly the erased entries, in order |
| QuadTrees.Listed | src/data-structures/quadtree.cpp:185 | each entry becomes the value handed to remove, one for one |
| QuadTrees.SweepFrom | src/data-structures/quadtree.cpp:182-189 | the loop over a node's list, as written or corrected: every entry either stays in the list or yields one remove call, and the entries before the start position stay |
| QuadTrees.DeleteItems | src/data-structures/quadtree.cpp:178-197 | deleteItems keeps every node's region and kind, and each stored copy either stays in the tree or yields exactly one remove call |
| QuadTrees.DeleteItemsKeepsShape | src/data-structures/quadtree.cpp:178-197 | deleteItems keeps the tree's shape and well-formedness; a node that meets the box keeps exactly its entries that miss it, and one that misses it is unchanged |
| QuadTrees.MissesShorter | src/data-structures/quadtree.cpp:182-189 | the loop never lengthens a node's list |
| QuadTrees.SameShapeReflexive | src/data-structures/quadtree.cpp:178-180 | a node whose region misses the box keeps its shape |
| QuadTrees.InsertByZ | src/data-structures/quadtree.cpp:134-138 | inserting by z keeps a z-sorted list sorted and adds exactly the item |
| QuadTrees.SortedBehindHead | src/data-structures/quadtree.cpp:134-138 | keeping the head in front of a sorted tail that gained an item of higher z-index keeps the sequence sorted |
| QuadTrees.QuadTree.constructor | src/data-structures/quadtree.cpp:27-31 | a new tree is one empty leaf over the region, with a fresh empty ordered list |
| QuadTrees.QuadTree.Sharing | src/data-structures/quadtree.cpp:33-37 | the second constructor gives one empty leaf that shares the given ordered list |
| QuadTrees.QuadTree.Size | src/data-structures/quadtree.cpp:214-224 | size is the number of stored item copies |
| QuadTrees.QuadTree.GetAllItems | src/data-structures/quadtree.cpp:199-208 | getAllItems lists as many entries as size counts, the root's own entries first |
| QuadTrees.QuadTree.BoundingBox | src/data-structures/quadtree.cpp:210-212 | boundingBox is the root's region, which has area in a well-formed tree |
| QuadTrees.QuadTree.Expand | src/data-structures/quadtree.cpp:242-300 | expand replaces the root with its expansion toward the point |
| QuadTrees.QuadTree.InsertItem | src/data-structures/quadtree.cpp:60-66 | insertItem expands to the box and inserts; no other item changes; the item is gained exactly when the box is not flat; the z order is updated only when asked and the item was stored |
| QuadTrees.QuadTree.DeleteItem | src/data-structures/quadtree.cpp:99-121 | deleteItem removes only copies of the item, and removes it from the z order exactly when asked and a copy was removed |
| QuadTrees.QuadTree.UpdateItem | src/data-structures/quadtree.cpp:140-147 | updateItem expands to the new box, moves only the item, stores it when the box is not flat, and leaves the z order alone |
| QuadTrees.QuadTree.Clear | src/data-structures/quadtree.cpp:123-132 | clear empties the tree and keeps its node shape |
| QuadTrees.QuadTree.Reorder | src/data-structures/quadtree.cpp:134-138 | reorder fails exactly when there are two or more items and one is not in the z order; otherwise the result is a permutation sorted by z |
| Items.TypesOf | src/item/item.cpp:48-56 | propertyTypes lists one type per stored property |
| Items.Lookup | src/item/item.cpp:40-46 | a lookup finds nothing exactly when the type is not stored, and what it finds is stored under that type |
| Items.IndexOfType | src/item/item.cpp:40-46 | the index of a type is -1 exactly when it is absent, and otherwise a position holding that type |
| Items.LookupAt | src/item/item.cpp:40-46 | with distinct types, looking up the type stored at k gives the property stored at k |
| Items.ReplacedKeys | src/item/item.cpp:68-74 | setProperty never changes the set or order of types |
| Items.ReplacedLookup | src/item/item.cpp:68-74 | after setProperty, a present type reads the new property and every other type reads what it did |
| Items.ReplacedAbsent | src/item/item.cpp:68-74 | setProperty on an absent type changes nothing |
| Items.PutNew | src/item/item.cpp:68-74 | adding a new type keeps types distinct, appends it, and leaves other lookups alone |
| Items.Item.constructor | src/item/item.cpp:24-25 | a new item has a zero box, zero padding and no properties |
| Items.Item.BoundingBox | src/item/item.cpp:31-34 | boundingBox is the box grown by the padding on every side |
| Items.Item.PaddingCovers | src/item/item.cpp:31-34 | with non-negative padding, the padded box is normal and contains every point of the box |
| Items.Item.SetPadding | src/item/item.cpp:36-38 | setBoundingBoxPadding stores the padding, which boundingBoxPadding then returns, and changes nothing else |
| Items.Item.Padding | src/item/item.cpp:79-81 | boundingBoxPadding is the margin boundingBox adds on each side of the stored box |
| Items.Item.GetProperty | src/item/item.cpp:40-46 | property fails with NotFound exactly when the type is absent, and otherwise returns what is stored under it |
| Items.Item.Properties | src/item/item.cpp:58-66 | properties lists one property per stored type |
| Items.Item.PropertyTypes | src/item/item.cpp:48-56 | propertyTypes lists one type per stored property, and a type is listed exactly when property() finds it |
| Items.Item.TypesMatchProperties | src/item/item.cpp:48-66 | propertyTypes and properties are in step, types are distinct, and each type reads its property |
| Items.Item.SetProperty | src/item/item.cpp:68-74 | setProperty replaces the property of a present type and changes nothing else |
| Items.Item.Put | src/item/item.cpp:68-74 | assigning m_properties[t] makes t read p, leaves other types alone, and appends t when it is new |
| Polygons.EndpointBox | src/item/polygon.cpp:46-55 | the box spans both endpoints, widened by the stroke width on every side |
| Polygons.EndpointBoxCovers | src/item/polygon.cpp:46-55 | the box is normal and spans both endpoints; with a positive width it contains them |
| Polygons.EndpointBoxShift | src/item/polygon.cpp:88-93 | shifting both endpoints shifts their box by the same amount |
| Polygons.PolygonItem.constructor | src/item/polygon.cpp:21-25 | a new polygon has zero endpoints, a zero box, and stroke width 1, black stroke colour and full opacity |
| Polygons.PolygonItem.SetStart | src/item/polygon.cpp:27-31 | setStart keeps the item valid and puts both endpoints at the point, with an empty box there; padding and properties stay |
| Polygons.PolygonItem.SetEnd | src/item/polygon.cpp:33-36 | setEnd moves the end and refits the box to the endpoints |
| Polygons.PolygonItem.UpdateBoundingBox | src/item/polygon.cpp:46-55 | the box is refitted to the endpoints and stroke width |
| Polygons.PolygonItem.Translate | src/item/polygon.cpp:88-93 | translate shifts both endpoints, and the refitted box is the old box shifted |
| Freeforms.SumFront | src/item/freeform.cpp:117-127 | the sum of a window is its first point plus the sum of the rest |
| Freeforms.DivByLengthIsQuotient | src/item/freeform.cpp:117-127 | dividing by the window length is real division |
| Freeforms.LastN | src/item/freeform.cpp:117-127 | the window holds the last n raw points, or all of them when there are fewer |
| Freeforms.MeanOfOne | src/item/freeform.cpp:117-127 | the mean of one point is that point |
| Freeforms.GrownBox | src/item/freeform.cpp:43-57 | as written, the first two points reset the box around the new point; later points widen it to cover the new point padded by the width |
| Freeforms.GrownBoxCoversAllButFirst | src/item/freeform.cpp:43-57 | the box built as written covers every point except the first |
| Freeforms.SecondPointDropsFirst | src/item/freeform.cpp:49 | adding (0,0) and then (10,0) with width 1 leaves (0,0) outside the box |
| Freeforms.CoveringBoxCovers | src/item/freeform.cpp:43-57 | the box as intended (reset only for the first point) covers every point, padded by the width |
| Freeforms.ShiftKeepsCover | src/item/freeform.cpp:229-235 | translating the points and the box together keeps the box covering them |
| Freeforms.Shifted | src/item/freeform.cpp:229-235 | translating the points keeps their count |
| Freeforms.ChunksOverlap | src/item/freeform.cpp:202-227 | each chunk is non-empty with at most MaxPoints+1 points, starts at position MaxPoints*k, and shares its last point with the next chunk's first; the last chunk ends at the last point |
| Freeforms.ChunkStarts | src/item/freeform.cpp:202-227 | chunk k exists exactly when MaxPoints*k is a valid point index |
| Freeforms.FreeformItem.constructor | src/item/freeform.cpp:26-30 | a new stroke is empty, with a zero box, width 1, black stroke colour and full opacity |
| Freeforms.FreeformItem.Size | src/item/freeform.cpp:191-193 | size is the number of points, which equals the number of pressures |
| Freeforms.FreeformItem.OptimizePoint | src/item/freeform.cpp:117-127 | the raw point joins the buffer, and the result is the mean of the last (at most 7) raw points |
| Freeforms.FreeformItem.AddPoint | src/item/freeform.cpp:36-61 | addPoint appends one point (smoothed when asked) and its pressure, keeps the earlier points, and grows the box as written |
| Freeforms.FreeformItem.Translate | src/item/freeform.cpp:229-235 | translate shifts every point and the box by the same amount and keeps the pressures |
| Freeforms.FreeformItem.Split | src/item/freeform.cpp:202-227 | split returns one fresh stroke per chunk, holding exactly that chunk's points and pressures and copies of the properties and padding |
| Freeforms.SplitChunks | src/item/freeform.cpp:205-224 | the chunking loop walks every point and leaves chunk k holding the points from MaxPoints*k |
| Freeforms.SplitEnds | src/item/freeform.cpp:205-226 | when the loop ends, there is one chunk per chunk index, each holding its slice of points and pressures |
| Freeforms.CountFromBounds | src/item/freeform.cpp:205-226 | the chunk count fixed by the loop's last start index is the one ChunkCount computes |
| Freeforms.ChunkBoundary | src/item/freeform.cpp:207-213 | a new chunk opens exactly at multiples of MaxPoints |
| Groups.ObjNotBase | src/item/group.cpp:15-19 | a child item is never the base object of another child |
| Groups.MovedBack | src/item/group.cpp:15-19 | translating a child's view keeps it consistent, shifts its box, and translating back restores it |
| Groups.UpdatedLookup | src/item/group.cpp:64-68 | setting a property on a child keeps its types, and only that type's lookup changes, if present |
| Groups.UnionCovers | src/item/group.cpp:50-58 | the united box is null when every child box is null, and otherwise covers every non-null child box |
| Groups.Present | src/item/group.cpp:70-91 | the present lookups are exactly the children's found properties |
| Groups.AllAgreeConcat | src/item/group.cpp:75-90 | all properties agree on a value across a concatenation exactly when they agree in each part |
| Groups.AgreedFrom | src/item/group.cpp:75-90 | the group's value is the first one when every child agrees, and the default otherwise |
| Groups.AgreedMeaning | src/item/group.cpp:70-91 | for typed lookups: with no child holding the type, the result is the default; when all agree it is the first; otherwise it is the default |
| Groups.TypeUnionMeaning | src/item/group.cpp:103-111 | a type is in the group's type set exactly when some child has it |
| Groups.PropertiesOfMeaning | src/item/group.cpp:93-101 | a property is in the group's list exactly when some child has it |
| Groups.GroupItem.constructor | src/item/group.h:26 | a new group has no children |
| Groups.GroupItem.Group | src/item/group.cpp:21-23 | group stores the given children |
| Groups.GroupItem.UnGroup | src/item/group.cpp:46-48 | unGroup returns the children |
| Groups.GroupItem.Boxes | src/item/group.cpp:50-58 | one bounding box per child, in order |
| Groups.GroupItem.BoundingBox | src/item/group.cpp:50-58 | the box is the union of the children's boxes |
| Groups.GroupItem.Intersects | src/item/group.cpp:25-43 | the group is hit exactly when some child is hit |
| Groups.GroupItem.Found | src/item/group.cpp:70-91 | one lookup per child, in order |
| Groups.GroupItem.Property | src/item/group.cpp:70-91 | property fails with NotFound for an empty group, and otherwise gives the children's agreed value |
| Groups.GroupItem.Properties | src/item/group.cpp:93-101 | properties collects every child's properties |
| Groups.GroupItem.PropertyTypes | src/item/group.cpp:103-111 | propertyTypes lists without repetition exactly the types some child has |
| Groups.GroupItem.Translate | src/item/group.cpp:15-19 | translate shifts every child's view and keeps the children |
| Groups.GroupItem.SetProperty | src/item/group.cpp:64-68 | setProperty updates every child's view and keeps the children |
| TextItems.SeparatorsByCode | src/common/constants.hpp:53-56 | the separator test by character code matches the separator list |
| TextItems.LastAtOrBefore | src/item/text.cpp:182-194 | the backward search finds the last occurrence at or before i, or -1 when there is none |
| TextItems.LastIndexOf | src/item/text.cpp:191 | lastIndexOf finds the last occurrence at or before the start position (negative starts count from the end), or -1 |
| TextItems.FirstAtOrAfter | src/item/text.cpp:362-381 | the forward search finds the first occurrence at or after i, or -1 |
| TextItems.IndexOf | src/item/text.cpp:362-393 | indexOf finds the first occurrence from the clamped start position, or -1 |
| TextItems.Mid | src/item/text.cpp:277-283 | mid gives the slice of n characters (all the rest when n is negative), and is empty past the end |
| TextItems.Inserted | src/item/text.cpp:285-296 | insert places the string at i, padding with spaces past the end, and keeps the text around it |
| TextItems.Erased | src/item/text.cpp:306-320 | deleting a substring removes the inclusive range between two valid indices, in either order, and is a no-op for an invalid index |
| TextItems.InsertThenErase | src/item/text.cpp:285-320 | deleting the inserted range restores the text |
| TextItems.ErasedSymmetric | src/item/text.cpp:306-320 | the delete range does not depend on the order of its ends |
| TextItems.PosInLineCounts | src/item/text.cpp:182-194 | the caret's position in its line counts the characters after the previous newline |
| TextItems.PosInLineAtStart | src/item/text.cpp:191 | at caret 0, lastIndexOf(-1) searches from the end, so the position can be negative |
| TextItems.Newlines | src/item/text.cpp:362-381 | there are no more newline positions than characters |
| TextItems.NewlinesExact | src/item/text.cpp:362-381 | the newline positions are exactly the newlines, in increasing order |
| TextItems.NewlinesPrefix | src/item/text.cpp:362-381 | the newlines of a prefix are the first newlines of the whole text |
| TextItems.LineStartCounts | src/item/text.cpp:362-381 | a line starts just after the previous line's newline, or at 0 |
| TextItems.SelectedTextOf | src/item/text.cpp:277-283 | as written, the selected text is empty without a selection and never longer than the text |
| TextItems.SelectionOf | src/item/text.cpp:322-335 | the selection as deleteSelection treats it: the half-open range between the ends |
| TextItems.SelectedTextForward | src/item/text.cpp:282 | with a forward selection, selectedText holds one character more than the deleted range |
| TextItems.SelectedTextBackward | src/item/text.cpp:282 | with a backward selection, selectedText is empty or runs to the end of the text |
| TextItems.SelectedTextOneTooMany | src/item/text.cpp:282 | on "abcd" with selection 0..2, selectedText is "abc" while the range deleteSelection removes is "ab" |
| TextItems.SelectionIsWhatIsDeleted | src/item/text.cpp:322-335 | the intended selection is exactly what deleteSelection removes |
| TextItems.RunsMakeWord | src/item/text.cpp:395-415 | the backward break scan leaves a word followed by separators |
| TextItems.TextItem.constructor | src/item/text.cpp:35-45 | a new text item is empty, with the caret at 0 and no selection |
| TextItems.TextItem.HasSelection | src/item/text.cpp:337-342 | a selection has both ends set, and one inside the text covers at least one character |
| TextItems.TextItem.SetCaret | src/item/text.cpp:182-194 | setCaret ignores an out-of-range index, and otherwise moves the caret and, when asked, its position in the line |
| TextItems.TextItem.SelectedText | src/item/text.cpp:277-283 | with a forward selection inside the text, selectedText is the slice from the start to the end inclusive; without a selection it is empty |
| TextItems.TextItem.InsertText | src/item/text.cpp:285-296 | inserting the empty string changes nothing; otherwise the text is inserted at the caret, which moves past it |
| TextItems.TextItem.DeleteSubStr | src/item/text.cpp:306-320 | deleteSubStr removes the inclusive range and leaves caret and selection as they are |
| TextItems.TextItem.DeleteSelection | src/item/text.cpp:322-335 | without a selection nothing changes; otherwise the selected range is removed and the caret goes to its start |
| TextItems.TextItem.LineRangeAt | src/item/text.cpp:383-393 | the line range around a position runs from after the previous newline to before the next |
| TextItems.TextItem.LineRangeOf | src/item/text.cpp:362-381 | the range of line n starts at its line start and ends at the next newline, or at the last character |
| TextItems.TextItem.GetNextBreak | src/item/text.cpp:417-428 | the next break is the first separator after the position, or the end of the text |
| TextItems.TextItem.GetPrevBreak | src/item/text.cpp:395-415 | the previous break is at 0 or just after a separator, is not itself a separator, and starts the word before the position |
| KeyMatch.Tokens | src/controller/controller.cpp:327-331 | one token per required input |
| KeyMatch.PressTokens | src/controller/controller.cpp:307-320 | one token per buffered press |
| KeyMatch.Up | src/controller/controller.cpp:307-320 | shifting an embedding moves every index up by one |
| KeyMatch.Down | src/controller/controller.cpp:307-320 | shifting an embedding moves every index down by one |
| KeyMatch.InOrderEmbeds | src/controller/controller.cpp:307-320 | a successful in-order scan gives an increasing embedding of the required tokens into the buffer |
| KeyMatch.EmbedsInOrder | src/controller/controller.cpp:307-320 | an increasing embedding makes the in-order scan succeed |
| KeyMatch.InOrderIsSubsequence | src/controller/controller.cpp:307-320 | the in-order scan succeeds exactly when the required tokens are a subsequence of the buffer |
| KeyMatch.InOrderSkip | src/controller/controller.cpp:309-311 | skipping a non-matching press does not change the scan's outcome |
| KeyMatch.InOrderMatch | src/controller/controller.cpp:312-316 | consuming a matching press advances both the requirement and the buffer |
| KeyMatch.InOrderSkipAll | src/controller/controller.cpp:309-311 | skipping a run of non-matching presses does not change the outcome |
| KeyMatch.FindFrom | src/controller/controller.cpp:309-311 | the search stops at the first press with the token, or at the end of the buffer |
| KeyMatch.OrderedMatch | src/controller/controller.cpp:307-320 | the fast-path loop answers the in-order scan |
| KeyMatch.CountSnoc | src/controller/controller.cpp:327-331 | appending a token raises its count by one and leaves the others |
| KeyMatch.CountPositive | src/controller/controller.cpp:327-331 | a token's count is positive exactly when it occurs |
| KeyMatch.CountsExtensional | src/controller/controller.cpp:327-331 | a map that agrees with the required counts on every token is the count map |
| KeyMatch.RequiredCounts | src/controller/controller.cpp:327-331 | reqCounts maps every required token to its number of occurrences |
| KeyMatch.FilteredMembers | src/controller/controller.cpp:338-347 | an event survives the filter exactly when its token is required and it comes from a buffered press |
| KeyMatch.FilterEvents | src/controller/controller.cpp:338-347 | the filter loop builds the filtered event list |
| KeyMatch.SortedSnoc | src/controller/controller.cpp:349-351 | appending an event no earlier than the last keeps the list sorted by time |
| KeyMatch.BoundedByParts | src/controller/controller.cpp:349-351 | an upper bound on the times of both parts bounds the whole list |
| KeyMatch.InsertByTime | src/controller/controller.cpp:349-351 | inserting an event keeps the list sorted by time and adds exactly that event |
| KeyMatch.SortByTime | src/controller/controller.cpp:349-351 | sorting gives a permutation sorted by time |
| KeyMatch.IsFull | src/controller/controller.cpp:365-398 | the fullness check is true exactly when every required count is reached |
| KeyMatch.ChainFrom | src/controller/controller.cpp:376-401 | the chain loop from one start answers the chain specification |
| KeyMatch.TimedMatch | src/controller/controller.cpp:355-401 | the start loop answers whether some start opens a chain within the time window |
| KeyMatch.SatisfiesKeys | src/controller/controller.cpp:301-405 | satisfiesKeys answers the specification: the in-order subsequence without a window, otherwise the fast path or a timed chain |
| KeyMatch.EmptyRequirement | src/controller/controller.cpp:307-320 | an empty requirement is always satisfied |
| KeyMatch.UntimedIsSubsequence | src/controller/controller.cpp:322-325 | without a window, the keys are satisfied exactly when they are a subsequence of the buffer |
| KeyMatch.InOrderAccepted | src/controller/controller.cpp:307-320 | whatever the window, keys pressed in order are accepted |
| KeyMatch.EventTokens | src/controller/controller.cpp:338-347 | one token per event |
| KeyMatch.CountPrefix | src/controller/controller.cpp:376-401 | extending a prefix by one event raises only that event's count |
| KeyMatch.CountPrefixBound | src/controller/controller.cpp:376-401 | a prefix never holds more of a token than the whole list |
| KeyMatch.ChainSound | src/controller/controller.cpp:376-401 | a successful chain means every required token occurs in the events at least as often as required |
| KeyMatch.TimedSound | src/controller/controller.cpp:355-401 | a timed match means every required token occurs at least as often as required |
| KeyMatch.SimultaneousChain | src/controller/controller.cpp:376-401 | when all events share one time and carry only required tokens, the chain from the start collects all of them |
| KeyMatch.CountedStep | src/controller/controller.cpp:381-389 | one chain step raises the count of its token by one, up to the requirement |
| KeyMatch.SimultaneousAccepted | src/controller/controller.cpp:355-401 | simultaneous events carrying every required token in sufficient number are accepted from the first start |
| Controllers.PressStep | src/controller/controller.cpp:56-103 | a press at the origin changes nothing; otherwise the clicks within 300 ms without movement are counted, the second and third dispatch a double and a triple click, and a new run reaches the tool only when no chord is in progress |
| Controllers.QuickRunCounts | src/controller/controller.cpp:68-83 | a run of quick presses raises the click count by its length and records the last time |
| Controllers.DoubleThenTriple | src/controller/controller.cpp:68-83 | four quick presses give a tool press, a double click, a triple click and then nothing |
| Controllers.MoveBreaksRun | src/controller/controller.cpp:135-153 | after a move, a press starts a new run and is no double or triple click |
| Controllers.OccupiedDispatchesNothing | src/controller/controller.cpp:93-95 | while a chord is in progress, a press dispatches nothing |
| Controllers.ReleasedEntries | src/controller/controller.cpp:216-218 | a release keeps exactly the buffered presses of other inputs |
| Controllers.ButtonReleaseKeepsKeys | src/controller/controller.cpp:155-176 | releasing a mouse button keeps every keyboard press |
| Controllers.Controller.constructor | src/controller/controller.hpp:68-75 | a new controller has an empty key buffer and no clicks |
| Controllers.Controller.Buffer | src/controller/controller.cpp:57-59 | a press, in mousePressed as in keyPressed, is buffered with its time exactly when its input is not already held |
| Controllers.Controller.Release | src/controller/controller.cpp:216-218 | a release drops exactly the presses of that input |
| Controllers.Controller.MousePressed | src/controller/controller.cpp:56-103 | mousePressed buffers the button and takes the click state and dispatch given by PressStep |
| Controllers.Controller.MouseMoved | src/controller/controller.cpp:135-153 | mouseMoved marks the mouse as moved and keeps the click time and count |
| Controllers.Controller.MouseReleased | src/controller/controller.cpp:155-176 | mouseReleased drops the button's presses from the buffer |
| Controllers.Controller.KeyPressed | src/controller/controller.cpp:185-205 | keyPressed buffers the key exactly when it is not already held |
| Controllers.Controller.KeyReleased | src/controller/controller.cpp:207-232 | an auto-repeat release changes nothing; otherwise the key's presses are dropped |
| Controllers.Controller.SatisfiesKeys | src/controller/controller.cpp:301-405 | the controller's query matches its buffer against the requirement, with the default window of 100 ms |

## Left out

- Geometry: `QPointF`, `QRectF`, `QSizeF`, `QRect` and `qRound` follow Qt's documented behaviour; Qt is not part of this model.
- Floating point: coordinates are exact reals, so rounding error in the transforms and in the freeform mean is not modelled.
- Integer width: `int`, `qint64` and the 32-bit enum values are unbounded; `InRange` (a value that fits in 32 bits) is required where a token is decoded.
- QuadTree::queryItems: its template body (quadtree.ipp) is not part of this model.
- QuadTrees.DeleteItems: the ordered list is not changed by the model. The values deleteItems hands to `remove` are returned as a sequence instead, with a read past the end of a node's list as `None` (undefined behaviour in C++, which the model does not go into further).
- QuadTree::draw, and all painting, draw and erase of items: rendering is out of scope.
- QuadTree items' boxes are passed as parameters rather than read from the items.
- Controller::anyPressed and anyReleased: they look up `m_keys` with a key type that does not match the buffer's, and they only forward to tools and actions.
- Controllers: tool dispatch, the previous-key-buffer copies, the event context and the redundant occupation check in mouseDoubleClick/TripleClick are left out. "A chord is in progress" is a parameter, `occupied`.
- Controllers: the clock (`QDateTime::currentMSecsSinceEpoch`) is a parameter, `nowMs`.
- KeyMatch.SortByTime: it is a stable sort, while std::sort leaves the order of equal times unspecified; a match never depends on that order, but the model fixes one.
- KeyMatch.RequiredCounts: `operator[]` on the count map also inserts zero entries during lookups; the model keeps only the counted tokens and reads absent ones as 0.
- Groups: nested groups, the group's own Item fields, copy constructors and duplicate children are left out; a child hit test is a parameter, `hits`.
- Groups.GroupItem.PropertyTypes: the order comes from an unordered_set, so only the members and their distinctness are stated.
- Groups.AgreedMeaning: it needs every found property to carry its type (`Typed`); a default-constructed `Property{}` is taken to be the Null kind.
- Items.Item.Put, Polygons.PolygonItem.constructor, Freeforms.FreeformItem.constructor: `m_properties` is a `std::unordered_map`, whose iteration order is unspecified; the model fixes it as insertion order, so the order these members state for `propertyTypes` and `properties` is the model's, not the library's. Membership, distinctness and the stored values do not depend on it.
- Items: `updateAfterProperty`, serialization and the undo commands built from items are left out.
- TextItems: font metrics, getLineFromY, getIndexFromX and updateBoundingBox depend on rendering and are left out.
- TextItems.TextItem.GetPrevBreak: it requires `position < |text|`. The text tool can pass a larger position: Shift+Right stores `selectionEnd + 1` with no clamp (src/tools/texttool.cpp:315, src/item/text.cpp:273-275), and Ctrl+Shift+Left then calls getPrevBreak on `selectionEnd - 1`, which can be the text's length or more (src/tools/texttool.cpp:287-289). `isBreak` then reads `m_text[position]` past the end (src/item/text.cpp:398), which is undefined behaviour in C++, so the model does not say what that call returns.
- TextItems.TextItem.SelectedText: it keeps the code as written (one character too many); the corrected selection is `SelectionOf`.
- Freeforms: FreeformItem::intersects (the segment test over the stroke) is left out; the segment tests themselves are in CommonUtils.
- Freeforms.FreeformItem.AddPoint: it keeps the box as written (`GrownBox`); the corrected box is `CoveringBox`.
- CacheGrids.CacheGrid.SetSize: it requires a non-zero size, which the source does not check; a size of 0 would make the next miss evict from an empty list.
- CacheGrids.CacheGrid.SetSize: as in the source, the eviction test is `==` (src/data-structures/cachegrid.cpp:115), so shrinking below the current count is not repaired.
- CoordinateTransformer: the model keeps viewToGrid as written; the corrected map is `IntendedViewToGridPoint`.
- Concurrency and signals: none are modelled.

## Findings

| source | as written | input that shows it | evidently intended | confidence | as-written member | corrected member |
|---|---|---|---|---|---|---|
| src/common/utils.hpp:30 | the cross product is truncated to an int before its sign is taken, so every product strictly between -1 and 1 reads as collinear | rectangle (0,0,10,10), segment (0.05,1)-(1,9): both endpoints are inside, yet the rectangle/segment test reports a crossing of the left edge | take the sign of the exact cross product | not executed | CommonUtils.InsideSegmentReportedAsCrossing | CommonUtils.InsideSegmentMissesEdges |
| src/item/text.cpp:282 | selectedText takes selEnd - selStart + 1 characters, while deleteSelection (src/item/text.cpp:333) removes selEnd - selStart | text "abcd", selection 0 to 2: selectedText is "abc", the deleted range is "ab" | the selected text is what deleteSelection removes | not executed | TextItems.SelectedTextOneTooMany | TextItems.SelectionIsWhatIsDeleted |
| src/item/freeform.cpp:49 | the box is reset around the new point while the stroke has at most one point, so adding the second point drops the first from the box | width 1: add (0,0), then (10,0); (0,0) is outside the box | reset only for the first point and widen for every later one | not executed | Freeforms.SecondPointDropsFirst | Freeforms.CoveringBoxCovers |
| src/context/coordinatetransformer.cpp:135-137 | viewToGrid adds worldToView(offset), which is always the zero vector, so it does not undo gridToView | zoom 1, offset (1,0): the world origin taken to the view and then to the grid lands at (-1,0), not (0,0) | add worldToGrid(offset), the inverse of gridToView | not executed | CoordinateTransformer.ViewToGridMissesOffset | CoordinateTransformer.IntendedViewGridRoundTrip |
| src/data-structures/quadtree.cpp:184-185 | deleteItems erases the entry at i and then calls remove on m_items[i], which after the erase is the next entry | a node list [a, b] where only a meets the box: a leaves the node but stays in the ordered list, and b, still in the tree, leaves the ordered list; with [a] alone remove reads past the end | remove the entry before erasing it | not executed | QuadTrees.DeleteItemsUnlistsSuccessor | QuadTrees.IntendedSweepUnlistsHits |
