# TablePlacer placement engine in Dafny

TablePlacer is a WPF application that lays furniture out in a rectangular room.
The room is a `char[,]` of `.` (empty), `S` (table), `h` (chair), `E`
(entrance) and `W` (wall). A table kind (1, 2 or 3) is a small two-row template
string. Its orientations are the distinct results of four rotations and two
mirrors. The engine places the requested number of tables of each selected
kind at random anchors, under two rules:

- a table may only cover `.` cells inside the room;
- every chair must keep a neighbour cell that a breadth-first search from the
  entrance can reach over `.` cells.

When a table finds no place, the engine tries to move an earlier table
somewhere else (backtracking). The user can also draw and erase walls and drag
a placed table to a new anchor.

The model has four modules:

- `Shapes` (Shapes.dfy): the template algebra. Templates are strings, as in
  the source. It covers `Split`/`Join`, `ArrayToString`, the rotations and
  mirrors, `GenerateAllOrientations` (order-preserving `Distinct`) and the
  templates of each kind.
- `RoomGrid` (Grid.dfy): the room as a value (`seq<seq<char>>`), placements,
  and what painting, erasing, clearing, resizing and wall edits do to it. It
  also holds the list operations the engine performs on `placedTables`, and
  the layout invariant: every listed table is painted, and two different
  entries never overlap.
- `Reachability` (Reachability.dfy): walks over open cells, reachability from
  the entrance, "served" chairs, the chair list, and the frontier invariant of
  the breadth-first search.
- `TablePlacer` (Engine.dfy): class `PlacementEngine` owns the room as an
  `array2<char>`, the entrance, `placedTables` as a `seq` and the selected
  kinds. Every method that changes them in the source is a method here, and
  each one is proved against the grid functions above.

`random.Next` is `RandomNext`, a nondeterministic choice in `[0, n)`. Every
proof therefore holds for whatever numbers the generator returns.

Behaviour of the code that the model keeps as written:

- **Resize.** `ResizeRoomWithWalls` writes only the overlap of the old and new
  rooms. New cells keep the `'\0'` of a fresh array; they do not become `.`.
  `'\0'` is neither free for a table nor open to the search (`ResizedSpec`).
- **Template choice.** `TryPlaceTable` draws one template of the kind before
  its 1000 attempts, not a new one per attempt.
- **Start order.** The start button sizes and clears the room before it
  rejects an entrance on a wall. Its only size rule is that a negative size
  throws at allocation; a size of 0 is accepted.
- **Failed rearrangement.** Every table is painted back at its old anchor, so
  the room is unchanged. Each entry is also re-appended to the list, so the
  list ends up reversed.
- **Manual move.** The move rewrites the list with `RemoveAll`, `Add` and an
  indexed assignment (`MoveList`). Moving any entry but the last drops the
  entry listed after it and lists the moved table twice (`MoveListDropsNext`).
  A move that is then undone can lose entries (`MoveAndBackLosesEntries`).
  Both quirks are modelled as written.

## Model

| member | source | states |
|---|---|---|
| Shapes.GetTemplatesForTableType | WpfApp13/ResizeDialog.xaml.cs:268-277 | a list exactly for kinds 1, 2, 3 (the error case otherwise); the list is non-empty, duplicate-free and every entry is a furniture template |
| Shapes.GenerateAllOrientations | WpfApp13/ResizeDialog.xaml.cs:279-291 | duplicate-free; its elements are exactly those of [original, rot90, rot180, rot270, mirrorH, mirrorV], in the order of their first occurrence there; the joined original comes first; at most six |
| Shapes.DistinctSpec | WpfApp13/ResizeDialog.xaml.cs:290 | `Distinct` keeps exactly the elements, without duplicates, no longer than the input, first element first |
| Shapes.DistinctOrder | WpfApp13/ResizeDialog.xaml.cs:290 | `Distinct` keeps first occurrences in their original order |
| Shapes.SplitJoin | WpfApp13/ResizeDialog.xaml.cs:283 | splitting the joined rows on '\n' gives the rows back |
| Shapes.JoinSplit | WpfApp13/ResizeDialog.xaml.cs:140 | joining the pieces of a split gives the string back |
| Shapes.ArrayToStringIsJoin | WpfApp13/ResizeDialog.xaml.cs:324-336 | the row-by-row builder equals joining the rows with '\n' |
| Shapes.SplitArrayToString | WpfApp13/ResizeDialog.xaml.cs:324-336 | splitting ArrayToString's output returns the rows |
| Shapes.Rotate90Cells | WpfApp13/ResizeDialog.xaml.cs:293-302 | an r x c template becomes a c x r template with out[k][m] = in[r-1-m][k] |
| Shapes.Rotate180Cells | WpfApp13/ResizeDialog.xaml.cs:304-307 | same shape, cell [i][j] is the input's [r-1-i][c-1-j] |
| Shapes.Rotate270Cells | WpfApp13/ResizeDialog.xaml.cs:309-312 | a c x r template with out[k][m] = in[m][c-1-k] |
| Shapes.MirrorHorizontalCells | WpfApp13/ResizeDialog.xaml.cs:314-317 | same shape, each row reversed |
| Shapes.MirrorVerticalCells | WpfApp13/ResizeDialog.xaml.cs:319-322 | same shape, row order reversed |
| Shapes.MirrorHorizontalTwice | WpfApp13/ResizeDialog.xaml.cs:314-317 | the left-right mirror is an involution |
| Shapes.MirrorVerticalTwice | WpfApp13/ResizeDialog.xaml.cs:319-322 | the top-bottom mirror is an involution |
| Shapes.FullTurn | WpfApp13/ResizeDialog.xaml.cs:293-312 | Rotate90 after Rotate270 gives the template back |
| Shapes.SquareOrientation | WpfApp13/ResizeDialog.xaml.cs:279-291 | every orientation of a 2 x 2 template is 2 x 2 and holds each character as often as the template |
| Shapes.BaseRows | WpfApp13/ResizeDialog.xaml.cs:272-274 | the three patterns are 2 x 2 furniture; kind k has k - 1 '.' cells, one 'h' and 4 - k 'S' |
| Shapes.KindCells | WpfApp13/ResizeDialog.xaml.cs:268-277 | every template of kind k is 2 x 2 with k - 1 '.' cells, one chair and 4 - k table cells |
| Shapes.KindsDisjoint | WpfApp13/ResizeDialog.xaml.cs:268-277 | no template belongs to two kinds, so a placed template tells its kind |
| Shapes.OrientationsAreFurniture | WpfApp13/ResizeDialog.xaml.cs:279-291 | every orientation of a furniture template is again a rectangular template of '.', 'S', 'h' with a non-'.' cell |
| RoomGrid.PlaceThenRemove | WpfApp13/ResizeDialog.xaml.cs:156-168 | a placeable table fits, and RemoveTable right after PlaceTable restores the room cell for cell |
| RoomGrid.RemoveThenRestore | WpfApp13/ResizeDialog.xaml.cs:349-363 | repainting a removed table restores the room cell for cell |
| RoomGrid.PlaceKeepsLayout | WpfApp13/ResizeDialog.xaml.cs:156-168 | a placeable furniture table is not yet listed, and painting and listing it keeps the layout invariant |
| RoomGrid.EraseKeepsLayout | WpfApp13/ResizeDialog.xaml.cs:349-363 | removing a listed table keeps the invariant for the remaining entries |
| RoomGrid.PaintKeepsFixed | WpfApp13/ResizeDialog.xaml.cs:156-168 | placing turns only '.' cells into 'S'/'h'; walls, the entrance and '\0' stay and none appears |
| RoomGrid.EraseKeepsFixed | WpfApp13/ResizeDialog.xaml.cs:349-363 | removing a painted table turns only 'S'/'h' cells into '.'; walls, the entrance and '\0' stay and none appears |
| RoomGrid.RemoveAll | WpfApp13/ResizeDialog.xaml.cs:362 | exactly the entries different from the removed one remain |
| RoomGrid.RemoveAllLast | WpfApp13/ResizeDialog.xaml.cs:126-132 | undoing a trial placement gives the list back |
| RoomGrid.RearrangeStep | WpfApp13/ResizeDialog.xaml.cs:236-257 | taking entry i out of the partly reversed list leaves the others, still distinct; appending it back gives the list for i-1 |
| RoomGrid.RearrangedElements | WpfApp13/ResizeDialog.xaml.cs:236-257 | the rearranged list holds the same entries |
| RoomGrid.MoveListEntries | WpfApp13/ResizeDialog.xaml.cs:634-636 | after a move the list holds the new anchor and otherwise only older entries other than the moved one |
| RoomGrid.MoveLastEntry | WpfApp13/ResizeDialog.xaml.cs:634-636 | moving the last entry replaces it |
| RoomGrid.MoveListDropsNext | WpfApp13/ResizeDialog.xaml.cs:634-636 | moving an earlier entry drops its successor and lists the new anchor twice |
| RoomGrid.MoveAndBackLosesEntries | WpfApp13/ResizeDialog.xaml.cs:634-642 | a move that is undone turns [a, b, c] into [a, a] |
| RoomGrid.MoveKeepsLayout | WpfApp13/ResizeDialog.xaml.cs:632-636 | a move to a free anchor keeps the layout invariant |
| RoomGrid.ClearedSpec | WpfApp13/ResizeDialog.xaml.cs:433-449 | no 'S', 'h' or 'E' remains, all other cells are kept, and clearing is idempotent |
| RoomGrid.ResizedSpec | WpfApp13/ResizeDialog.xaml.cs:451-468 | in the overlap a cell is a wall iff it was one and '.' otherwise; outside the old room it is '\0' |
| RoomGrid.PaintKeepsCovered | WpfApp13/ResizeDialog.xaml.cs:156-168 | after PlaceTable every 'S'/'h' cell still lies under a listed table |
| RoomGrid.EraseKeepsCovered | WpfApp13/ResizeDialog.xaml.cs:349-363 | after RemoveTable every 'S'/'h' cell still lies under a listed table |
| RoomGrid.RearrangeKeepsCovered | WpfApp13/ResizeDialog.xaml.cs:236-257 | a successful rearrangement step keeps every 'S'/'h' cell under a listed table |
| RoomGrid.ClearedCovered | WpfApp13/ResizeDialog.xaml.cs:66-72 | a cleared room, with or without the entrance, holds no 'S'/'h' cell, so the empty list covers it |
| RoomGrid.CountOfRearranged | WpfApp13/ResizeDialog.xaml.cs:236-257 | a successful rearrangement step keeps the number of listed tables with any given set of templates |
| RoomGrid.EditKeepsLayout | WpfApp13/ResizeDialog.xaml.cs:713-730 | wall edits never disturb a placed table |
| RoomGrid.AddThenRemoveWall | WpfApp13/ResizeDialog.xaml.cs:713-730 | a wall drawn on '.' and erased again gives the room back |
| Reachability.ReachableStep | WpfApp13/ResizeDialog.xaml.cs:190-199 | an open neighbour of a reachable cell is reachable |
| Reachability.ReachableIsOpen | WpfApp13/ResizeDialog.xaml.cs:195 | every reachable cell but the entrance is in the room and '.' |
| Reachability.ClosedHoldsReachable | WpfApp13/ResizeDialog.xaml.cs:181-202 | a set holding the entrance and closed under open neighbours holds every reachable cell |
| Reachability.FrontierAdd | WpfApp13/ResizeDialog.xaml.cs:195-198 | marking and enqueuing an open unmarked neighbour keeps the search invariant |
| Reachability.FrontierAdvance | WpfApp13/ResizeDialog.xaml.cs:189-190 | dequeuing a cell whose neighbours are all handled keeps the search invariant |
| Reachability.UnseenShrinks | WpfApp13/ResizeDialog.xaml.cs:195-198 | marking a cell shrinks the set of unmarked room cells, so the search ends |
| Reachability.AllChairsMembers | WpfApp13/ResizeDialog.xaml.cs:216-232 | the chair list holds exactly the 'h' cells of the listed tables |
| Reachability.ChairListServed | WpfApp13/ResizeDialog.xaml.cs:170-179 | checking the chair list one by one decides whether every chair is served |
| Reachability.ChairsServedSubset | WpfApp13/ResizeDialog.xaml.cs:236-259 | served chairs stay served for any sub-list of the tables |
| TablePlacer.MarksServe | WpfApp13/ResizeDialog.xaml.cs:204-214 | with the search's marks, a chair has a marked neighbour iff it is served |
| TablePlacer.RandomNext | WpfApp13/ResizeDialog.xaml.cs:121-122 | a value below n (0 for an empty room) |
| TablePlacer.KindTemplates | WpfApp13/ResizeDialog.xaml.cs:262-266 | the templates drawn from are non-empty and all furniture |
| TablePlacer.Selection | WpfApp13/ResizeDialog.xaml.cs:74-77 | exactly the checked kinds with their counts, in increasing kind order |
| TablePlacer.KindRequestedOf | WpfApp13/ResizeDialog.xaml.cs:74-77 | in a dictionary (each kind listed once) a listed kind asks for its own count, 0 when that is 0 or less |
| TablePlacer.SelectionRequests | WpfApp13/ResizeDialog.xaml.cs:74-77 | the selection the start button builds asks, of kind k, for what checkbox k and its text box ask for |
| TablePlacer.SelectionCounts | WpfApp13/ResizeDialog.xaml.cs:74-79 | a run that placed the whole selection from an empty list holds, of each kind, exactly the number its checkbox asked for |
| TablePlacer.KindCountAppend | WpfApp13/ResizeDialog.xaml.cs:116-136 | placing a table of one kind adds one to that kind's count and leaves the others |
| TablePlacer.RearrangeKept | WpfApp13/ResizeDialog.xaml.cs:236-257 | a successful rearrangement step keeps every kind's count and keeps every 'S'/'h' cell under a listed table |
| TablePlacer.ReverseKept | WpfApp13/ResizeDialog.xaml.cs:236-259 | a failed rearrangement, which reverses the list, keeps every kind's count and the covering |
| TablePlacer.CloneRoom | WpfApp13/ResizeDialog.xaml.cs:655 | a fresh array with the same cells |
| TablePlacer.PlacementEngine.constructor | WpfApp13/ResizeDialog.xaml.cs:24-27 | no room yet and empty lists |
| TablePlacer.PlacementEngine.IsInBounds | WpfApp13/ResizeDialog.xaml.cs:365-372 | true iff a room exists and the cell lies inside it |
| TablePlacer.PlacementEngine.InitializeRoom | WpfApp13/ResizeDialog.xaml.cs:338-347 | a fresh height x width room of '.' |
| TablePlacer.PlacementEngine.ClearDynamicObjects | WpfApp13/ResizeDialog.xaml.cs:433-449 | the room becomes Cleared(old room) and the list is emptied |
| TablePlacer.PlacementEngine.ResizeRoomWithWalls | WpfApp13/ResizeDialog.xaml.cs:451-468 | nothing without a room; otherwise a fresh array holding Resized(old room); the list is left as it was |
| TablePlacer.PlacementEngine.ProcessCanvasClick | WpfApp13/ResizeDialog.xaml.cs:706-731 | nothing outside the room; otherwise that one cell is edited by the tool |
| TablePlacer.PlacementEngine.CheckPlacability | WpfApp13/ResizeDialog.xaml.cs:138-154 | true iff the footprint lies in the room and covers only '.' cells; nothing changes |
| TablePlacer.PlacementEngine.CheckPlacabilityOn | WpfApp13/ResizeDialog.xaml.cs:678-696 | the same on a scratch grid, negative anchors rejected |
| TablePlacer.PlacementEngine.PlaceTable | WpfApp13/ResizeDialog.xaml.cs:156-168 | the room becomes Paint(old, table) and the table is appended |
| TablePlacer.PlacementEngine.RemoveTable | WpfApp13/ResizeDialog.xaml.cs:349-363 | the room becomes Erase(old, table) and every listing of it is removed |
| TablePlacer.PlacementEngine.RemoveTableFromTemp | WpfApp13/ResizeDialog.xaml.cs:660-676 | the scratch grid becomes Erase(old, table) |
| TablePlacer.PlacementEngine.CanPlaceTable | WpfApp13/ResizeDialog.xaml.cs:653-658 | true iff the table fits at the new anchor once its old cells are cleared; the room is untouched |
| TablePlacer.PlacementEngine.TryRandomPositions | WpfApp13/ResizeDialog.xaml.cs:119-135 | success: a placeable, unlisted table is painted and appended, the invariant holds and every chair is served; failure: room and list unchanged |
| TablePlacer.PlacementEngine.TryPlaceTable | WpfApp13/ResizeDialog.xaml.cs:116-136 | as above for a template of the kind; the list stays duplicate-free; every 'S'/'h' cell stays under a listed table |
| TablePlacer.PlacementEngine.RearrangePreviousTables | WpfApp13/ResizeDialog.xaml.cs:234-260 | success: one table is removed and placed again (possibly at its old anchor) with the same template, the list is L[..i] + reverse(L[i+1..]) + [moved] and every chair is served; failure: room unchanged, list reversed; either way every kind keeps its count and every 'S'/'h' cell stays under a listed table |
| TablePlacer.PlacementEngine.PlaceTablesInOrder | WpfApp13/ResizeDialog.xaml.cs:89-114 | keeps the invariant, walls, served chairs and the covering of 'S'/'h' cells; true only if every kind's count grew by exactly what the selection asks of it (a count of 0 or less asks for none), so the list grew by the total |
| TablePlacer.PlacementEngine.PlaceKind | WpfApp13/ResizeDialog.xaml.cs:93-111 | the while loop for one kind: keeps the invariant, walls, served chairs and the covering; true only if exactly the kind's count (none for 0 or less) of tables of that kind was added and no other kind's count changed |
| TablePlacer.PlacementEngine.TryOrRearrange | WpfApp13/ResizeDialog.xaml.cs:100-108 | one pass of that loop: a placement adds one table of the kind; a failed try, rearranged or not, changes no kind's count and the list length |
| TablePlacer.PlacementEngine.Visit | WpfApp13/ResizeDialog.xaml.cs:190-199 | one direction of the search keeps the frontier invariant and marks an open neighbour |
| TablePlacer.PlacementEngine.Expand | WpfApp13/ResizeDialog.xaml.cs:189-200 | handling one dequeued cell keeps the frontier invariant |
| TablePlacer.PlacementEngine.BFSFromEntrance | WpfApp13/ResizeDialog.xaml.cs:181-202 | afterwards a cell is marked iff it is reachable from the entrance |
| TablePlacer.PlacementEngine.HasReachableNeighbor | WpfApp13/ResizeDialog.xaml.cs:204-214 | true iff a 4-neighbour inside the room is marked |
| TablePlacer.PlacementEngine.TableChairCells | WpfApp13/ResizeDialog.xaml.cs:221-229 | the chair cells of one table, row by row |
| TablePlacer.PlacementEngine.CollectAllChairs | WpfApp13/ResizeDialog.xaml.cs:216-232 | the chair cells of all listed tables, in list order |
| TablePlacer.PlacementEngine.CheckReachability | WpfApp13/ResizeDialog.xaml.cs:170-179 | true iff every chair of every listed table is served (trivially true without chairs) |
| TablePlacer.PlacementEngine.AllHaveReachableNeighbor | WpfApp13/ResizeDialog.xaml.cs:178 | true iff every chair in the list has a marked neighbour |
| TablePlacer.PlacementEngine.SizeRoom | WpfApp13/ResizeDialog.xaml.cs:54-61 | first press: a blank room; other dimensions: Resized(old); same dimensions: unchanged |
| TablePlacer.PlacementEngine.SetEntrance | WpfApp13/ResizeDialog.xaml.cs:66-72 | the room is cleared, the list emptied and the entrance set; on a wall it stops there, otherwise the cell is marked 'E'; no 'S'/'h' cell is left |
| TablePlacer.PlacementEngine.StartOnSizedRoom | WpfApp13/ResizeDialog.xaml.cs:63-81 | each failure exactly when its condition holds, with the state it leaves (the previous selection kept); a finished run starts from the cleared room with the entrance marked, keeps walls and the entrance, serves every chair and leaves every 'S'/'h' cell under a listed table; when all were placed, each kind holds exactly the number its checkbox asked for |
| TablePlacer.PlacementEngine.RunSearch | WpfApp13/ResizeDialog.xaml.cs:74-79 | the selection is the checked kinds; the search from an empty list keeps walls and the entrance, serves every chair, covers every 'S'/'h' cell and, when all were placed, holds of each kind what its checkbox asked for |
| TablePlacer.PlacementEngine.StartRun | WpfApp13/ResizeDialog.xaml.cs:42-86 | each exception exactly when its condition holds, in source order, with the state it leaves (the previous selection kept); a finished run keeps walls and the entrance, serves every chair and covers every 'S'/'h' cell by a listed table; when all were placed, each kind holds exactly the number its checkbox asked for |
| TablePlacer.PlacementEngine.MoveTable | WpfApp13/ResizeDialog.xaml.cs:614-651 | blocked iff the table does not fit at the new anchor once cleared; a kept move paints it there and serves every chair; an undone move restores the room cell for cell |
| TablePlacer.PlacementEngine.ApplyMove | WpfApp13/ResizeDialog.xaml.cs:634-636 | the room becomes Paint(Erase(old, orig), target) and the list MoveList(old, index, target) |
| TablePlacer.PlacementEngine.UndoMove | WpfApp13/ResizeDialog.xaml.cs:640-642 | the room is restored and the list is MoveList applied twice |

## Left out

- Rendering: `DrawRoom`, `GetCellBrush`, `UpdateUI`, the dispatcher and the canvas sizing in `InitializeRoom` and `ResizeRoomWithWalls` are WPF drawing.
- `Task.Run` and `async`/`await` only move the run off the UI thread; the run is modelled as one sequential method.
- The mouse handlers' pixel arithmetic (cell from pointer position, drag offsets) is floating-point UI math. The model takes the cell or the new anchor as integers. The table index comes from the drawn border's tag, which is the first entry listing the table; MoveTable requires exactly that.
- Save and load (`BtnSave_Click`, `BtnLoad_Click`, `SavedLayout`, `TablePosition`) use file dialogs, file I/O and a JSON library.
- `int.Parse` of the text boxes, status texts and message boxes are UI. StartRun takes the parsed numbers, and `None` for an unchecked kind. A text that does not parse is not modelled.
- The resize dialog window (its rule that width and height are positive) and `BtnResizeRoom_Click` are UI around ResizeRoomWithWalls.
- The random number generator is replaced by nondeterministic choice (RandomNext), so no distribution is modelled.
- TablePlacer.KindTemplates: requires a kind in {1, 2, 3}, because the start button only ever selects those; the exception for other kinds is modelled in Shapes.GetTemplatesForTableType.
- TablePlacer.PlacementEngine.CheckReachability: requires the entrance inside the room when there are chairs; the source then throws an index exception, which is not modelled.
- TablePlacer.PlacementEngine.MoveTable: requires the layout invariant. After a resize without a new run the list can be stale (ResizeRoomWithWalls keeps it), and moving a stale entry is not modelled.
- Integer overflow of `int` coordinates and counts is not modelled; the model uses unbounded integers.
