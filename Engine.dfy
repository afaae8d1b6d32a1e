/** The placement engine of the TablePlacer main window
    (ResizeDialog.xaml.cs, class MainWindow): the room array, the entrance,
    the list of placed tables and the selected table kinds, and the
    operations that change them.  Each method states its result through the
    grid functions of RoomGrid and Reachability. */
module TablePlacer {
  import opened Shapes
  import opened RoomGrid
  import opened Reachability

  /** Random positions TryPlaceTable draws for one table. */
  const PlaceAttempts: nat := 1000
  /** Random positions RearrangePreviousTables draws for each moved table. */
  const RearrangeAttempts: nat := 10000
  /** Failed placements of one kind PlaceTablesInOrder accepts in a row. */
  const MaxAttempts: nat := 10000

  /** The cells of a room array as a grid value. */
  ghost function GridOf(a: array2<char>): (g: Grid)
    reads a
    ensures |g| == a.Length0 && IsRect(g)
    ensures forall y :: 0 <= y < |g| ==> |g[y]| == a.Length1
    ensures forall x, y :: InBounds(g, x, y) <==> 0 <= y < a.Length0 && 0 <= x < a.Length1
  {
    seq(a.Length0, y requires 0 <= y < a.Length0 reads a =>
      seq(a.Length1, x requires 0 <= x < a.Length1 reads a => a[y, x]))
  }

  /** An array whose every cell agrees with h holds h. */
  lemma GridOfIs(a: array2<char>, h: Grid)
    requires |h| == a.Length0 && forall y :: 0 <= y < |h| ==> |h[y]| == a.Length1
    requires forall y, x :: 0 <= y < a.Length0 && 0 <= x < a.Length1 ==> a[y, x] == h[y][x]
    ensures GridOf(a) == h
  {
    var g := GridOf(a);
    forall y | 0 <= y < |h| ensures g[y] == h[y] {
    }
  }

  /** random.Next(n): a value in [0, n), and 0 when n is 0. */
  method RandomNext(n: nat) returns (r: nat)
    ensures n == 0 ==> r == 0
    ensures n > 0 ==> r < n
  {
    if n == 0 {
      r := 0;
    } else {
      r :| r < n;
    }
  }

  /** char[,].Clone(). */
  method CloneRoom(a: array2<char>) returns (b: array2<char>)
    ensures fresh(b) && b.Length0 == a.Length0 && b.Length1 == a.Length1
    ensures GridOf(b) == GridOf(a)
  {
    b := new char[a.Length0, a.Length1];
    for y := 0 to a.Length0
      invariant forall r, c :: 0 <= r < y && 0 <= c < a.Length1 ==> b[r, c] == a[r, c]
    {
      for x := 0 to a.Length1
        invariant forall r, c :: 0 <= r < y && 0 <= c < a.Length1 ==> b[r, c] == a[r, c]
        invariant forall c :: 0 <= c < x ==> b[y, c] == a[y, c]
      {
        b[y, x] := a[y, x];
      }
    }
    GridOfIs(b, GridOf(a));
  }

  /** The cell lies inside the room and is marked in visited. */
  ghost predicate Marked(a: array2<char>, visited: array2<bool>, c: Cell)
    reads visited
    requires visited.Length0 == a.Length0 && visited.Length1 == a.Length1
  {
    0 <= c.1 < a.Length0 && 0 <= c.0 < a.Length1 && visited[c.1, c.0]
  }

  /** The marked cells are the cells reachable from e. */
  ghost predicate MarksReachable(a: array2<char>, visited: array2<bool>, e: Cell)
    reads a, visited
    requires visited.Length0 == a.Length0 && visited.Length1 == a.Length1
  {
    forall r, c :: 0 <= r < a.Length0 && 0 <= c < a.Length1 ==>
      (visited[r, c] <==> Reachable(GridOf(a), e, (c, r)))
  }

  /** The marks in visited are the cells of seen. */
  ghost predicate Tracks(visited: array2<bool>, seen: set<Cell>)
    reads visited
  {
    forall r, c :: 0 <= r < visited.Length0 && 0 <= c < visited.Length1 ==> (visited[r, c] <==> (c, r) in seen)
  }

  /** One of the four neighbours of c is marked. */
  ghost predicate MarkedNeighbor(a: array2<char>, visited: array2<bool>, c: Cell)
    reads visited
    requires visited.Length0 == a.Length0 && visited.Length1 == a.Length1
  {
    exists d :: 0 <= d < 4 && Marked(a, visited, Neighbor(c, d))
  }

  /** When the marks are the reachable cells, a cell with a marked neighbour
      is exactly a served chair cell. */
  lemma MarksServe(a: array2<char>, e: Cell, visited: array2<bool>, c: Cell)
    requires visited.Length0 == a.Length0 && visited.Length1 == a.Length1
    requires MarksReachable(a, visited, e)
    ensures MarkedNeighbor(a, visited, c) <==> Served(GridOf(a), e, c)
  {
    var g := GridOf(a);
    if exists d :: 0 <= d < 4 && Marked(a, visited, Neighbor(c, d)) {
      var d :| 0 <= d < 4 && Marked(a, visited, Neighbor(c, d));
      assert InBounds(g, Neighbor(c, d).0, Neighbor(c, d).1);
    }
    if Served(g, e, c) {
      var d :| 0 <= d < 4 && InBounds(g, Neighbor(c, d).0, Neighbor(c, d).1) && Reachable(g, e, Neighbor(c, d));
      assert Marked(a, visited, Neighbor(c, d));
    }
  }

  /** The number of tables a selection asks for: the counts of the selected
      kinds, where a count of zero or less asks for none. */
  function Requested(selection: seq<(int, int)>): nat
  {
    if |selection| == 0 then 0
    else Requested(selection[..|selection| - 1]) + (if selection[|selection| - 1].1 > 0 then selection[|selection| - 1].1 else 0)
  }

  /** The templates SelectTableTemplate draws from for a known kind. */
  function KindTemplates(tableType: int): (templates: seq<string>)
    requires tableType in {1, 2, 3}
    ensures |templates| > 0 && forall t :: t in templates ==> IsFurniture(Split(t))
  {
    GetTemplatesForTableType(tableType).value
  }

  /** The selection BtnStart_Click builds: kinds 1, 2 and 3, in that order,
      each with its count when its box is checked (None: unchecked). */
  function Selection(type1: Option<int>, type2: Option<int>, type3: Option<int>): (selection: seq<(int, int)>)
    ensures forall k :: 0 <= k < |selection| ==> selection[k].0 in {1, 2, 3}
    ensures forall k, m :: 0 <= k < m < |selection| ==> selection[k].0 < selection[m].0
    ensures forall kind, count :: (kind, count) in selection <==>
      (kind == 1 && type1 == Some(count)) || (kind == 2 && type2 == Some(count)) || (kind == 3 && type3 == Some(count))
  {
    Entry(1, type1) + Entry(2, type2) + Entry(3, type3)
  }

  /** The number of tables a checkbox and its text box ask for: none when
      unchecked or when the count is zero or less. */
  function Wanted(count: Option<int>): nat
  {
    if count.Some? && count.value > 0 then count.value else 0
  }

  /** The number of tables of one kind a selection asks for. */
  function KindRequested(selection: seq<(int, int)>, tableType: int): nat
  {
    if |selection| == 0 then 0
    else
      var last := selection[|selection| - 1];
      KindRequested(selection[..|selection| - 1], tableType) +
      (if last.0 == tableType then Wanted(Some(last.1)) else 0)
  }

  lemma {:induction false} KindRequestedConcat(a: seq<(int, int)>, b: seq<(int, int)>, tableType: int)
    ensures KindRequested(a + b, tableType) == KindRequested(a, tableType) + KindRequested(b, tableType)
  {
    if |b| == 0 {
      assert a + b == a;
    } else {
      assert (a + b)[..|a + b| - 1] == a + b[..|b| - 1];
      KindRequestedConcat(a, b[..|b| - 1], tableType);
    }
  }

  /** In a selection that lists each kind once (a dictionary, as in the
      source), a listed kind asks for its own count and nothing more. */
  lemma {:induction false} KindRequestedOf(selection: seq<(int, int)>, k: nat)
    requires k < |selection|
    requires forall i, j :: 0 <= i < j < |selection| ==> selection[i].0 != selection[j].0
    ensures KindRequested(selection, selection[k].0) == Wanted(Some(selection[k].1))
  {
    var n := |selection| - 1;
    var prefix := selection[..n];
    if k == n {
      KindRequestedAbsent(prefix, selection[k].0);
    } else {
      KindRequestedOf(prefix, k);
    }
  }

  /** A kind the selection does not list asks for no table. */
  lemma {:induction false} KindRequestedAbsent(selection: seq<(int, int)>, tableType: int)
    requires forall i :: 0 <= i < |selection| ==> selection[i].0 != tableType
    ensures KindRequested(selection, tableType) == 0
  {
    if |selection| > 0 {
      KindRequestedAbsent(selection[..|selection| - 1], tableType);
    }
  }

  /** The part of the selection one checkbox contributes. */
  function Entry(tableType: int, count: Option<int>): seq<(int, int)>
  {
    if count.Some? then [(tableType, count.value)] else []
  }

  /** One checkbox's entry asks for its kind only, what the box asks for. */
  lemma EntryRequests(tableType: int, count: Option<int>, kind: int)
    ensures KindRequested(Entry(tableType, count), kind) == if kind == tableType then Wanted(count) else 0
  {
    if count.Some? {
      assert Entry(tableType, count)[..0] == [];
    }
  }

  /** The start button asks, for a kind, for what that kind's checkbox and
      text box ask for, and for nothing of any other kind. */
  lemma SelectionRequestsKind(type1: Option<int>, type2: Option<int>, type3: Option<int>, kind: int)
    ensures KindRequested(Selection(type1, type2, type3), kind) ==
      if kind == 1 then Wanted(type1) else if kind == 2 then Wanted(type2) else if kind == 3 then Wanted(type3) else 0
  {
    var a, b, c := Entry(1, type1), Entry(2, type2), Entry(3, type3);
    KindRequestedConcat(a + b, c, kind);
    KindRequestedConcat(a, b, kind);
    EntryRequests(1, type1, kind);
    EntryRequests(2, type2, kind);
    EntryRequests(3, type3, kind);
  }

  /** The start button asks, for each kind, for what its checkbox and text
      box ask for. */
  lemma SelectionRequests(type1: Option<int>, type2: Option<int>, type3: Option<int>)
    ensures KindRequested(Selection(type1, type2, type3), 1) == Wanted(type1)
    ensures KindRequested(Selection(type1, type2, type3), 2) == Wanted(type2)
    ensures KindRequested(Selection(type1, type2, type3), 3) == Wanted(type3)
  {
    SelectionRequestsKind(type1, type2, type3, 1);
    SelectionRequestsKind(type1, type2, type3, 2);
    SelectionRequestsKind(type1, type2, type3, 3);
  }

  /** Tables placed from an empty list hold, of a kind, what the selection
      asks for of it. */
  lemma PlacedOfKind(tables: seq<Placement>, selection: seq<(int, int)>, kind: int)
    requires kind in {1, 2, 3} && KindsAdded([], tables, selection, 0, 0)
    ensures KindCount(tables, kind) == KindRequested(selection, kind)
  {
    assert KindCount([], kind) == 0;
  }

  /** A search that started from an empty list and placed what the start
      button selected holds, of each kind, what its checkbox asked for. */
  lemma SelectionCounts(tables: seq<Placement>, type1: Option<int>, type2: Option<int>, type3: Option<int>)
    requires KindsAdded([], tables, Selection(type1, type2, type3), 0, 0)
    ensures KindCount(tables, 1) == Wanted(type1)
    ensures KindCount(tables, 2) == Wanted(type2)
    ensures KindCount(tables, 3) == Wanted(type3)
  {
    SelectionRequests(type1, type2, type3);
    PlacedOfKind(tables, Selection(type1, type2, type3), 1);
    PlacedOfKind(tables, Selection(type1, type2, type3), 2);
    PlacedOfKind(tables, Selection(type1, type2, type3), 3);
  }

  /** The listed tables whose template is one of the kind's. */
  function KindCount(tables: seq<Placement>, tableType: int): nat
    requires tableType in {1, 2, 3}
  {
    CountOf(tables, KindTemplates(tableType))
  }

  /** Appending a table of one kind adds one to that kind's count and
      nothing to the others', since no template belongs to two kinds. */
  lemma KindCountAppend(tables: seq<Placement>, p: Placement, tableType: int)
    requires tableType in {1, 2, 3} && p.template in KindTemplates(tableType)
    ensures forall kind :: kind in {1, 2, 3} ==>
      KindCount(tables + [p], kind) == KindCount(tables, kind) + (if kind == tableType then 1 else 0)
  {
    forall kind | kind in {1, 2, 3}
      ensures KindCount(tables + [p], kind) == KindCount(tables, kind) + (if kind == tableType then 1 else 0)
    {
      CountOfAppend(tables, p, KindTemplates(kind));
      if kind != tableType {
        KindsDisjoint(tableType, kind, p.template);
      }
    }
  }

  /** Every kind has as many tables in `after` as in `before`. */
  ghost predicate KindsKept(before: seq<Placement>, after: seq<Placement>)
  {
    forall kind :: kind in {1, 2, 3} ==> KindCount(after, kind) == KindCount(before, kind)
  }

  /** Every kind's count grew from `before` by what `selection` asks for,
      and kind `current` by `extra` more. */
  ghost predicate KindsAdded(before: seq<Placement>, after: seq<Placement>, selection: seq<(int, int)>,
                             current: int, extra: int)
  {
    forall kind :: kind in {1, 2, 3} ==>
      KindCount(after, kind) == KindCount(before, kind) + KindRequested(selection, kind) +
        (if kind == current then extra else 0)
  }

  /** Placing a table of the current kind adds one to its count. */
  lemma KindsAddedAppend(before: seq<Placement>, after: seq<Placement>, selection: seq<(int, int)>,
                         current: int, extra: int, p: Placement)
    requires current in {1, 2, 3} && p.template in KindTemplates(current)
    requires KindsAdded(before, after, selection, current, extra)
    ensures KindsAdded(before, after + [p], selection, current, extra + 1)
  {
    KindCountAppend(after, p, current);
  }

  /** A rearrangement keeps what was added. */
  lemma KindsAddedKept(before: seq<Placement>, after: seq<Placement>, later: seq<Placement>,
                       selection: seq<(int, int)>, current: int, extra: int)
    requires KindsAdded(before, after, selection, current, extra) && KindsKept(after, later)
    ensures KindsAdded(before, later, selection, current, extra)
  {
  }

  /** Placing one more kind's count after a selection has been placed
      places the selection extended by that kind. */
  lemma KindsAddedCompose(before: seq<Placement>, middle: seq<Placement>, after: seq<Placement>,
                          selection: seq<(int, int)>, current: int, count: int)
    requires KindsAdded(before, middle, selection, 0, 0)
    requires KindsAdded(middle, after, [], current, Wanted(Some(count)))
    ensures KindsAdded(before, after, selection + [(current, count)], 0, 0)
  {
    forall kind | kind in {1, 2, 3}
      ensures KindRequested(selection + [(current, count)], kind) ==
        KindRequested(selection, kind) + (if kind == current then Wanted(Some(count)) else 0)
    {
      assert (selection + [(current, count)])[..|selection|] == selection;
    }
  }

  /** A failed rearrangement, which reverses the list, keeps the count of
      every kind and every furniture cell under a listed table. */
  lemma ReverseKept(g: Grid, tables: seq<Placement>)
    ensures KindsKept(tables, Reverse(tables))
    ensures Covered(g, tables) ==> Covered(g, Reverse(tables))
  {
    forall kind | kind in {1, 2, 3} ensures KindCount(Reverse(tables), kind) == KindCount(tables, kind) {
      CountOfReverse(tables, KindTemplates(kind));
    }
    ReverseElements(tables);
    if Covered(g, tables) {
      CoveredOfSuperset(g, tables, Reverse(tables));
    }
  }

  /** A successful rearrangement step (entry i erased and its template
      painted at moved, entries i+1.. reversed, moved listed last) keeps the
      count of every kind, and keeps every furniture cell under a listed
      table. */
  lemma RearrangeKept(g: Grid, tables: seq<Placement>, i: nat, moved: Placement)
    requires IsRect(g) && i < |tables| && moved.template == tables[i].template
    requires FitsIn(Erase(g, tables[i]), moved)
    ensures KindsKept(tables, tables[..i] + Reverse(tables[i + 1..]) + [moved])
    ensures Covered(g, tables) ==>
      Covered(Paint(Erase(g, tables[i]), moved), tables[..i] + Reverse(tables[i + 1..]) + [moved])
  {
    forall kind | kind in {1, 2, 3}
      ensures KindCount(tables[..i] + Reverse(tables[i + 1..]) + [moved], kind) == KindCount(tables, kind)
    {
      CountOfRearranged(tables, i, moved, KindTemplates(kind));
    }
    if Covered(g, tables) {
      RearrangeKeepsCovered(g, tables, i, moved);
    }
  }

  /** How a press of the start button ends.  The first four are the
      exceptions the handler reports in its status line. */
  datatype RunOutcome =
    | NegativeEntrance
    | InvalidSize
    | EntranceOutside
    | EntranceOnWall
    | Finished(allPlaced: bool)

  /** How dropping a dragged table ends. */
  datatype MoveOutcome = Moved | Blocked | ChairCutOff

  class PlacementEngine {
    var room: array2?<char>
    var entranceX: int
    var entranceY: int
    var placedTables: seq<Placement>
    /** The selected kinds and counts, in the order they were selected. */
    var selectedTables: seq<(int, int)>

    constructor()
      ensures room == null && placedTables == [] && selectedTables == []
    {
      room := null;
      entranceX := 0;
      entranceY := 0;
      placedTables := [];
      selectedTables := [];
    }

    ghost function Cells(): Grid
      reads this, room
      requires room != null
    {
      GridOf(room)
    }

    function Entrance(): Cell
      reads this
    {
      (entranceX, entranceY)
    }

    /** The cell lies inside an existing room. */
    function IsInBounds(x: int, y: int): (r: bool)
      reads this
      ensures r <==> room != null && InBounds(GridOf(room), x, y)
    {
      room != null && x >= 0 && x < room.Length1 && y >= 0 && y < room.Length0
    }

    /** A height x width room of '.'. */
    method InitializeRoom(width: nat, height: nat)
      modifies this
      ensures room != null && fresh(room) && Cells() == Blank(width, height)
      ensures room.Length0 == height && room.Length1 == width
      ensures entranceX == old(entranceX) && entranceY == old(entranceY)
      ensures placedTables == old(placedTables) && selectedTables == old(selectedTables)
    {
      var a := new char[height, width];
      for y := 0 to height
        modifies a
        invariant forall r, c :: 0 <= r < y && 0 <= c < width ==> a[r, c] == EMPTY
      {
        for x := 0 to width
          modifies a
          invariant forall r, c :: 0 <= r < y && 0 <= c < width ==> a[r, c] == EMPTY
          invariant forall c :: 0 <= c < x ==> a[y, c] == EMPTY
        {
          a[y, x] := EMPTY;
        }
      }
      room := a;
      GridOfIs(a, Blank(width, height));
    }

    /** ClearDynamicObjects: tables, chairs and the entrance become '.', and
        the list of placed tables is emptied. */
    method ClearDynamicObjects()
      requires room != null
      modifies this, room
      ensures room == old(room) && Cells() == Cleared(old(Cells()))
      ensures placedTables == []
      ensures entranceX == old(entranceX) && entranceY == old(entranceY)
      ensures selectedTables == old(selectedTables)
    {
      ghost var g := Cells();
      for y := 0 to room.Length0
        modifies room
        invariant forall r, c :: 0 <= r < room.Length0 && 0 <= c < room.Length1 ==>
          room[r, c] == if r < y then ClearedCell(g[r][c]) else g[r][c]
      {
        for x := 0 to room.Length1
          modifies room
          invariant forall r, c :: 0 <= r < room.Length0 && 0 <= c < room.Length1 ==>
            room[r, c] == if r < y || (r == y && c < x) then ClearedCell(g[r][c]) else g[r][c]
        {
          if room[y, x] == TABLE || room[y, x] == CHAIR || room[y, x] == ENTRANCE {
            room[y, x] := EMPTY;
          }
        }
      }
      GridOfIs(room, Cleared(g));
      placedTables := [];
    }

    /** ResizeRoomWithWalls: nothing happens without a room; otherwise a new
        newHeight x newWidth array replaces it, holding the old walls inside
        the overlap, '.' elsewhere in the overlap and '\0' outside it.  The
        list of placed tables is left as it was. */
    method ResizeRoomWithWalls(newWidth: nat, newHeight: nat)
      modifies this
      ensures old(room) == null ==> room == null
      ensures old(room) != null ==>
        (room != null && fresh(room) && room.Length0 == newHeight && room.Length1 == newWidth &&
         Cells() == Resized(old(Cells()), newWidth, newHeight))
      ensures placedTables == old(placedTables) && selectedTables == old(selectedTables)
      ensures entranceX == old(entranceX) && entranceY == old(entranceY)
    {
      if room == null {
        return;
      }
      ghost var g := Cells();
      var a := new char[newHeight, newWidth]((r, c) => NUL);
      var h := if newHeight < room.Length0 then newHeight else room.Length0;
      var w := if newWidth < room.Length1 then newWidth else room.Length1;
      for y := 0 to h
        modifies a
        invariant forall r, c :: 0 <= r < newHeight && 0 <= c < newWidth ==>
          a[r, c] == if r < y && c < w then (if g[r][c] == WALL then WALL else EMPTY) else NUL
      {
        for x := 0 to w
          modifies a
          invariant forall r, c :: 0 <= r < newHeight && 0 <= c < newWidth ==>
            a[r, c] == if (r < y || (r == y && c < x)) && c < w then (if g[r][c] == WALL then WALL else EMPTY) else NUL
        {
          a[y, x] := if room[y, x] == WALL then WALL else EMPTY;
        }
      }
      room := a;
      GridOfIs(a, Resized(g, newWidth, newHeight));
    }

    /** The cell-level part of ProcessCanvasClick, for the cell under the
        pointer: nothing without a room or outside it; otherwise the selected
        tool edits that one cell. */
    method ProcessCanvasClick(tool: Tool, x: int, y: int)
      modifies room
      ensures room != null && !IsInBounds(x, y) ==> Cells() == old(Cells())
      ensures IsInBounds(x, y) ==> Cells() == Edited(old(Cells()), tool, x, y)
    {
      if room == null || !IsInBounds(x, y) {
        return;
      }
      ghost var g := Cells();
      if tool == AddWalls {
        if room[y, x] == EMPTY {
          room[y, x] := WALL;
        }
      } else if tool == RemoveWalls {
        if room[y, x] == WALL {
          room[y, x] := EMPTY;
        }
      }
      GridOfIs(room, Edited(g, tool, x, y));
    }

    /** CheckPlacability on the room, for an anchor drawn by random.Next. */
    method CheckPlacability(x: int, y: int, template: string) returns (ok: bool)
      requires room != null && 0 <= x && 0 <= y && Rectangular(Split(template))
      ensures ok <==> Placeable(Cells(), Placement(x, y, template))
    {
      var rows := Split(template);
      ghost var p := Placement(x, y, template);
      ghost var g := Cells();
      if x + |rows[0]| > room.Length1 || y + |rows| > room.Length0 {
        return false;
      }
      for dy := 0 to |rows|
        invariant forall cx, cy :: Covers(p, cx, cy) && cy - y < dy ==> g[cy][cx] == EMPTY
      {
        for dx := 0 to |rows[dy]|
          invariant forall cx, cy :: Covers(p, cx, cy) && cy - y < dy ==> g[cy][cx] == EMPTY
          invariant forall cx, cy :: Covers(p, cx, cy) && cy - y == dy && cx - x < dx ==> g[cy][cx] == EMPTY
        {
          var cell := room[y + dy, x + dx];
          if rows[dy][dx] != EMPTY && cell != EMPTY {
            assert Covers(p, x + dx, y + dy);
            return false;
          }
        }
      }
      return true;
    }

    /** CheckPlacability on a scratch copy of the room: also rejects a
        negative anchor. */
    method CheckPlacabilityOn(tempRoom: array2<char>, x: int, y: int, template: string) returns (ok: bool)
      requires Rectangular(Split(template))
      ensures ok <==> Placeable(GridOf(tempRoom), Placement(x, y, template))
    {
      var rows := Split(template);
      var tWidth := |rows[0]|;
      var tHeight := |rows|;
      ghost var p := Placement(x, y, template);
      ghost var g := GridOf(tempRoom);
      if x < 0 || y < 0 || x + tWidth > tempRoom.Length1 || y + tHeight > tempRoom.Length0 {
        return false;
      }
      for dy := 0 to tHeight
        invariant forall cx, cy :: Covers(p, cx, cy) && cy - y < dy ==> g[cy][cx] == EMPTY
      {
        for dx := 0 to tWidth
          invariant forall cx, cy :: Covers(p, cx, cy) && cy - y < dy ==> g[cy][cx] == EMPTY
          invariant forall cx, cy :: Covers(p, cx, cy) && cy - y == dy && cx - x < dx ==> g[cy][cx] == EMPTY
        {
          if rows[dy][dx] != EMPTY && tempRoom[y + dy, x + dx] != EMPTY {
            assert Covers(p, x + dx, y + dy);
            return false;
          }
        }
      }
      return true;
    }

    /** PlaceTable: paints the template's non-'.' cells and lists the table. */
    method PlaceTable(x: int, y: int, template: string)
      requires room != null && FitsIn(Cells(), Placement(x, y, template))
      modifies this, room
      ensures room == old(room) && Cells() == Paint(old(Cells()), Placement(x, y, template))
      ensures placedTables == old(placedTables) + [Placement(x, y, template)]
      ensures entranceX == old(entranceX) && entranceY == old(entranceY)
      ensures selectedTables == old(selectedTables)
    {
      var rows := Split(template);
      ghost var p := Placement(x, y, template);
      ghost var g := Cells();
      for dy := 0 to |rows|
        modifies room
        invariant forall r, c :: 0 <= r < room.Length0 && 0 <= c < room.Length1 ==>
          room[r, c] == if Covers(p, c, r) && r - y < dy then CharAt(p, c, r) else g[r][c]
      {
        for dx := 0 to |rows[dy]|
          modifies room
          invariant forall r, c :: 0 <= r < room.Length0 && 0 <= c < room.Length1 ==>
            room[r, c] == if Covers(p, c, r) && (r - y < dy || (r - y == dy && c - x < dx))
                          then CharAt(p, c, r) else g[r][c]
        {
          if rows[dy][dx] != EMPTY {
            assert Covers(p, x + dx, y + dy);
            room[y + dy, x + dx] := rows[dy][dx];
          }
        }
      }
      GridOfIs(room, Paint(g, p));
      placedTables := placedTables + [Placement(x, y, template)];
    }

    /** RemoveTable: clears the template's non-'.' cells that lie inside the
        room and drops every listing of the table. */
    method RemoveTable(x: int, y: int, template: string)
      requires room != null
      modifies this, room
      ensures room == old(room) && Cells() == Erase(old(Cells()), Placement(x, y, template))
      ensures placedTables == RemoveAll(old(placedTables), Placement(x, y, template))
      ensures entranceX == old(entranceX) && entranceY == old(entranceY)
      ensures selectedTables == old(selectedTables)
    {
      var rows := Split(template);
      ghost var p := Placement(x, y, template);
      ghost var g := Cells();
      for dy := 0 to |rows|
        modifies room
        invariant forall r, c :: 0 <= r < room.Length0 && 0 <= c < room.Length1 ==>
          room[r, c] == if Covers(p, c, r) && r - y < dy then EMPTY else g[r][c]
      {
        for dx := 0 to |rows[dy]|
          modifies room
          invariant forall r, c :: 0 <= r < room.Length0 && 0 <= c < room.Length1 ==>
            room[r, c] == if Covers(p, c, r) && (r - y < dy || (r - y == dy && c - x < dx))
                          then EMPTY else g[r][c]
        {
          var cellX := x + dx;
          var cellY := y + dy;
          if IsInBounds(cellX, cellY) && rows[dy][dx] != EMPTY {
            room[cellY, cellX] := EMPTY;
          }
        }
      }
      GridOfIs(room, Erase(g, p));
      placedTables := RemoveAll(placedTables, Placement(x, y, template));
    }

    /** RemoveTableFromTemp: RemoveTable's clearing on a scratch copy of the
        room, bounded by the room's own size. */
    method RemoveTableFromTemp(tempRoom: array2<char>, x: int, y: int, template: string)
      requires room != null && tempRoom.Length0 == room.Length0 && tempRoom.Length1 == room.Length1
      modifies tempRoom
      ensures GridOf(tempRoom) == Erase(old(GridOf(tempRoom)), Placement(x, y, template))
    {
      var rows := Split(template);
      ghost var p := Placement(x, y, template);
      ghost var g := GridOf(tempRoom);
      for dy := 0 to |rows|
        modifies tempRoom
        invariant forall r, c :: 0 <= r < tempRoom.Length0 && 0 <= c < tempRoom.Length1 ==>
          tempRoom[r, c] == if Covers(p, c, r) && r - y < dy then EMPTY else g[r][c]
      {
        for dx := 0 to |rows[dy]|
          modifies tempRoom
          invariant forall r, c :: 0 <= r < tempRoom.Length0 && 0 <= c < tempRoom.Length1 ==>
            tempRoom[r, c] == if Covers(p, c, r) && (r - y < dy || (r - y == dy && c - x < dx))
                              then EMPTY else g[r][c]
        {
          if rows[dy][dx] != EMPTY {
            var cellX := x + dx;
            var cellY := y + dy;
            if IsInBounds(cellX, cellY) {
              tempRoom[cellY, cellX] := EMPTY;
            }
          }
        }
      }
      GridOfIs(tempRoom, Erase(g, p));
    }

    /** CanPlaceTable: whether the table fits at (newX, newY) once its copy at
        the original anchor is cleared, judged on a copy of the room. */
    method CanPlaceTable(newX: int, newY: int, template: string, originalX: int, originalY: int)
      returns (ok: bool)
      requires room != null && Rectangular(Split(template))
      ensures ok <==> Placeable(Erase(Cells(), Placement(originalX, originalY, template)),
                                Placement(newX, newY, template))
    {
      var tempRoom := CloneRoom(room);
      RemoveTableFromTemp(tempRoom, originalX, originalY, template);
      ok := CheckPlacabilityOn(tempRoom, newX, newY, template);
    }
  
    /** The sizing step of the start button: a first press makes a blank
        room, a later one with other dimensions resizes it, and one with the
        same dimensions keeps it. */
    method SizeRoom(newWidth: nat, newHeight: nat)
      modifies this
      ensures room != null && room.Length1 == newWidth && room.Length0 == newHeight
      ensures room == old(room) || fresh(room)
      ensures old(room) == null ==> Cells() == Blank(newWidth, newHeight)
      ensures old(room) != null && old(room.Length1) == newWidth && old(room.Length0) == newHeight ==>
        room == old(room) && Cells() == old(Cells())
      ensures old(room) != null && (old(room.Length1) != newWidth || old(room.Length0) != newHeight) ==>
        Cells() == Resized(old(Cells()), newWidth, newHeight)
      ensures entranceX == old(entranceX) && entranceY == old(entranceY)
      ensures placedTables == old(placedTables) && selectedTables == old(selectedTables)
    {
      if room == null {
        InitializeRoom(newWidth, newHeight);
      } else if newWidth != room.Length1 || newHeight != room.Length0 {
        ResizeRoomWithWalls(newWidth, newHeight);
      }
    }

    /** The entrance step of the start button: clears the tables, chairs and
        the old entrance, sets the entrance and, unless it lies on a wall,
        marks it 'E'. */
    method SetEntrance(newEntranceX: int, newEntranceY: int) returns (onWall: bool)
      requires room != null && InBounds(Cells(), newEntranceX, newEntranceY)
      modifies this, room
      ensures room == old(room) && selectedTables == old(selectedTables)
      ensures entranceX == newEntranceX && entranceY == newEntranceY && placedTables == []
      ensures onWall <==> old(Cells())[newEntranceY][newEntranceX] == WALL
      ensures onWall ==> Cells() == Cleared(old(Cells()))
      ensures !onWall ==> Cells() == WithEntrance(Cleared(old(Cells())), newEntranceX, newEntranceY)
      ensures Covered(Cells(), placedTables)
    {
      ghost var g := Cells();
      ClearDynamicObjects();
      ClearedSpec(g);
      ClearedCovered(g, newEntranceX, newEntranceY);
      entranceX := newEntranceX;
      entranceY := newEntranceY;
      if room[entranceY, entranceX] == WALL {
        return true;
      }
      ghost var cleared := Cells();
      room[entranceY, entranceX] := ENTRANCE;
      GridOfIs(room, WithEntrance(cleared, entranceX, entranceY));
      onWall := false;
    }

    /** The start button after the sizing step, for an entrance that is not
        negative: rejects an entrance outside the room, clears the tables,
        sets the entrance, rejects it on a wall, marks it, selects the
        checked kinds and runs PlaceTablesInOrder. */
    method StartOnSizedRoom(newEntranceX: nat, newEntranceY: nat,
                            type1: Option<int>, type2: Option<int>, type3: Option<int>)
      returns (outcome: RunOutcome, ghost prepared: Grid)
      requires room != null
      modifies this, room
      ensures room == old(room)
      ensures !outcome.NegativeEntrance? && !outcome.InvalidSize?
      ensures outcome == EntranceOutside <==> !InBounds(old(Cells()), newEntranceX, newEntranceY)
      ensures outcome == EntranceOutside ==>
        Cells() == old(Cells()) && entranceX == old(entranceX) && entranceY == old(entranceY) &&
        placedTables == old(placedTables) && selectedTables == old(selectedTables)
      ensures outcome.EntranceOnWall? || outcome.Finished? ==>
        entranceX == newEntranceX && entranceY == newEntranceY
      ensures outcome == EntranceOnWall <==>
        InBounds(old(Cells()), newEntranceX, newEntranceY) && old(Cells())[newEntranceY][newEntranceX] == WALL
      ensures outcome == EntranceOnWall ==>
        Cells() == Cleared(old(Cells())) && placedTables == [] && selectedTables == old(selectedTables)
      ensures outcome.Finished? ==>
        InBounds(old(Cells()), newEntranceX, newEntranceY) &&
        prepared == WithEntrance(Cleared(old(Cells())), newEntranceX, newEntranceY) &&
        selectedTables == Selection(type1, type2, type3) &&
        KeepsFixed(prepared, Cells()) && Layout(Cells(), placedTables) && NoDuplicates(placedTables) &&
        ChairsServed(Cells(), Entrance(), placedTables) && Covered(Cells(), placedTables) &&
        (outcome.allPlaced ==>
          |placedTables| == Requested(selectedTables) && KindCount(placedTables, 1) == Wanted(type1) &&
          KindCount(placedTables, 2) == Wanted(type2) && KindCount(placedTables, 3) == Wanted(type3))
    {
      prepared := [];
      if !IsInBounds(newEntranceX, newEntranceY) {
        return EntranceOutside, prepared;
      }
      var onWall := SetEntrance(newEntranceX, newEntranceY);
      if onWall {
        return EntranceOnWall, prepared;
      }
      prepared := Cells();
      var allPlaced := RunSearch(type1, type2, type3);
      outcome := Finished(allPlaced);
    }

    /** The last steps of the start button, on a prepared room with no table
        listed: selects the checked kinds and runs PlaceTablesInOrder. */
    method RunSearch(type1: Option<int>, type2: Option<int>, type3: Option<int>) returns (allPlaced: bool)
      requires room != null && InBounds(Cells(), entranceX, entranceY)
      requires placedTables == [] && Covered(Cells(), placedTables)
      modifies this, room
      ensures room == old(room) && entranceX == old(entranceX) && entranceY == old(entranceY)
      ensures selectedTables == Selection(type1, type2, type3)
      ensures KeepsFixed(old(Cells()), Cells()) && Layout(Cells(), placedTables) && NoDuplicates(placedTables)
      ensures ChairsServed(Cells(), Entrance(), placedTables) && Covered(Cells(), placedTables)
      ensures allPlaced ==>
        |placedTables| == Requested(selectedTables) && KindCount(placedTables, 1) == Wanted(type1) &&
        KindCount(placedTables, 2) == Wanted(type2) && KindCount(placedTables, 3) == Wanted(type3)
    {
      selectedTables := Selection(type1, type2, type3);
      allPlaced := PlaceTablesInOrder();
      if allPlaced {
        SelectionCounts(placedTables, type1, type2, type3);
      }
    }

    /** The start button (BtnStart_Click) with its text boxes already parsed:
        rejects a negative entrance, sizes the room (a negative size fails at
        the allocation, before anything changes), rejects an entrance outside
        the room, clears the tables, sets the entrance, rejects it on a wall,
        marks it, selects the checked kinds and runs PlaceTablesInOrder.
        `sized` is the room after the sizing step and `prepared` the room the
        search starts from. */
    method StartRun(newWidth: int, newHeight: int, newEntranceX: int, newEntranceY: int,
                    type1: Option<int>, type2: Option<int>, type3: Option<int>)
      returns (outcome: RunOutcome, ghost sized: Grid, ghost prepared: Grid)
      modifies this, room
      ensures outcome == NegativeEntrance <==> newEntranceX < 0 || newEntranceY < 0
      ensures outcome == InvalidSize <==> 0 <= newEntranceX && 0 <= newEntranceY && (newWidth < 0 || newHeight < 0)
      ensures outcome.NegativeEntrance? || outcome.InvalidSize? ==>
        room == old(room) && entranceX == old(entranceX) && entranceY == old(entranceY) &&
        placedTables == old(placedTables) && selectedTables == old(selectedTables) &&
        (room != null ==> Cells() == old(Cells()))
      ensures !outcome.NegativeEntrance? && !outcome.InvalidSize? ==>
        room != null && room.Length1 == newWidth && room.Length0 == newHeight && IsRect(sized) &&
        (old(room) == null ==> sized == Blank(newWidth, newHeight)) &&
        (old(room) != null && old(room.Length1) == newWidth && old(room.Length0) == newHeight ==>
          sized == old(Cells())) &&
        (old(room) != null && (old(room.Length1) != newWidth || old(room.Length0) != newHeight) ==>
          sized == Resized(old(Cells()), newWidth, newHeight))
      ensures outcome == EntranceOutside <==>
        0 <= newEntranceX && 0 <= newEntranceY && 0 <= newWidth && 0 <= newHeight &&
        (newEntranceX >= newWidth || newEntranceY >= newHeight)
      ensures outcome == EntranceOutside ==>
        Cells() == sized && entranceX == old(entranceX) && entranceY == old(entranceY) &&
        placedTables == old(placedTables) && selectedTables == old(selectedTables)
      ensures outcome.EntranceOnWall? || outcome.Finished? ==>
        entranceX == newEntranceX && entranceY == newEntranceY && InBounds(sized, newEntranceX, newEntranceY)
      ensures outcome == EntranceOnWall <==>
        !outcome.NegativeEntrance? && !outcome.InvalidSize? && !outcome.EntranceOutside? &&
        sized[newEntranceY][newEntranceX] == WALL
      ensures outcome == EntranceOnWall ==>
        Cells() == Cleared(sized) && placedTables == [] && selectedTables == old(selectedTables)
      ensures outcome.Finished? ==>
        prepared == WithEntrance(Cleared(sized), newEntranceX, newEntranceY) &&
        selectedTables == Selection(type1, type2, type3) &&
        KeepsFixed(prepared, Cells()) && Layout(Cells(), placedTables) && NoDuplicates(placedTables) &&
        ChairsServed(Cells(), Entrance(), placedTables) && Covered(Cells(), placedTables) &&
        (outcome.allPlaced ==>
          |placedTables| == Requested(selectedTables) && KindCount(placedTables, 1) == Wanted(type1) &&
          KindCount(placedTables, 2) == Wanted(type2) && KindCount(placedTables, 3) == Wanted(type3))
    {
      sized, prepared := [], [];
      if newEntranceX < 0 || newEntranceY < 0 {
        return NegativeEntrance, sized, prepared;
      }
      if newWidth < 0 || newHeight < 0 {
        return InvalidSize, sized, prepared;
      }
      SizeRoom(newWidth, newHeight);
      sized := Cells();
      outcome, prepared := StartOnSizedRoom(newEntranceX, newEntranceY, type1, type2, type3);
    }

    /** Dropping a dragged table (CanvasRoom_MouseLeftButtonUp): the table
        listed at `index` moves to (newX, newY) when it fits there once its
        old cells are cleared; if a chair is then cut off from the entrance
        the old cells are repainted.  The list is rewritten as the handler
        does: every listing of the table is removed, the new anchor appended,
        and slot `index` overwritten (MoveList). */
    method MoveTable(index: nat, newX: int, newY: int) returns (outcome: MoveOutcome)
      requires room != null && InBounds(Cells(), entranceX, entranceY)
      requires Layout(Cells(), placedTables)
      requires index < |placedTables| && placedTables[index] !in placedTables[..index]
      modifies this, room
      ensures room == old(room) && entranceX == old(entranceX) && entranceY == old(entranceY)
      ensures selectedTables == old(selectedTables)
      ensures Layout(Cells(), placedTables) && KeepsFixed(old(Cells()), Cells())
      ensures var orig := old(placedTables)[index];
        var target := Placement(newX, newY, orig.template);
        var cleared := Erase(old(Cells()), orig);
        (outcome == Blocked <==> !Placeable(cleared, target)) &&
        (outcome == Blocked ==> Cells() == old(Cells()) && placedTables == old(placedTables)) &&
        (outcome == Moved ==>
          FitsIn(cleared, target) && Cells() == Paint(cleared, target) &&
          placedTables == MoveList(old(placedTables), index, target) &&
          ChairsServed(Cells(), Entrance(), placedTables)) &&
        (outcome == ChairCutOff ==>
          FitsIn(cleared, target) &&
          !ChairsServed(Paint(cleared, target), Entrance(), MoveList(old(placedTables), index, target)) &&
          Cells() == old(Cells()) &&
          target !in old(placedTables)[..index] &&
          placedTables == MoveList(MoveList(old(placedTables), index, target), index, orig))
    {
      ghost var g, tables := Cells(), placedTables;
      var orig := placedTables[index];
      var template := orig.template;
      var target := Placement(newX, newY, template);
      ghost var cleared := Erase(g, orig);
      assert IsFurniture(Rows(orig));
      var fits := CanPlaceTable(newX, newY, template, orig.x, orig.y);
      if !fits {
        return Blocked;
      }
      ApplyMove(index, target);
      var reachable := CheckReachability();
      if reachable {
        return Moved;
      }
      UndoMove(index, orig, target, g, tables);
      outcome := ChairCutOff;
    }

    /** The first half of a move: the table listed at `index`, which fits at
        `target` once its cells are cleared, is taken out, painted at target,
        and target is written into slot `index`. */
    method ApplyMove(index: nat, target: Placement)
      requires room != null && Layout(Cells(), placedTables)
      requires index < |placedTables| && placedTables[index] !in placedTables[..index]
      requires target.template == placedTables[index].template
      requires Placeable(Erase(Cells(), placedTables[index]), target)
      modifies this, room
      ensures room == old(room) && entranceX == old(entranceX) && entranceY == old(entranceY)
      ensures selectedTables == old(selectedTables)
      ensures FitsIn(Erase(old(Cells()), old(placedTables)[index]), target)
      ensures Cells() == Paint(Erase(old(Cells()), old(placedTables)[index]), target)
      ensures placedTables == MoveList(old(placedTables), index, target)
      ensures target !in old(placedTables)[..index]
      ensures Layout(Cells(), placedTables) && KeepsFixed(old(Cells()), Cells())
    {
      ghost var g, tables := Cells(), placedTables;
      var orig := placedTables[index];
      ghost var cleared := Erase(g, orig);
      assert IsFurniture(Rows(orig));
      EraseKeepsLayout(g, tables, orig);
      EraseKeepsFixed(g, orig);
      PlaceKeepsLayout(cleared, RemoveAll(tables, orig), target);
      PaintKeepsFixed(cleared, target);
      KeepsFixedTrans(g, cleared, Paint(cleared, target));
      MoveKeepsLayout(g, tables, index, target);
      MoveListFirst(tables, index, target);
      RemoveAllKeepsPrefix(tables, index);
      RemoveTable(orig.x, orig.y, orig.template);
      PlaceTable(target.x, target.y, target.template);
      placedTables := placedTables[index := target];
      assert placedTables == MoveList(tables, index, target);
    }

    /** The undo branch of a move: the table goes back to its old anchor and
        slot `index` lists it again. */
    method UndoMove(index: nat, orig: Placement, target: Placement, ghost g: Grid, ghost tables: seq<Placement>)
      requires room != null && IsRect(g) && |g| == room.Length0 && Width(g) == room.Length1
      requires Layout(g, tables) && index < |tables| && tables[index] == orig && orig !in tables[..index]
      requires target.template == orig.template && target !in tables[..index]
      requires FitsIn(Erase(g, orig), target) && Placeable(Erase(g, orig), target)
      requires Cells() == Paint(Erase(g, orig), target) && placedTables == MoveList(tables, index, target)
      modifies this, room
      ensures room == old(room) && entranceX == old(entranceX) && entranceY == old(entranceY)
      ensures selectedTables == old(selectedTables)
      ensures Cells() == g && placedTables == MoveList(MoveList(tables, index, target), index, orig)
      ensures Layout(Cells(), placedTables)
    {
      ghost var moved := placedTables;
      PlaceThenRemove(Erase(g, orig), target);
      RemoveThenRestore(g, orig);
      RemoveAllKeepsPrefix(moved, index);
      RemoveTable(target.x, target.y, target.template);
      PlaceTable(orig.x, orig.y, orig.template);
      placedTables := placedTables[index := orig];
      assert placedTables == MoveList(moved, index, orig);
      MoveListEntries(tables, index, target);
      MoveListEntries(moved, index, orig);
      LayoutOfSubset(g, tables, placedTables);
    }

    /** The retry loop TryPlaceTable and RearrangePreviousTables share: up to
        `attempts` random anchors; the first one where the template fits and
        every chair stays reachable is kept, every other one is undone. */
    method TryRandomPositions(template: string, attempts: nat) returns (placed: bool, ghost table: Placement)
      requires room != null && InBounds(Cells(), entranceX, entranceY) && IsFurniture(Split(template))
      requires Layout(Cells(), placedTables)
      modifies this, room
      ensures room == old(room) && entranceX == old(entranceX) && entranceY == old(entranceY)
      ensures selectedTables == old(selectedTables)
      ensures placed ==>
        table.template == template && Placeable(old(Cells()), table) && table !in old(placedTables) &&
        FitsIn(old(Cells()), table) && Cells() == Paint(old(Cells()), table) &&
        placedTables == old(placedTables) + [table] &&
        Layout(Cells(), placedTables) && KeepsFixed(old(Cells()), Cells()) &&
        ChairsServed(Cells(), Entrance(), placedTables)
      ensures !placed ==> Cells() == old(Cells()) && placedTables == old(placedTables)
    {
      ghost var g, tables := Cells(), placedTables;
      table := Placement(0, 0, template);
      for attempt := 0 to attempts
        invariant room == old(room) && entranceX == old(entranceX) && entranceY == old(entranceY)
        invariant selectedTables == old(selectedTables)
        invariant Cells() == g && placedTables == tables
      {
        var x := RandomNext(room.Length1);
        var y := RandomNext(room.Length0);
        var fits := CheckPlacability(x, y, template);
        if fits {
          ghost var p := Placement(x, y, template);
          PlaceKeepsLayout(g, tables, p);
          PaintKeepsFixed(g, p);
          PlaceThenRemove(g, p);
          PlaceTable(x, y, template);
          var reachable := CheckReachability();
          if reachable {
            return true, p;
          }
          RemoveTable(x, y, template);
          RemoveAllLast(tables, p);
        }
      }
      placed := false;
    }

    /** TryPlaceTable: draws one template of the kind, then tries random
        anchors for it.  On success one entry of that kind has been appended,
        painted where it fits, and every chair is reachable; on failure
        nothing changed. */
    method TryPlaceTable(tableType: int) returns (placed: bool, ghost table: Placement)
      requires room != null && InBounds(Cells(), entranceX, entranceY) && tableType in {1, 2, 3}
      requires Layout(Cells(), placedTables) && NoDuplicates(placedTables)
      modifies this, room
      ensures room == old(room) && entranceX == old(entranceX) && entranceY == old(entranceY)
      ensures selectedTables == old(selectedTables)
      ensures Layout(Cells(), placedTables) && NoDuplicates(placedTables) && KeepsFixed(old(Cells()), Cells())
      ensures placed ==>
        table.template in KindTemplates(tableType) && Placeable(old(Cells()), table) &&
        FitsIn(old(Cells()), table) && Cells() == Paint(old(Cells()), table) &&
        placedTables == old(placedTables) + [table] && ChairsServed(Cells(), Entrance(), placedTables)
      ensures !placed ==> Cells() == old(Cells()) && placedTables == old(placedTables)
      ensures Covered(old(Cells()), old(placedTables)) ==> Covered(Cells(), placedTables)
    {
      var templates := KindTemplates(tableType);
      var k := RandomNext(|templates|);
      var template := templates[k];
      ghost var g, tables := Cells(), placedTables;
      placed, table := TryRandomPositions(template, PlaceAttempts);
      if placed {
        NoDuplicatesConcat(tables, [table]);
        if Covered(g, tables) {
          PaintKeepsCovered(g, tables, table);
        }
      }
    }

    /** RearrangePreviousTables: from the last entry back to the first, takes
        the table out and tries random anchors for it; the first success is
        kept.  A table that finds no new place is painted back at its anchor
        and appended again, so after a full failure the room is as before and
        the list is reversed. */
    method RearrangePreviousTables() returns (ok: bool, ghost i: int, ghost moved: Placement)
      requires room != null && InBounds(Cells(), entranceX, entranceY)
      requires Layout(Cells(), placedTables) && NoDuplicates(placedTables)
      modifies this, room
      ensures room == old(room) && entranceX == old(entranceX) && entranceY == old(entranceY)
      ensures selectedTables == old(selectedTables)
      ensures Layout(Cells(), placedTables) && NoDuplicates(placedTables) && KeepsFixed(old(Cells()), Cells())
      ensures |placedTables| == |old(placedTables)|
      ensures ok ==>
        0 <= i < |old(placedTables)| && moved.template == old(placedTables)[i].template &&
        FitsIn(Erase(old(Cells()), old(placedTables)[i]), moved) &&
        Cells() == Paint(Erase(old(Cells()), old(placedTables)[i]), moved) &&
        placedTables == old(placedTables)[..i] + Reverse(old(placedTables)[i + 1..]) + [moved] &&
        ChairsServed(Cells(), Entrance(), placedTables)
      ensures !ok ==> Cells() == old(Cells()) && placedTables == Reverse(old(placedTables))
      ensures !ok && old(ChairsServed(Cells(), Entrance(), placedTables)) ==> ChairsServed(Cells(), Entrance(), placedTables)
      ensures KindsKept(old(placedTables), placedTables)
      ensures Covered(old(Cells()), old(placedTables)) ==> Covered(Cells(), placedTables)
    {
      ghost var g, tables := Cells(), placedTables;
      var j := |placedTables| - 1;
      i := j;
      moved := Placement(0, 0, "");
      while j >= 0
        invariant -1 <= j < |tables| && i == j
        invariant room == old(room) && entranceX == old(entranceX) && entranceY == old(entranceY)
        invariant selectedTables == old(selectedTables)
        invariant Cells() == g && placedTables == Rearranged(tables, j)
        decreases j + 1
      {
        RearrangeStep(tables, j);
        RearrangedElements(tables, j);
        LayoutOfSubset(g, tables, placedTables);
        var entry := placedTables[j];
        ghost var rest := tables[..j] + Reverse(tables[j + 1..]);
        EraseKeepsLayout(g, placedTables, entry);
        EraseKeepsFixed(g, entry);
        RemoveThenRestore(g, entry);
        RemoveTable(entry.x, entry.y, entry.template);
        var found;
        found, moved := TryRandomPositions(entry.template, RearrangeAttempts);
        if found {
          KeepsFixedTrans(g, Erase(g, entry), Cells());
          NoDuplicatesConcat(rest, [moved]);
          RearrangeKept(g, tables, j, moved);
          return true, j, moved;
        }
        PlaceTable(entry.x, entry.y, entry.template);
        j := j - 1;
        i := j;
      }
      assert tables[0..] == tables;
      ReverseElements(tables);
      LayoutOfSubset(g, tables, placedTables);
      if ChairsServed(g, Entrance(), tables) {
        ChairsServedSubset(g, Entrance(), tables, placedTables);
      }
      ReverseKept(g, tables);
      ok := false;
    }

    /** PlaceTablesInOrder: for each selected kind in turn, places its count of
        tables (PlaceKind); gives up as soon as one kind cannot be placed.
        True means every requested table was placed. */
    method PlaceTablesInOrder() returns (success: bool)
      requires room != null && InBounds(Cells(), entranceX, entranceY)
      requires forall k :: 0 <= k < |selectedTables| ==> selectedTables[k].0 in {1, 2, 3}
      requires Layout(Cells(), placedTables) && NoDuplicates(placedTables)
      requires ChairsServed(Cells(), Entrance(), placedTables)
      modifies this, room
      ensures room == old(room) && entranceX == old(entranceX) && entranceY == old(entranceY)
      ensures selectedTables == old(selectedTables)
      ensures Layout(Cells(), placedTables) && NoDuplicates(placedTables) && KeepsFixed(old(Cells()), Cells())
      ensures ChairsServed(Cells(), Entrance(), placedTables)
      ensures success ==> |placedTables| == |old(placedTables)| + Requested(selectedTables)
      ensures success ==> KindsAdded(old(placedTables), placedTables, selectedTables, 0, 0)
      ensures Covered(old(Cells()), old(placedTables)) ==> Covered(Cells(), placedTables)
    {
      ghost var g0, count0, tables0 := Cells(), |placedTables|, placedTables;
      for k := 0 to |selectedTables|
        invariant room == old(room) && entranceX == old(entranceX) && entranceY == old(entranceY)
        invariant selectedTables == old(selectedTables)
        invariant Layout(Cells(), placedTables) && NoDuplicates(placedTables) && KeepsFixed(g0, Cells())
        invariant ChairsServed(Cells(), Entrance(), placedTables)
        invariant |placedTables| == count0 + Requested(selectedTables[..k])
        invariant KindsAdded(tables0, placedTables, selectedTables[..k], 0, 0)
        invariant Covered(g0, tables0) ==> Covered(Cells(), placedTables)
      {
        var (tableType, count) := selectedTables[k];
        ghost var g, before := Cells(), placedTables;
        var placed := PlaceKind(tableType, count);
        KeepsFixedTrans(g0, g, Cells());
        if !placed {
          return false;
        }
        KindsAddedCompose(tables0, before, placedTables, selectedTables[..k], tableType, count);
        assert selectedTables[..k + 1] == selectedTables[..k] + [(tableType, count)];
        assert selectedTables[..k + 1][..k] == selectedTables[..k];
      }
      assert selectedTables[..|selectedTables|] == selectedTables;
      success := true;
    }

    /** The loop PlaceTablesInOrder runs for one kind: tries TryPlaceTable
        until `count` tables are placed, rearranging the earlier tables after
        each failed try; fails when a rearrangement fails or after MaxAttempts
        failed tries in a row.  A count of zero or less places nothing. */
    method PlaceKind(tableType: int, count: int) returns (placedAll: bool)
      requires room != null && InBounds(Cells(), entranceX, entranceY) && tableType in {1, 2, 3}
      requires Layout(Cells(), placedTables) && NoDuplicates(placedTables)
      requires ChairsServed(Cells(), Entrance(), placedTables)
      modifies this, room
      ensures room == old(room) && entranceX == old(entranceX) && entranceY == old(entranceY)
      ensures selectedTables == old(selectedTables)
      ensures Layout(Cells(), placedTables) && NoDuplicates(placedTables) && KeepsFixed(old(Cells()), Cells())
      ensures ChairsServed(Cells(), Entrance(), placedTables)
      ensures placedAll ==>
        |placedTables| == |old(placedTables)| + Wanted(Some(count)) &&
        KindsAdded(old(placedTables), placedTables, [], tableType, Wanted(Some(count)))
      ensures Covered(old(Cells()), old(placedTables)) ==> Covered(Cells(), placedTables)
    {
      ghost var g0, tables0 := Cells(), placedTables;
      var remaining := count;
      var attempts := 0;
      ghost var added := 0;
      while remaining > 0 && attempts < MaxAttempts
        invariant room == old(room) && entranceX == old(entranceX) && entranceY == old(entranceY)
        invariant selectedTables == old(selectedTables)
        invariant Layout(Cells(), placedTables) && NoDuplicates(placedTables) && KeepsFixed(g0, Cells())
        invariant ChairsServed(Cells(), Entrance(), placedTables)
        invariant remaining <= count && (count > 0 ==> 0 <= remaining) && (count <= 0 ==> remaining == count)
        invariant 0 <= attempts <= MaxAttempts
        invariant added == count - remaining && |placedTables| == |tables0| + added
        invariant KindsAdded(tables0, placedTables, [], tableType, added)
        invariant Covered(g0, tables0) ==> Covered(Cells(), placedTables)
        decreases remaining, MaxAttempts - attempts
      {
        attempts := attempts + 1;
        ghost var g := Cells();
        var placed, going := TryOrRearrange(tableType, tables0, added);
        KeepsFixedTrans(g0, g, Cells());
        if placed {
          remaining, added := remaining - 1, added + 1;
          attempts := 0;
        } else if !going {
          return false;
        }
      }
      if attempts >= MaxAttempts {
        return false;
      }
      placedAll := true;
    }

    /** One pass of PlaceKind's loop: TryPlaceTable, and RearrangePreviousTables
        when that fails.  `going` is false only when the rearrangement failed.
        Counted from the list `tables0`, a placement adds one table of this
        kind and a failed try changes no kind's count. */
    method TryOrRearrange(tableType: int, ghost tables0: seq<Placement>, ghost added: int) returns (placed: bool, going: bool)
      requires room != null && InBounds(Cells(), entranceX, entranceY) && tableType in {1, 2, 3}
      requires Layout(Cells(), placedTables) && NoDuplicates(placedTables)
      requires ChairsServed(Cells(), Entrance(), placedTables)
      requires KindsAdded(tables0, placedTables, [], tableType, added)
      modifies this, room
      ensures room == old(room) && entranceX == old(entranceX) && entranceY == old(entranceY)
      ensures selectedTables == old(selectedTables)
      ensures Layout(Cells(), placedTables) && NoDuplicates(placedTables) && KeepsFixed(old(Cells()), Cells())
      ensures ChairsServed(Cells(), Entrance(), placedTables)
      ensures placed ==>
        going && |placedTables| == |old(placedTables)| + 1 && KindsAdded(tables0, placedTables, [], tableType, added + 1)
      ensures !placed ==> |placedTables| == |old(placedTables)| && KindsAdded(tables0, placedTables, [], tableType, added)
      ensures Covered(old(Cells()), old(placedTables)) ==> Covered(Cells(), placedTables)
    {
      ghost var before := placedTables;
      ghost var table;
      placed, table := TryPlaceTable(tableType);
      going := true;
      if placed {
        KindsAddedAppend(tables0, before, [], tableType, added, table);
      } else {
        var rearranged, _, _ := RearrangePreviousTables();
        going := rearranged;
        KindsAddedKept(tables0, before, placedTables, [], tableType, added);
      }
    }

    /** One step of the search: marks and enqueues neighbour d of a when it is
        an unmarked '.' cell inside the room. */
    method Visit(visited: array2<bool>, queue: seq<Cell>, head: nat, a: Cell, d: nat, ghost e: Cell,
                 ghost seen: set<Cell>, ghost pending: set<Cell>)
      returns (queue': seq<Cell>, ghost seen': set<Cell>, ghost pending': set<Cell>)
      requires room != null && visited.Length0 == room.Length0 && visited.Length1 == room.Length1
      requires d < 4 && a in seen && Frontier(Cells(), e, queue, head, seen, pending) && Tracks(visited, seen)
      modifies visited
      ensures Frontier(Cells(), e, queue', head, seen', pending') && Tracks(visited, seen')
      ensures Open(Cells(), Neighbor(a, d)) ==> Neighbor(a, d) in seen'
      ensures (queue' == queue && seen' == seen && pending' == pending) ||
        (InBounds(Cells(), Neighbor(a, d).0, Neighbor(a, d).1) && Neighbor(a, d) !in seen && queue' == queue + [Neighbor(a, d)] &&
         seen' == seen + {Neighbor(a, d)} && pending' == pending + {Neighbor(a, d)})
    {
      ghost var g := Cells();
      var nx := a.0 + Directions[d].0;
      var ny := a.1 + Directions[d].1;
      assert Neighbor(a, d) == (nx, ny);
      queue', seen', pending' := queue, seen, pending;
      if IsInBounds(nx, ny) && !visited[ny, nx] && room[ny, nx] == EMPTY {
        FrontierAdd(g, e, queue, head, seen, pending, a, d);
        visited[ny, nx] := true;
        queue' := queue + [(nx, ny)];
        seen' := seen + {(nx, ny)};
        pending' := pending + {(nx, ny)};
      }
    }

    /** One round of the search: takes queue[head], marks and enqueues its
        unmarked '.' neighbours. */
    method Expand(visited: array2<bool>, queue: seq<Cell>, head: nat, ghost e: Cell,
                  ghost seen: set<Cell>, ghost pending: set<Cell>)
      returns (queue': seq<Cell>, ghost seen': set<Cell>, ghost pending': set<Cell>)
      requires room != null && visited.Length0 == room.Length0 && visited.Length1 == room.Length1
      requires head < |queue| && Frontier(Cells(), e, queue, head, seen, pending) && Tracks(visited, seen)
      modifies visited
      ensures Frontier(Cells(), e, queue', head + 1, seen', pending') && Tracks(visited, seen')
      ensures Unseen(room.Length0, room.Length1, seen') < Unseen(room.Length0, room.Length1, seen) ||
        (seen' == seen && queue' == queue)
    {
      ghost var g := Cells();
      var (x, y) := queue[head];
      queue', seen', pending' := queue, seen, pending;
      // some cell the round marks, if any
      ghost var newCell: Cell := (x, y);
      for d := 0 to 4
        invariant seen <= seen' && (x, y) in pending' && pending' <= seen'
        invariant head < |queue'| && queue'[head] == (x, y)
        invariant Frontier(g, e, queue', head, seen', pending') && Tracks(visited, seen')
        invariant (seen' == seen && queue' == queue) || (InBounds(g, newCell.0, newCell.1) && newCell in seen' - seen)
        invariant forall d' :: 0 <= d' < d && Open(g, Neighbor((x, y), d')) ==> Neighbor((x, y), d') in seen'
      {
        ghost var before := seen';
        queue', seen', pending' := Visit(visited, queue', head, (x, y), d, e, seen', pending');
        if seen' != before {
          newCell := Neighbor((x, y), d);
        }
      }
      FrontierAdvance(g, e, queue', head, seen', pending');
      pending' := pending' - {(x, y)};
      if seen' != seen || queue' != queue {
        UnseenShrinks(room.Length0, room.Length1, seen, seen', newCell);
      }
    }

    /** BFSFromEntrance: marks exactly the cells reachable from the entrance
        through '.' cells. */
    method BFSFromEntrance(visited: array2<bool>)
      requires room != null && InBounds(Cells(), entranceX, entranceY)
      requires visited.Length0 == room.Length0 && visited.Length1 == room.Length1
      requires forall r, c :: 0 <= r < visited.Length0 && 0 <= c < visited.Length1 ==> !visited[r, c]
      modifies visited
      ensures MarksReachable(room, visited, Entrance())
    {
      ghost var g := Cells();
      ghost var e := Entrance();
      ghost var seen: set<Cell> := {e};
      ghost var pending: set<Cell> := {e};
      var queue: seq<Cell> := [(entranceX, entranceY)];
      var head := 0;
      visited[entranceY, entranceX] := true;
      ReachableStart(g, e);
      while head < |queue|
        invariant Frontier(g, e, queue, head, seen, pending) && Tracks(visited, seen)
        decreases Unseen(room.Length0, room.Length1, seen), |queue| - head
      {
        queue, seen, pending := Expand(visited, queue, head, e, seen, pending);
        head := head + 1;
      }
      forall r, c | 0 <= r < room.Length0 && 0 <= c < room.Length1 && Reachable(g, e, (c, r))
        ensures (c, r) in seen
      {
        ClosedHoldsReachable(g, e, seen, (c, r));
      }
    }

    /** HasReachableNeighbor: some neighbour inside the room is marked. */
    method HasReachableNeighbor(x: int, y: int, visited: array2<bool>) returns (r: bool)
      requires room != null && visited.Length0 == room.Length0 && visited.Length1 == room.Length1
      ensures r <==> MarkedNeighbor(room, visited, (x, y))
    {
      for d := 0 to 4
        invariant forall d' :: 0 <= d' < d ==> !Marked(room, visited, Neighbor((x, y), d'))
      {
        var nx := x + Directions[d].0;
        var ny := y + Directions[d].1;
        assert (nx, ny) == Neighbor((x, y), d);
        if IsInBounds(nx, ny) && visited[ny, nx] {
          return true;
        }
      }
      return false;
    }

    /** The chairs of one table, row by row and left to right: the inner
        loops of CollectAllChairs. */
    method TableChairCells(table: Placement) returns (chairs: seq<Cell>)
      ensures chairs == TableChairs(table, |Rows(table)|)
    {
      chairs := [];
      var rows := Split(table.template);
      for dy := 0 to |rows|
        invariant chairs == TableChairs(table, dy)
      {
        for dx := 0 to |rows[dy]|
          invariant chairs == TableChairs(table, dy) + RowChairs(table, dy, dx)
        {
          if rows[dy][dx] == CHAIR {
            chairs := chairs + [(table.x + dx, table.y + dy)];
          }
        }
      }
    }

    /** CollectAllChairs: the chair cells of the listed tables, table by
        table, row by row. */
    method CollectAllChairs() returns (chairs: seq<Cell>)
      ensures chairs == AllChairs(placedTables)
    {
      chairs := [];
      for t := 0 to |placedTables|
        invariant chairs == AllChairs(placedTables[..t])
      {
        var tableChairs := TableChairCells(placedTables[t]);
        chairs := chairs + tableChairs;
        assert placedTables[..t + 1][..t] == placedTables[..t];
      }
      assert placedTables[..|placedTables|] == placedTables;
    }

    /** CheckReachability: true exactly when every chair of every listed
        table has a neighbour inside the room reachable from the entrance.
        Without chairs it answers true before looking at the entrance; with
        chairs the search indexes the room at the entrance, so it must lie
        inside. */
    method CheckReachability() returns (ok: bool)
      requires room != null
      requires InBounds(Cells(), entranceX, entranceY) || |AllChairs(placedTables)| == 0
      ensures ok <==> ChairsServed(Cells(), Entrance(), placedTables)
    {
      ghost var g := Cells();
      ghost var e := Entrance();
      var chairs := CollectAllChairs();
      if |chairs| == 0 {
        ChairListServed(g, e, placedTables);
        return true;
      }
      var visited := new bool[room.Length0, room.Length1]((r, c) => false);
      BFSFromEntrance(visited);
      ok := AllHaveReachableNeighbor(chairs, visited);
      forall k | 0 <= k < |chairs| ensures MarkedNeighbor(room, visited, chairs[k]) <==> Served(g, e, chairs[k]) {
        MarksServe(room, e, visited, chairs[k]);
      }
      ChairListServed(g, e, placedTables);
    }

    /** chairs.All(c => HasReachableNeighbor(c.X, c.Y, visited)). */
    method AllHaveReachableNeighbor(chairs: seq<Cell>, visited: array2<bool>) returns (ok: bool)
      requires room != null && visited.Length0 == room.Length0 && visited.Length1 == room.Length1
      ensures ok <==> forall k :: 0 <= k < |chairs| ==> MarkedNeighbor(room, visited, chairs[k])
    {
      for i := 0 to |chairs|
        invariant forall k :: 0 <= k < i ==> MarkedNeighbor(room, visited, chairs[k])
      {
        var c := chairs[i];
        var has := HasReachableNeighbor(c.0, c.1, visited);
        if !has {
          return false;
        }
      }
      return true;
    }
  }
}
