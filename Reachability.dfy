/** What "every chair can be reached" means (ResizeDialog.xaml.cs, lines
    170-232): walks from the entrance through '.' cells in the four grid
    directions, and the chair cells of the placed tables. */
module Reachability {
  import opened Shapes
  import opened RoomGrid

  /** A cell as (X, Y): column, then row. */
  type Cell = (int, int)

  /** The four steps (dX, dY), in the order the search tries them. */
  const Directions: seq<(int, int)> := [(0, 1), (1, 0), (0, -1), (-1, 0)]

  function Neighbor(c: Cell, d: nat): Cell
    requires d < 4
  {
    (c.0 + Directions[d].0, c.1 + Directions[d].1)
  }

  predicate Adjacent(a: Cell, b: Cell)
  {
    exists d :: 0 <= d < 4 && Neighbor(a, d) == b
  }

  /** The cells of an h x w room. */
  ghost function CellsOf(h: int, w: int): set<Cell>
  {
    set r, x | 0 <= r < h && 0 <= x < w :: (x, r)
  }

  /** How many cells of an h x w room are not yet in seen: the measure that
      bounds the search. */
  ghost function Unseen(h: int, w: int, seen: set<Cell>): nat
  {
    |CellsOf(h, w) - seen|
  }

  /** Adding an unseen cell of the room lowers the measure. */
  lemma UnseenShrinks(h: int, w: int, seen: set<Cell>, seen': set<Cell>, c: Cell)
    requires seen <= seen' && 0 <= c.1 < h && 0 <= c.0 < w && c in seen' && c !in seen
    ensures Unseen(h, w, seen') < Unseen(h, w, seen)
  {
    var s := CellsOf(h, w);
    assert c == (c.0, c.1);
    var x, y := s - seen, s - seen';
    assert c in x - y;
    assert x == y + (x - y);
  }

  /** A cell the search may step onto: inside the room and '.'. */
  predicate Open(g: Grid, c: Cell)
    requires IsRect(g)
  {
    InBounds(g, c.0, c.1) && g[c.1][c.0] == EMPTY
  }

  /** p starts at the entrance e and every later step goes to an adjacent
      open cell. */
  ghost predicate IsWalk(g: Grid, e: Cell, p: seq<Cell>)
    requires IsRect(g)
  {
    |p| > 0 && p[0] == e &&
    forall k :: 0 < k < |p| ==> Adjacent(p[k - 1], p[k]) && Open(g, p[k])
  }

  ghost predicate Reachable(g: Grid, e: Cell, c: Cell)
    requires IsRect(g)
  {
    exists p :: IsWalk(g, e, p) && p[|p| - 1] == c
  }

  /** A chair is served when one of its four neighbours lies inside the room
      and is reachable from the entrance. */
  ghost predicate Served(g: Grid, e: Cell, c: Cell)
    requires IsRect(g)
  {
    exists d :: 0 <= d < 4 && InBounds(g, Neighbor(c, d).0, Neighbor(c, d).1) && Reachable(g, e, Neighbor(c, d))
  }

  /** Every open neighbour of c is in s. */
  ghost predicate Closed(g: Grid, c: Cell, s: set<Cell>)
    requires IsRect(g)
  {
    forall d :: 0 <= d < 4 && Open(g, Neighbor(c, d)) ==> Neighbor(c, d) in s
  }

  lemma ReachableStart(g: Grid, e: Cell)
    requires IsRect(g)
    ensures Reachable(g, e, e)
  {
    assert IsWalk(g, e, [e]);
  }

  lemma ReachableStep(g: Grid, e: Cell, a: Cell, d: nat)
    requires IsRect(g) && d < 4
    requires Reachable(g, e, a) && Open(g, Neighbor(a, d))
    ensures Reachable(g, e, Neighbor(a, d))
  {
    var p :| IsWalk(g, e, p) && p[|p| - 1] == a;
    var q := p + [Neighbor(a, d)];
    assert q[|q| - 2] == a;
    assert IsWalk(g, e, q);
  }

  /** Apart from the entrance itself, only '.' cells are reachable. */
  lemma ReachableIsOpen(g: Grid, e: Cell, c: Cell)
    requires IsRect(g) && Reachable(g, e, c) && c != e
    ensures Open(g, c)
  {
    var p :| IsWalk(g, e, p) && p[|p| - 1] == c;
    assert |p| > 1;
  }

  /** A set that holds the entrance and every open neighbour of each of its
      cells holds every reachable cell. */
  lemma ClosedHoldsReachable(g: Grid, e: Cell, s: set<Cell>, c: Cell)
    requires IsRect(g) && e in s
    requires forall a :: a in s ==> Closed(g, a, s)
    requires Reachable(g, e, c)
    ensures c in s
  {
    var p :| IsWalk(g, e, p) && p[|p| - 1] == c;
    var k := 0;
    while k < |p| - 1
      invariant 0 <= k < |p| && p[k] in s
    {
      var d :| 0 <= d < 4 && Neighbor(p[k], d) == p[k + 1];
      assert Closed(g, p[k], s);
      k := k + 1;
    }
  }

  // ---------------------------------------------------------------------
  // The breadth-first search

  /** The state of the search over g from e: seen is the set of marked cells,
      all reachable; pending holds the queued cells not yet expanded, which are
      queue[head..] without repeats; every other seen cell has all its open
      neighbours in seen. */
  ghost predicate Frontier(g: Grid, e: Cell, queue: seq<Cell>, head: int, seen: set<Cell>, pending: set<Cell>)
    requires IsRect(g)
  {
    0 <= head <= |queue| && e in seen && pending <= seen && |pending| <= |queue| - head &&
    (forall k :: head <= k < |queue| ==> queue[k] in pending) &&
    (forall j, k :: head <= j < k < |queue| ==> queue[j] != queue[k]) &&
    (forall a {:trigger Reachable(g, e, a)} :: a in seen ==> Reachable(g, e, a)) &&
    (forall a {:trigger Closed(g, a, seen)} :: a in seen && a !in pending ==> Closed(g, a, seen))
  }

  /** Marking and queueing an unseen open neighbour of a seen cell keeps the
      search state. */
  lemma FrontierAdd(g: Grid, e: Cell, queue: seq<Cell>, head: int, seen: set<Cell>, pending: set<Cell>,
                    a: Cell, d: nat)
    requires IsRect(g) && d < 4 && Frontier(g, e, queue, head, seen, pending)
    requires a in seen && Open(g, Neighbor(a, d)) && Neighbor(a, d) !in seen
    ensures var n := Neighbor(a, d);
      Frontier(g, e, queue + [n], head, seen + {n}, pending + {n})
  {
    var n := Neighbor(a, d);
    ReachableStep(g, e, a, d);
    var seen', pending' := seen + {n}, pending + {n};
    forall b | b in seen' && b !in pending' ensures Closed(g, b, seen') {
      assert Closed(g, b, seen);
    }
  }

  /** Once queue[head] is closed, it leaves the frontier. */
  lemma FrontierAdvance(g: Grid, e: Cell, queue: seq<Cell>, head: int, seen: set<Cell>, pending: set<Cell>)
    requires IsRect(g) && Frontier(g, e, queue, head, seen, pending)
    requires head < |queue| && Closed(g, queue[head], seen)
    ensures Frontier(g, e, queue, head + 1, seen, pending - {queue[head]})
  {
    var c := queue[head];
    var rest := pending - {c};
    assert forall k :: head + 1 <= k < |queue| ==> queue[k] != c;
    assert pending == rest + {c};
    forall a {:trigger Closed(g, a, seen)} | a in seen && a !in rest ensures Closed(g, a, seen) {
      if a != c {
        assert a !in pending;
      }
    }
  }

  // ---------------------------------------------------------------------
  // Chairs

  /** Cell (cx, cy) lies under an 'h' of p's template. */
  predicate IsChair(p: Placement, cx: int, cy: int)
  {
    var rows := Rows(p);
    0 <= cy - p.y < |rows| && 0 <= cx - p.x < |rows[cy - p.y]| && rows[cy - p.y][cx - p.x] == CHAIR
  }

  /** The chairs of row dy of p among its first n columns, left to right. */
  function RowChairs(p: Placement, dy: nat, n: nat): seq<Cell>
    requires dy < |Rows(p)| && n <= |Rows(p)[dy]|
  {
    if n == 0 then []
    else RowChairs(p, dy, n - 1) + (if Rows(p)[dy][n - 1] == CHAIR then [(p.x + n - 1, p.y + dy)] else [])
  }

  /** The chairs of p's first m rows, row by row. */
  function TableChairs(p: Placement, m: nat): seq<Cell>
    requires m <= |Rows(p)|
  {
    if m == 0 then [] else TableChairs(p, m - 1) + RowChairs(p, m - 1, |Rows(p)[m - 1]|)
  }

  /** CollectAllChairs: the chairs of every listed table, in list order. */
  function AllChairs(tables: seq<Placement>): seq<Cell>
  {
    if |tables| == 0 then []
    else AllChairs(tables[..|tables| - 1]) + TableChairs(tables[|tables| - 1], |Rows(tables[|tables| - 1])|)
  }

  lemma {:induction false} RowChairsMembers(p: Placement, dy: nat, n: nat)
    requires dy < |Rows(p)| && n <= |Rows(p)[dy]|
    ensures forall c :: c in RowChairs(p, dy, n) <==>
      c.1 == p.y + dy && p.x <= c.0 < p.x + n && IsChair(p, c.0, c.1)
  {
    if n > 0 {
      RowChairsMembers(p, dy, n - 1);
    }
  }

  lemma {:induction false} TableChairsMembers(p: Placement, m: nat)
    requires m <= |Rows(p)|
    ensures forall c :: c in TableChairs(p, m) <==> p.y <= c.1 < p.y + m && IsChair(p, c.0, c.1)
  {
    if m > 0 {
      TableChairsMembers(p, m - 1);
      RowChairsMembers(p, m - 1, |Rows(p)[m - 1]|);
    }
  }

  /** The collected list holds exactly the chair cells of the listed tables. */
  lemma {:induction false} AllChairsMembers(tables: seq<Placement>)
    ensures forall c :: c in AllChairs(tables) <==>
      exists k :: 0 <= k < |tables| && IsChair(tables[k], c.0, c.1)
  {
    if |tables| > 0 {
      var n := |tables| - 1;
      var init := tables[..n];
      AllChairsMembers(init);
      TableChairsMembers(tables[n], |Rows(tables[n])|);
      forall c ensures c in AllChairs(tables) <==> exists k :: 0 <= k < |tables| && IsChair(tables[k], c.0, c.1) {
        if c in AllChairs(init) {
          var k :| 0 <= k < |init| && IsChair(init[k], c.0, c.1);
          assert tables[k] == init[k];
        } else {
          assert forall k :: 0 <= k < n ==> init[k] == tables[k];
        }
      }
    }
  }

  /** The property the engine keeps after every placement: each chair of each
      listed table is served. */
  ghost predicate ChairsServed(g: Grid, e: Cell, tables: seq<Placement>)
    requires IsRect(g)
  {
    forall k, cx, cy :: 0 <= k < |tables| && IsChair(tables[k], cx, cy) ==> Served(g, e, (cx, cy))
  }

  /** Checking the collected chair list one by one decides the property. */
  lemma ChairListServed(g: Grid, e: Cell, tables: seq<Placement>)
    requires IsRect(g)
    ensures (forall k :: 0 <= k < |AllChairs(tables)| ==> Served(g, e, AllChairs(tables)[k])) <==>
      ChairsServed(g, e, tables)
  {
    var chairs := AllChairs(tables);
    if forall k :: 0 <= k < |chairs| ==> Served(g, e, chairs[k]) {
      forall k, cx, cy | 0 <= k < |tables| && IsChair(tables[k], cx, cy) ensures Served(g, e, (cx, cy)) {
        ChairListed(tables, k, cx, cy);
        var j :| 0 <= j < |chairs| && chairs[j] == (cx, cy);
      }
    }
    if ChairsServed(g, e, tables) {
      forall j | 0 <= j < |chairs| ensures Served(g, e, chairs[j]) {
        var k := ChairOwner(tables, j);
      }
    }
  }

  lemma ChairListed(tables: seq<Placement>, k: nat, cx: int, cy: int)
    requires k < |tables| && IsChair(tables[k], cx, cy)
    ensures (cx, cy) in AllChairs(tables)
  {
    AllChairsMembers(tables);
  }

  lemma ChairOwner(tables: seq<Placement>, j: nat) returns (k: nat)
    requires j < |AllChairs(tables)|
    ensures k < |tables| && IsChair(tables[k], AllChairs(tables)[j].0, AllChairs(tables)[j].1)
  {
    var c := AllChairs(tables)[j];
    AllChairsMembers(tables);
    assert c in AllChairs(tables);
    k :| 0 <= k < |tables| && IsChair(tables[k], c.0, c.1);
  }

  /** The property depends only on which entries are listed. */
  lemma ChairsServedSubset(g: Grid, e: Cell, tables: seq<Placement>, sub: seq<Placement>)
    requires IsRect(g) && ChairsServed(g, e, tables)
    requires forall q :: q in sub ==> q in tables
    ensures ChairsServed(g, e, sub)
  {
    forall k, cx, cy | 0 <= k < |sub| && IsChair(sub[k], cx, cy) ensures Served(g, e, (cx, cy)) {
      assert sub[k] in tables;
      var i :| 0 <= i < |tables| && tables[i] == sub[k];
    }
  }
}
