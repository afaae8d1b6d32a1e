/** The room as a value (ResizeDialog.xaml.cs, lines 24-26 and 138-168,
    349-372, 433-468): a rectangle of cells where row y, column x holds
    room[y, x], and the placed tables with their anchors.  The imperative
    engine states what it does to the room through these functions. */
module RoomGrid {
  import opened Shapes

  type Grid = seq<seq<char>>

  /** The value of a char that was never written: new char[h, w] is all '\0'. */
  const NUL: char := '\0'

  function Width(g: Grid): nat
  {
    if |g| == 0 then 0 else |g[0]|
  }

  /** Every row as long as the first: what a char[,] always is. */
  predicate IsRect(g: Grid)
  {
    forall y :: 0 <= y < |g| ==> |g[y]| == Width(g)
  }

  predicate InBounds(g: Grid, x: int, y: int)
  {
    0 <= y < |g| && 0 <= x < Width(g)
  }

  /** One entry of placedTables: the anchor is the template's top-left cell. */
  datatype Placement = Placement(x: int, y: int, template: string)

  function Rows(p: Placement): seq<string>
  {
    Split(p.template)
  }

  /** Cell (cx, cy) lies under a non-'.' cell of p's template. */
  predicate Covers(p: Placement, cx: int, cy: int)
  {
    var rows := Rows(p);
    0 <= cy - p.y < |rows| && 0 <= cx - p.x < |rows[cy - p.y]| && rows[cy - p.y][cx - p.x] != EMPTY
  }

  /** The template character that p puts on a cell it covers. */
  function CharAt(p: Placement, cx: int, cy: int): char
    requires Covers(p, cx, cy)
  {
    Rows(p)[cy - p.y][cx - p.x]
  }

  /** Every covered cell lies inside the room. */
  ghost predicate FitsIn(g: Grid, p: Placement)
  {
    forall cx, cy :: Covers(p, cx, cy) ==> InBounds(g, cx, cy)
  }

  /** CheckPlacability: the template's bounding box lies within the room and
      every covered cell is '.' (the anchor is never negative: the source
      draws it with random.Next, and its scratch-grid overload rejects it). */
  ghost predicate Placeable(g: Grid, p: Placement)
    requires IsRect(g)
  {
    var rows := Rows(p);
    0 <= p.x && 0 <= p.y && p.x + |rows[0]| <= Width(g) && p.y + |rows| <= |g| &&
    forall cx, cy :: Covers(p, cx, cy) ==> InBounds(g, cx, cy) && g[cy][cx] == EMPTY
  }

  /** PlaceTable on the room: every covered cell takes the template's character. */
  function Paint(g: Grid, p: Placement): (h: Grid)
    requires IsRect(g) && FitsIn(g, p)
    ensures |h| == |g| && Width(h) == Width(g) && IsRect(h)
  {
    seq(|g|, y requires 0 <= y < |g| =>
      seq(|g[y]|, x requires 0 <= x < |g[y]| => if Covers(p, x, y) then CharAt(p, x, y) else g[y][x]))
  }

  /** RemoveTable on the room: every covered cell inside the room becomes '.'. */
  function Erase(g: Grid, p: Placement): (h: Grid)
    requires IsRect(g)
    ensures |h| == |g| && Width(h) == Width(g) && IsRect(h)
  {
    seq(|g|, y requires 0 <= y < |g| =>
      seq(|g[y]|, x requires 0 <= x < |g[y]| => if Covers(p, x, y) then EMPTY else g[y][x]))
  }

  /** p's characters are on the room. */
  ghost predicate Painted(g: Grid, p: Placement)
    requires IsRect(g)
  {
    forall cx, cy :: Covers(p, cx, cy) ==> InBounds(g, cx, cy) && g[cy][cx] == CharAt(p, cx, cy)
  }

  ghost predicate Disjoint(p: Placement, q: Placement)
  {
    forall cx, cy :: Covers(p, cx, cy) ==> !Covers(q, cx, cy)
  }

  /** The layout invariant: every listed table is a furniture template painted
      on the room, and two different entries never share a cell. */
  ghost predicate Layout(g: Grid, tables: seq<Placement>)
    requires IsRect(g)
  {
    (forall k :: 0 <= k < |tables| ==> IsFurniture(Rows(tables[k])) && Painted(g, tables[k])) &&
    (forall k, m :: 0 <= k < |tables| && 0 <= m < |tables| && tables[k] != tables[m] ==>
      Disjoint(tables[k], tables[m]))
  }

  /** List.RemoveAll(t => t == p). */
  function RemoveAll(tables: seq<Placement>, p: Placement): (rest: seq<Placement>)
    ensures forall q :: q in rest <==> q in tables && q != p
    ensures |rest| <= |tables|
  {
    if |tables| == 0 then []
    else if tables[0] == p then RemoveAll(tables[1..], p)
    else [tables[0]] + RemoveAll(tables[1..], p)
  }

  // ---------------------------------------------------------------------
  // Lemmas on a single placement

  /** A placeable table fits, and removing it right after placing it gives
      the room back cell for cell. */
  lemma PlaceThenRemove(g: Grid, p: Placement)
    requires IsRect(g) && Placeable(g, p)
    ensures FitsIn(g, p)
    ensures Painted(Paint(g, p), p)
    ensures Erase(Paint(g, p), p) == g
  {
    var h := Erase(Paint(g, p), p);
    forall y | 0 <= y < |g| ensures h[y] == g[y] {
      forall x | 0 <= x < |g[y]| ensures h[y][x] == g[y][x] {
        if Covers(p, x, y) {
          assert g[y][x] == EMPTY;
        }
      }
    }
  }

  /** Placing what was just removed repaints the room cell for cell. */
  lemma RemoveThenRestore(g: Grid, p: Placement)
    requires IsRect(g) && Painted(g, p)
    ensures FitsIn(Erase(g, p), p)
    ensures Paint(Erase(g, p), p) == g
  {
    var h := Paint(Erase(g, p), p);
    forall y | 0 <= y < |g| ensures h[y] == g[y] {
      forall x | 0 <= x < |g[y]| ensures h[y][x] == g[y][x] {
      }
    }
  }

  /** A template with a non-'.' cell covers some cell. */
  lemma FurnitureCovers(p: Placement)
    requires IsFurniture(Rows(p))
    ensures exists cx, cy :: Covers(p, cx, cy)
  {
    var rows := Rows(p);
    var i, j :| 0 <= i < |rows| && 0 <= j < |rows[i]| && rows[i][j] != EMPTY;
    assert Covers(p, p.x + j, p.y + i);
  }

  // ---------------------------------------------------------------------
  // The layout invariant under the engine's steps

  /** A placeable furniture table is not listed yet, and painting and listing
      it keeps the layout invariant. */
  lemma PlaceKeepsLayout(g: Grid, tables: seq<Placement>, p: Placement)
    requires IsRect(g) && Layout(g, tables)
    requires Placeable(g, p) && IsFurniture(Rows(p))
    ensures p !in tables
    ensures FitsIn(g, p) && Layout(Paint(g, p), tables + [p])
  {
    FurnitureCovers(p);
    var cx, cy :| Covers(p, cx, cy);
    forall k | 0 <= k < |tables| ensures tables[k] != p {
      assert g[cy][cx] == EMPTY && CharAt(p, cx, cy) != EMPTY;
    }
    PlaceThenRemove(g, p);
    var h := Paint(g, p);
    var t := tables + [p];
    forall k | 0 <= k < |tables| ensures Disjoint(tables[k], p) && Painted(h, tables[k]) {
      var q := tables[k];
      forall x, y | Covers(q, x, y) ensures !Covers(p, x, y) && h[y][x] == CharAt(q, x, y) {
        assert g[y][x] == CharAt(q, x, y) != EMPTY;
      }
    }
    forall k, m | 0 <= k < |t| && 0 <= m < |t| && t[k] != t[m] ensures Disjoint(t[k], t[m]) {
      if k < |tables| && m < |tables| {
        assert Disjoint(tables[k], tables[m]);
      } else if m == |tables| {
        assert Disjoint(tables[k], p);
      } else {
        var q := tables[m];
        assert Disjoint(q, p);
        forall x, y | Covers(p, x, y) ensures !Covers(q, x, y) {
          assert !(Covers(q, x, y) && Covers(p, x, y));
        }
      }
    }
  }

  /** Removing a listed table keeps every other entry painted. */
  lemma EraseKeepsLayout(g: Grid, tables: seq<Placement>, p: Placement)
    requires IsRect(g) && Layout(g, tables) && p in tables
    ensures Layout(Erase(g, p), RemoveAll(tables, p))
  {
    var h := Erase(g, p);
    var rest := RemoveAll(tables, p);
    forall k | 0 <= k < |rest| ensures IsFurniture(Rows(rest[k])) && Painted(h, rest[k]) {
      var q := rest[k];
      assert q in tables && q != p;
      var i :| 0 <= i < |tables| && tables[i] == q;
      var j :| 0 <= j < |tables| && tables[j] == p;
      assert Disjoint(q, p);
    }
    forall k, m | 0 <= k < |rest| && 0 <= m < |rest| && rest[k] != rest[m]
      ensures Disjoint(rest[k], rest[m])
    {
      assert rest[k] in tables && rest[m] in tables;
      var i :| 0 <= i < |tables| && tables[i] == rest[k];
      var j :| 0 <= j < |tables| && tables[j] == rest[m];
    }
  }

  /** The invariant only depends on which entries are listed. */
  lemma LayoutOfSubset(g: Grid, tables: seq<Placement>, sub: seq<Placement>)
    requires IsRect(g) && Layout(g, tables)
    requires forall q :: q in sub ==> q in tables
    ensures Layout(g, sub)
  {
    forall k | 0 <= k < |sub| ensures IsFurniture(Rows(sub[k])) && Painted(g, sub[k]) {
      assert sub[k] in tables;
      var i :| 0 <= i < |tables| && tables[i] == sub[k];
    }
    forall k, m | 0 <= k < |sub| && 0 <= m < |sub| && sub[k] != sub[m]
      ensures Disjoint(sub[k], sub[m])
    {
      assert sub[k] in tables && sub[m] in tables;
      var i :| 0 <= i < |tables| && tables[i] == sub[k];
      var j :| 0 <= j < |tables| && tables[j] == sub[m];
    }
  }

  // ---------------------------------------------------------------------
  // Furniture on the room belongs to a listed table

  /** Every table or chair cell of the room lies under a listed table: the
      other direction of Layout, so that room and list never diverge. */
  ghost predicate Covered(g: Grid, tables: seq<Placement>)
  {
    forall y, x :: 0 <= y < |g| && 0 <= x < |g[y]| && g[y][x] in {TABLE, CHAIR} ==>
      exists q :: q in tables && Covers(q, x, y)
  }

  /** Painting a table and listing it keeps every furniture cell accounted for. */
  lemma PaintKeepsCovered(g: Grid, tables: seq<Placement>, p: Placement)
    requires IsRect(g) && FitsIn(g, p) && Covered(g, tables)
    ensures Covered(Paint(g, p), tables + [p])
  {
    var h := Paint(g, p);
    forall y, x | 0 <= y < |h| && 0 <= x < |h[y]| && h[y][x] in {TABLE, CHAIR}
      ensures exists q :: q in tables + [p] && Covers(q, x, y)
    {
      if Covers(p, x, y) {
        assert p in tables + [p];
      } else {
        assert g[y][x] == h[y][x];
        var q :| q in tables && Covers(q, x, y);
        assert q in tables + [p];
      }
    }
  }

  /** Erasing a table and removing every listing of it keeps every furniture
      cell accounted for: the cells it covered become '.'. */
  lemma EraseKeepsCovered(g: Grid, tables: seq<Placement>, p: Placement)
    requires IsRect(g) && Covered(g, tables)
    ensures Covered(Erase(g, p), RemoveAll(tables, p))
  {
    var h := Erase(g, p);
    forall y, x | 0 <= y < |h| && 0 <= x < |h[y]| && h[y][x] in {TABLE, CHAIR}
      ensures exists q :: q in RemoveAll(tables, p) && Covers(q, x, y)
    {
      assert !Covers(p, x, y) && g[y][x] == h[y][x];
      var q :| q in tables && Covers(q, x, y);
      assert q in RemoveAll(tables, p);
    }
  }

  /** Listing more entries keeps every furniture cell accounted for. */
  lemma CoveredOfSuperset(g: Grid, tables: seq<Placement>, sup: seq<Placement>)
    requires Covered(g, tables)
    requires forall q :: q in tables ==> q in sup
    ensures Covered(g, sup)
  {
    forall y, x | 0 <= y < |g| && 0 <= x < |g[y]| && g[y][x] in {TABLE, CHAIR}
      ensures exists q :: q in sup && Covers(q, x, y)
    {
      var q :| q in tables && Covers(q, x, y);
      assert q in sup;
    }
  }

  // ---------------------------------------------------------------------
  // Walls, the entrance and unwritten cells

  /** A cell the table search never writes: anything but '.', 'S' and 'h'. */
  predicate IsFixed(c: char)
  {
    c != EMPTY && c != TABLE && c != CHAIR
  }

  /** h has g's shape and the same fixed cells in the same places. */
  predicate KeepsFixed(g: Grid, h: Grid)
  {
    |h| == |g| &&
    (forall y :: 0 <= y < |g| ==> |h[y]| == |g[y]|) &&
    (forall y, x :: 0 <= y < |g| && 0 <= x < |g[y]| && (IsFixed(g[y][x]) || IsFixed(h[y][x])) ==>
      h[y][x] == g[y][x])
  }

  lemma KeepsFixedTrans(g: Grid, h: Grid, k: Grid)
    requires KeepsFixed(g, h) && KeepsFixed(h, k)
    ensures KeepsFixed(g, k)
  {
    forall y, x | 0 <= y < |g| && 0 <= x < |g[y]| && (IsFixed(g[y][x]) || IsFixed(k[y][x]))
      ensures k[y][x] == g[y][x]
    {
      assert |h[y]| == |g[y]|;
      if IsFixed(g[y][x]) {
        assert h[y][x] == g[y][x];
      } else {
        assert k[y][x] == h[y][x];
      }
    }
  }

  /** Placing a table only turns '.' cells into 'S' or 'h' cells. */
  lemma PaintKeepsFixed(g: Grid, p: Placement)
    requires IsRect(g) && Placeable(g, p) && IsFurniture(Rows(p))
    ensures FitsIn(g, p) && KeepsFixed(g, Paint(g, p))
    ensures forall y, x :: 0 <= y < |g| && 0 <= x < |g[y]| && Paint(g, p)[y][x] != g[y][x] ==>
      g[y][x] == EMPTY && Paint(g, p)[y][x] in {TABLE, CHAIR}
  {
    var h := Paint(g, p);
    forall y, x | 0 <= y < |g| && 0 <= x < |g[y]| && Covers(p, x, y) ensures !IsFixed(h[y][x]) {
      var rows := Rows(p);
      assert rows[y - p.y][x - p.x] in {EMPTY, TABLE, CHAIR};
    }
  }

  /** Removing a painted table only turns 'S' and 'h' cells into '.' cells. */
  lemma EraseKeepsFixed(g: Grid, p: Placement)
    requires IsRect(g) && Painted(g, p) && IsFurniture(Rows(p))
    ensures KeepsFixed(g, Erase(g, p))
    ensures forall y, x :: 0 <= y < |g| && 0 <= x < |g[y]| && Erase(g, p)[y][x] != g[y][x] ==>
      g[y][x] in {TABLE, CHAIR} && Erase(g, p)[y][x] == EMPTY
  {
    forall y, x | 0 <= y < |g| && 0 <= x < |g[y]| && Covers(p, x, y) ensures !IsFixed(g[y][x]) {
      var rows := Rows(p);
      assert rows[y - p.y][x - p.x] in {EMPTY, TABLE, CHAIR};
    }
  }

  // ---------------------------------------------------------------------
  // The placed-tables list

  lemma {:induction false} RemoveAllAppend(a: seq<Placement>, b: seq<Placement>, p: Placement)
    ensures RemoveAll(a + b, p) == RemoveAll(a, p) + RemoveAll(b, p)
  {
    if |a| == 0 {
      assert a + b == b;
    } else {
      assert (a + b)[0] == a[0] && (a + b)[1..] == a[1..] + b;
      RemoveAllAppend(a[1..], b, p);
      if a[0] != p {
        calc {
          RemoveAll(a + b, p);
          [a[0]] + RemoveAll(a[1..] + b, p);
          [a[0]] + (RemoveAll(a[1..], p) + RemoveAll(b, p));
          ([a[0]] + RemoveAll(a[1..], p)) + RemoveAll(b, p);
        }
      }
    }
  }

  lemma {:induction false} RemoveAllAbsent(tables: seq<Placement>, p: Placement)
    requires p !in tables
    ensures RemoveAll(tables, p) == tables
  {
    if |tables| > 0 {
      RemoveAllAbsent(tables[1..], p);
    }
  }

  /** In a list without duplicates, removing an entry drops exactly its one slot. */
  lemma RemoveAllUnique(tables: seq<Placement>, i: nat)
    requires i < |tables| && NoDuplicates(tables)
    ensures RemoveAll(tables, tables[i]) == tables[..i] + tables[i + 1..]
  {
    var p := tables[i];
    assert tables == tables[..i] + ([p] + tables[i + 1..]);
    RemoveAllAppend(tables[..i], [p] + tables[i + 1..], p);
    RemoveAllAppend([p], tables[i + 1..], p);
    RemoveAllAbsent(tables[..i], p);
    RemoveAllAbsent(tables[i + 1..], p);
  }

  /** Entries before the first listing of p survive its removal in place. */
  lemma RemoveAllKeepsPrefix(tables: seq<Placement>, i: nat)
    requires i < |tables| && tables[i] !in tables[..i]
    ensures |RemoveAll(tables, tables[i])| >= i
    ensures RemoveAll(tables, tables[i])[..i] == tables[..i]
  {
    var p := tables[i];
    assert tables == tables[..i] + tables[i..];
    RemoveAllAppend(tables[..i], tables[i..], p);
    RemoveAllAbsent(tables[..i], p);
  }

  /** RemoveAll(L ++ [p], p) is L when p is not listed: a placement that is
      undone leaves the list as it was. */
  lemma RemoveAllLast(tables: seq<Placement>, p: Placement)
    requires p !in tables
    ensures RemoveAll(tables + [p], p) == tables
  {
    RemoveAllAppend(tables, [p], p);
    RemoveAllAbsent(tables, p);
    assert RemoveAll([p], p) == [];
  }

  /** The list while RearrangePreviousTables works on index i: entries
      i+1.. have each been taken out and put back at the end, which reverses
      them. */
  function Rearranged(tables: seq<Placement>, i: int): (r: seq<Placement>)
    requires -1 <= i < |tables|
    ensures |r| == |tables|
  {
    tables[..i + 1] + Reverse(tables[i + 1..])
  }

  /** One step of the rearrangement, for a list without duplicates: taking
      entry i out leaves the other entries, distinct; putting it back at the
      end gives the list for index i - 1. */
  lemma RearrangeStep(tables: seq<Placement>, i: nat)
    requires i < |tables| && NoDuplicates(tables)
    ensures Rearranged(tables, i)[i] == tables[i]
    ensures NoDuplicates(Rearranged(tables, i))
    ensures forall q :: q in Rearranged(tables, i) ==> q in tables
    ensures RemoveAll(Rearranged(tables, i), tables[i]) == tables[..i] + Reverse(tables[i + 1..])
    ensures NoDuplicates(tables[..i] + Reverse(tables[i + 1..]))
    ensures tables[i] !in tables[..i] + Reverse(tables[i + 1..])
    ensures tables[..i] + Reverse(tables[i + 1..]) + [tables[i]] == Rearranged(tables, i - 1)
  {
    assert tables[..i + 1] == tables[..i] + [tables[i]];
    RearrangedElements(tables, i);
    RearrangeDistinct(tables, i);
    RearrangeRemove(tables[..i], tables[i], Reverse(tables[i + 1..]));
    RearrangeNext(tables, i);
  }

  /** The entries around slot i stay distinct after the tail is reversed. */
  lemma RearrangeDistinct(tables: seq<Placement>, i: nat)
    requires i < |tables| && NoDuplicates(tables)
    ensures NoDuplicates(tables[..i] + Reverse(tables[i + 1..]))
    ensures NoDuplicates(tables[..i] + [tables[i]] + Reverse(tables[i + 1..]))
    ensures tables[i] !in tables[..i] + Reverse(tables[i + 1..])
  {
    var a := tables[..i];
    var b := Reverse(tables[i + 1..]);
    var p := tables[i];
    ReverseElements(tables[i + 1..]);
    assert NoDuplicates(tables[i + 1..]);
    assert forall x :: x in a ==> x !in b;
    assert p !in a && p !in b;
    NoDuplicatesConcat(a, b);
    NoDuplicatesConcat(a + [p], b);
  }

  /** Taking p out of a + [p] + b, where p is in neither, leaves a + b. */
  lemma RearrangeRemove(a: seq<Placement>, p: Placement, b: seq<Placement>)
    requires p !in a && p !in b
    ensures RemoveAll(a + [p] + b, p) == a + b
  {
    var ap := a + [p];
    RemoveAllAppend(ap, b, p);
    RemoveAllAppend(a, [p], p);
    RemoveAllAbsent(a, p);
    RemoveAllAbsent(b, p);
    assert [p][1..] == [];
    assert RemoveAll([p], p) == [];
    assert RemoveAll(ap, p) == a;
  }

  /** Appending entry i to the list with entries i+1.. reversed gives the
      list with entries i.. reversed. */
  lemma RearrangeNext(tables: seq<Placement>, i: nat)
    requires i < |tables|
    ensures tables[..i] + Reverse(tables[i + 1..]) + [tables[i]] == Rearranged(tables, i - 1)
  {
    ReverseFront(tables[i..]);
    assert tables[i..][1..] == tables[i + 1..];
  }

  /** A successful rearrangement step (entry i erased, its template painted
      at moved, the list rebuilt as RearrangePreviousTables leaves it) keeps
      every furniture cell accounted for. */
  lemma RearrangeKeepsCovered(g: Grid, tables: seq<Placement>, i: nat, moved: Placement)
    requires IsRect(g) && Covered(g, tables) && i < |tables|
    requires FitsIn(Erase(g, tables[i]), moved)
    ensures Covered(Paint(Erase(g, tables[i]), moved), tables[..i] + Reverse(tables[i + 1..]) + [moved])
  {
    var rest := tables[..i] + Reverse(tables[i + 1..]);
    EraseKeepsCovered(g, tables, tables[i]);
    ReverseElements(tables[i + 1..]);
    forall q | q in RemoveAll(tables, tables[i]) ensures q in rest {
      var k :| 0 <= k < |tables| && tables[k] == q;
      if k < i {
        assert q in tables[..i];
      } else {
        assert k != i && q in tables[i + 1..];
      }
    }
    CoveredOfSuperset(Erase(g, tables[i]), RemoveAll(tables, tables[i]), rest);
    PaintKeepsCovered(Erase(g, tables[i]), rest, moved);
  }

  lemma RearrangedElements(tables: seq<Placement>, i: int)
    requires -1 <= i < |tables|
    ensures forall q :: q in Rearranged(tables, i) <==> q in tables
  {
    ReverseElements(tables[i + 1..]);
    assert tables == tables[..i + 1] + tables[i + 1..];
  }

  /** The listed tables whose template is one of `templates`. */
  function CountOf(tables: seq<Placement>, templates: seq<string>): nat
  {
    if |tables| == 0 then 0
    else
      CountOf(tables[..|tables| - 1], templates) +
      (if tables[|tables| - 1].template in templates then 1 else 0)
  }

  lemma CountOfAppend(tables: seq<Placement>, p: Placement, templates: seq<string>)
    ensures CountOf(tables + [p], templates) == CountOf(tables, templates) + (if p.template in templates then 1 else 0)
  {
    assert (tables + [p])[..|tables|] == tables;
  }

  lemma {:induction false} CountOfConcat(a: seq<Placement>, b: seq<Placement>, templates: seq<string>)
    ensures CountOf(a + b, templates) == CountOf(a, templates) + CountOf(b, templates)
  {
    if |b| == 0 {
      assert a + b == a;
    } else {
      assert (a + b)[..|a + b| - 1] == a + b[..|b| - 1];
      CountOfConcat(a, b[..|b| - 1], templates);
    }
  }

  /** Reversing the list keeps the count. */
  lemma {:induction false} CountOfReverse(tables: seq<Placement>, templates: seq<string>)
    ensures CountOf(Reverse(tables), templates) == CountOf(tables, templates)
  {
    if |tables| > 0 {
      var n := |tables| - 1;
      assert Reverse(tables) == [tables[n]] + Reverse(tables[..n]);
      CountOfReverse(tables[..n], templates);
      CountOfConcat([tables[n]], Reverse(tables[..n]), templates);
      assert [tables[n]][..0] == [];
    }
  }

  /** What RearrangePreviousTables leaves after moving entry i (entries
      i+1.. reversed, the moved table last with its template) has the same
      count for every template list. */
  lemma CountOfRearranged(tables: seq<Placement>, i: nat, moved: Placement, templates: seq<string>)
    requires i < |tables| && moved.template == tables[i].template
    ensures CountOf(tables[..i] + Reverse(tables[i + 1..]) + [moved], templates) == CountOf(tables, templates)
  {
    assert tables == tables[..i] + [tables[i]] + tables[i + 1..];
    CountOfConcat(tables[..i] + [tables[i]], tables[i + 1..], templates);
    CountOfAppend(tables[..i] + Reverse(tables[i + 1..]), moved, templates);
    CountOfAppend(tables[..i], tables[i], templates);
    CountOfConcat(tables[..i], Reverse(tables[i + 1..]), templates);
    CountOfReverse(tables[i + 1..], templates);
  }

  /** The list after a drag-and-drop move of the entry at index i (the first
      listing of that entry) to q: RemoveAll of the old entry, Add of q, then
      q written at index i. */
  function MoveList(tables: seq<Placement>, i: nat, q: Placement): (moved: seq<Placement>)
    requires i < |tables| && tables[i] !in tables[..i]
    ensures |moved| == |RemoveAll(tables, tables[i])| + 1
    ensures i < |moved| && moved[i] == q && moved[..i] == tables[..i]
  {
    RemoveAllKeepsPrefix(tables, i);
    (RemoveAll(tables, tables[i]) + [q])[i := q]
  }

  /** Every entry after a move is q or an entry that was listed before,
      other than the moved one, and q is listed. */
  lemma MoveListEntries(tables: seq<Placement>, i: nat, q: Placement)
    requires i < |tables| && tables[i] !in tables[..i]
    ensures q in MoveList(tables, i, q)
    ensures forall r :: r in MoveList(tables, i, q) ==> r == q || (r in tables && r != tables[i])
  {
    RemoveAllKeepsPrefix(tables, i);
    var rest := RemoveAll(tables, tables[i]) + [q];
    var moved := MoveList(tables, i, q);
    assert moved[i] == q;
    forall r | r in moved ensures r == q || (r in tables && r != tables[i]) {
      var k :| 0 <= k < |moved| && moved[k] == r;
      if k != i {
        assert r == rest[k];
      }
    }
  }

  /** An anchor that is not listed apart from the moved table is not listed
      before the moved slot either, so the slot stays its first listing. */
  lemma MoveListFirst(tables: seq<Placement>, i: nat, q: Placement)
    requires i < |tables| && tables[i] !in tables[..i]
    requires q !in RemoveAll(tables, tables[i])
    ensures q !in tables[..i]
  {
    forall k | 0 <= k < i ensures tables[k] in RemoveAll(tables, tables[i]) {
      assert tables[k] in tables[..i];
    }
  }

  /** Moving the last entry replaces it, as intended. */
  lemma MoveLastEntry(tables: seq<Placement>, q: Placement)
    requires |tables| > 0 && NoDuplicates(tables)
    ensures MoveList(tables, |tables| - 1, q) == tables[..|tables| - 1] + [q]
  {
    RemoveAllUnique(tables, |tables| - 1);
  }

  /** Moving any other entry drops the entry listed right after it, and lists
      q twice: at the moved slot and at the end. */
  lemma MoveListDropsNext(tables: seq<Placement>, i: nat, q: Placement)
    requires i + 1 < |tables| && NoDuplicates(tables) && q !in tables
    ensures MoveList(tables, i, q) == tables[..i] + [q] + tables[i + 2..] + [q]
    ensures tables[i + 1] !in MoveList(tables, i, q)
  {
    RemoveAllUnique(tables, i);
    var rest := tables[..i] + tables[i + 1..] + [q];
    var want := tables[..i] + [q] + tables[i + 2..] + [q];
    assert |rest[i := q]| == |want|;
    forall k | 0 <= k < |want| ensures rest[i := q][k] == want[k] {
      if k < i {
      } else if k == i {
      } else if k < |tables| - 1 {
        assert rest[k] == tables[k + 1];
      }
    }
    assert rest[i := q] == want;
    forall k | 0 <= k < |want| ensures want[k] != tables[i + 1] {
      if k < i {
        assert want[k] == tables[k];
      } else if i < k < |tables| - 1 {
        assert want[k] == tables[k + 1];
      }
    }
  }

  /** Undoing such a move the same way (as the source does when the moved
      table blocks a chair) does not give the list back: from [a, b, c],
      moving a to q and back leaves [a, a]. */
  lemma MoveAndBackLosesEntries(a: Placement, b: Placement, c: Placement, q: Placement)
    requires a != b && a != c && b != c && q !in [a, b, c]
    ensures [a, b, c][0] !in [a, b, c][..0]
    ensures MoveList([a, b, c], 0, q) == [q, c, q]
    ensures MoveList(MoveList([a, b, c], 0, q), 0, a) == [a, a]
  {
    assert NoDuplicates([a, b, c]);
    MoveListDropsNext([a, b, c], 0, q);
    assert [a, b, c][..0] + [q] + [a, b, c][2..] + [q] == [q, c, q];
    assert [q, c, q][1..] == [c, q] && [c, q][1..] == [q] && [q][1..] == [];
    assert q != c;
    assert RemoveAll([q], q) == [];
    assert RemoveAll([c, q], q) == [c];
    assert RemoveAll([q, c, q], q) == [c];
  }

  /** A move keeps the layout invariant: after removing entry i and placing q
      where it fits, every listed entry is painted and entries are disjoint. */
  lemma MoveKeepsLayout(g: Grid, tables: seq<Placement>, i: nat, q: Placement)
    requires IsRect(g) && Layout(g, tables)
    requires i < |tables| && tables[i] !in tables[..i]
    requires Placeable(Erase(g, tables[i]), q) && IsFurniture(Rows(q))
    ensures FitsIn(Erase(g, tables[i]), q)
    ensures Layout(Paint(Erase(g, tables[i]), q), MoveList(tables, i, q))
  {
    var h := Erase(g, tables[i]);
    var rest := RemoveAll(tables, tables[i]);
    EraseKeepsLayout(g, tables, tables[i]);
    PlaceKeepsLayout(h, rest, q);
    MoveListEntries(tables, i, q);
    LayoutOfSubset(Paint(h, q), rest + [q], MoveList(tables, i, q));
  }

  // ---------------------------------------------------------------------
  // Clearing and resizing

  /** ClearDynamicObjects on one cell: a table, chair or entrance becomes '.'. */
  function ClearedCell(c: char): char
  {
    if c == TABLE || c == CHAIR || c == ENTRANCE then EMPTY else c
  }

  /** ClearDynamicObjects on the room. */
  function Cleared(g: Grid): (h: Grid)
    requires IsRect(g)
    ensures |h| == |g| && Width(h) == Width(g) && IsRect(h)
  {
    seq(|g|, y requires 0 <= y < |g| =>
      seq(|g[y]|, x requires 0 <= x < |g[y]| => ClearedCell(g[y][x])))
  }

  /** After clearing no table, chair or entrance is left, walls and every
      other cell stay as they were, and clearing again changes nothing. */
  lemma ClearedSpec(g: Grid)
    requires IsRect(g)
    ensures forall y, x :: InBounds(g, x, y) ==>
      Cleared(g)[y][x] !in {TABLE, CHAIR, ENTRANCE} &&
      (g[y][x] !in {TABLE, CHAIR, ENTRANCE} ==> Cleared(g)[y][x] == g[y][x])
    ensures Cleared(Cleared(g)) == Cleared(g)
  {
    var h := Cleared(g);
    var k := Cleared(h);
    forall y | 0 <= y < |g| ensures k[y] == h[y] {
      assert |k[y]| == |h[y]|;
    }
  }

  /** A cleared room, with or without the entrance marked, holds no table or
      chair cell, so no listed table is needed to account for one. */
  lemma ClearedCovered(g: Grid, x: int, y: int)
    requires IsRect(g) && InBounds(g, x, y)
    ensures Covered(Cleared(g), []) && Covered(WithEntrance(Cleared(g), x, y), [])
  {
    ClearedSpec(g);
  }

  /** ResizeRoomWithWalls: a newHeight x newWidth room whose overlap with the
      old one keeps the walls and is '.' elsewhere; cells outside the old room
      keep the '\0' of a fresh char[,]. */
  function Resized(g: Grid, newWidth: nat, newHeight: nat): (h: Grid)
    requires IsRect(g)
    ensures |h| == newHeight && IsRect(h) && (newHeight > 0 ==> Width(h) == newWidth)
  {
    seq(newHeight, y requires 0 <= y < newHeight =>
      seq(newWidth, x requires 0 <= x < newWidth =>
        if y < |g| && x < Width(g) then (if g[y][x] == WALL then WALL else EMPTY) else NUL))
  }

  /** What a resize keeps: inside the old bounds a cell is a wall exactly
      when it was one and '.' otherwise; outside them it holds '\0', which is
      neither free for a table nor open to the search, and is never written
      by it. */
  lemma ResizedSpec(g: Grid, newWidth: nat, newHeight: nat)
    requires IsRect(g)
    ensures forall y, x :: 0 <= y < newHeight && 0 <= x < newWidth && InBounds(g, x, y) ==>
      (Resized(g, newWidth, newHeight)[y][x] == WALL <==> g[y][x] == WALL) &&
      (Resized(g, newWidth, newHeight)[y][x] == EMPTY <==> g[y][x] != WALL)
    ensures forall y, x :: 0 <= y < newHeight && 0 <= x < newWidth && !InBounds(g, x, y) ==>
      Resized(g, newWidth, newHeight)[y][x] == NUL && IsFixed(Resized(g, newWidth, newHeight)[y][x])
  {
  }

  /** InitializeRoom: a height x width room of '.'. */
  function Blank(width: nat, height: nat): (h: Grid)
    ensures |h| == height && IsRect(h) && (height > 0 ==> Width(h) == width)
  {
    seq(height, y requires 0 <= y < height => seq(width, x requires 0 <= x < width => EMPTY))
  }

  // ---------------------------------------------------------------------
  // Wall editing

  /** The drawing tool selected in the window. */
  datatype Tool = AddWalls | RemoveWalls | MoveTables

  /** The entrance mark BtnStart_Click writes on a cleared room. */
  function WithEntrance(g: Grid, x: int, y: int): (h: Grid)
    requires IsRect(g) && InBounds(g, x, y)
    ensures |h| == |g| && IsRect(h) && Width(h) == Width(g)
    ensures forall r, c :: 0 <= r < |g| && 0 <= c < |g[r]| ==>
      h[r][c] == if r == y && c == x then ENTRANCE else g[r][c]
  {
    g[y := g[y][x := ENTRANCE]]
  }

  /** ProcessCanvasClick on one cell: AddWalls turns '.' into a wall,
      RemoveWalls turns a wall into '.', anything else stays. */
  function EditedCell(tool: Tool, c: char): char
  {
    if tool == AddWalls && c == EMPTY then WALL
    else if tool == RemoveWalls && c == WALL then EMPTY
    else c
  }

  function Edited(g: Grid, tool: Tool, x: int, y: int): (h: Grid)
    requires IsRect(g) && InBounds(g, x, y)
    ensures |h| == |g| && Width(h) == Width(g) && IsRect(h)
  {
    g[y := g[y][x := EditedCell(tool, g[y][x])]]
  }

  /** Wall edits never touch a table or chair cell, so the placed tables stay
      painted and the layout invariant holds. */
  lemma EditKeepsLayout(g: Grid, tables: seq<Placement>, tool: Tool, x: int, y: int)
    requires IsRect(g) && InBounds(g, x, y) && Layout(g, tables)
    ensures Layout(Edited(g, tool, x, y), tables)
  {
    var h := Edited(g, tool, x, y);
    forall k | 0 <= k < |tables| ensures Painted(h, tables[k]) {
      var p := tables[k];
      forall cx, cy | Covers(p, cx, cy) ensures InBounds(h, cx, cy) && h[cy][cx] == CharAt(p, cx, cy) {
        var rows := Rows(p);
        assert rows[cy - p.y][cx - p.x] in {EMPTY, TABLE, CHAIR};
        assert g[cy][cx] == CharAt(p, cx, cy);
      }
    }
  }

  /** Adding a wall on a '.' cell and removing it again gives the room back. */
  lemma AddThenRemoveWall(g: Grid, x: int, y: int)
    requires IsRect(g) && InBounds(g, x, y) && g[y][x] == EMPTY
    ensures Edited(g, AddWalls, x, y)[y][x] == WALL
    ensures Edited(Edited(g, AddWalls, x, y), RemoveWalls, x, y) == g
  {
    var h := Edited(Edited(g, AddWalls, x, y), RemoveWalls, x, y);
    assert h[y] == g[y];
  }
}
