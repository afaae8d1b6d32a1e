/** Furniture templates (ResizeDialog.xaml.cs, lines 17-21 and 262-336).

    A template is a string whose rows are separated by '\n'; each cell is one
    of '.', 'S' or 'h'.  The transforms take the rows of a template (the
    result of Split) and return the transformed template as a string, exactly
    as the source's Rotate90, Rotate180, Rotate270, MirrorHorizontal and
    MirrorVertical do.  GenerateAllOrientations lists the six transforms and
    drops repeated strings, keeping first occurrences. */
module Shapes {

  const EMPTY: char := '.'
  const TABLE: char := 'S'
  const CHAIR: char := 'h'
  const ENTRANCE: char := 'E'
  const WALL: char := 'W'
  const NEWLINE: char := '\n'

  datatype Option<T> = None | Some(value: T)

  // ---------------------------------------------------------------------
  // Sequences: first index, reversal, duplicate removal

  /** The position of the first occurrence of x in s. */
  function IndexOf<T(==)>(s: seq<T>, x: T): (k: nat)
    requires x in s
    ensures k < |s| && s[k] == x && x !in s[..k]
  {
    if s[0] == x then 0
    else
      var k := 1 + IndexOf(s[1..], x);
      assert s[..k] == [s[0]] + s[1..][..k - 1];
      k
  }

  /** Enumerable.Reverse. */
  function Reverse<T>(s: seq<T>): (r: seq<T>)
    ensures |r| == |s|
    ensures forall i :: 0 <= i < |s| ==> r[i] == s[|s| - 1 - i]
  {
    seq(|s|, i requires 0 <= i < |s| => s[|s| - 1 - i])
  }

  predicate NoDuplicates<T(==)>(s: seq<T>)
  {
    forall i, j :: 0 <= i < j < |s| ==> s[i] != s[j]
  }

  /** Enumerable.Distinct: an element is kept where it occurs for the first time. */
  function Distinct<T(==)>(s: seq<T>): seq<T>
  {
    if |s| == 0 then []
    else if s[|s| - 1] in s[..|s| - 1] then Distinct(s[..|s| - 1])
    else Distinct(s[..|s| - 1]) + [s[|s| - 1]]
  }

  /** Distinct keeps every value once, keeps no other value, and starts with
      the first element of its input. */
  lemma DistinctSpec<T>(s: seq<T>)
    ensures NoDuplicates(Distinct(s))
    ensures forall x :: x in Distinct(s) <==> x in s
    ensures |Distinct(s)| <= |s|
    ensures |s| > 0 ==> |Distinct(s)| > 0 && Distinct(s)[0] == s[0]
  {
    DistinctMembers(s);
    DistinctNoDuplicates(s);
    DistinctFirst(s);
  }

  lemma {:induction false} DistinctMembers<T>(s: seq<T>)
    ensures forall x :: x in Distinct(s) <==> x in s
  {
    if |s| > 0 {
      var p, last := s[..|s| - 1], s[|s| - 1];
      DistinctMembers(p);
      assert s == p + [last];
    }
  }

  lemma {:induction false} DistinctNoDuplicates<T>(s: seq<T>)
    ensures NoDuplicates(Distinct(s))
  {
    if |s| > 0 {
      var p, last := s[..|s| - 1], s[|s| - 1];
      DistinctNoDuplicates(p);
      if last !in p {
        DistinctMembers(p);
        var r := Distinct(s);
        assert r == Distinct(p) + [last];
        assert forall i :: 0 <= i < |r| - 1 ==> r[i] == Distinct(p)[i];
      }
    }
  }

  lemma {:induction false} DistinctFirst<T>(s: seq<T>)
    ensures |Distinct(s)| <= |s|
    ensures |s| > 0 ==> |Distinct(s)| > 0 && Distinct(s)[0] == s[0]
  {
    if |s| > 0 {
      var p := s[..|s| - 1];
      DistinctFirst(p);
      if |p| > 0 {
        assert p[0] == s[0];
      } else {
        assert Distinct(p) == [];
      }
    }
  }

  /** The kept elements appear in the order of their first occurrences. */
  lemma {:induction false} DistinctOrder<T>(s: seq<T>)
    ensures forall x :: x in Distinct(s) ==> x in s
    ensures forall i, j :: 0 <= i < j < |Distinct(s)| ==>
      IndexOf(s, Distinct(s)[i]) < IndexOf(s, Distinct(s)[j])
  {
    DistinctSpec(s);
    if |s| > 0 {
      var p := s[..|s| - 1];
      var last := s[|s| - 1];
      DistinctOrder(p);
      DistinctSpec(p);
      var r := Distinct(s);
      forall i, j | 0 <= i < j < |r|
        ensures IndexOf(s, r[i]) < IndexOf(s, r[j])
      {
        IndexOfInPrefix(s, |s| - 1, r[i]);
        if j < |Distinct(p)| {
          IndexOfInPrefix(s, |s| - 1, r[j]);
        } else {
          assert r[j] == last && last !in p;
          IndexOfUnique(s, last, |s| - 1);
        }
      }
    }
  }

  /** A value that occurs in the first n elements is found there. */
  lemma IndexOfInPrefix<T>(s: seq<T>, n: nat, x: T)
    requires n <= |s| && x in s[..n]
    ensures IndexOf(s, x) == IndexOf(s[..n], x) < n
  {
    var m := IndexOf(s[..n], x);
    assert s[..n][..m] == s[..m];
    IndexOfUnique(s, x, m);
  }

  /** Reversing a list puts its first element last. */
  lemma ReverseFront<T>(s: seq<T>)
    requires |s| > 0
    ensures Reverse(s) == Reverse(s[1..]) + [s[0]]
  {
    var r := Reverse(s[1..]) + [s[0]];
    forall i | 0 <= i < |s| - 1 ensures Reverse(s)[i] == r[i] {
      assert r[i] == s[1..][|s| - 2 - i];
    }
  }

  /** Reversing keeps the elements and keeps them distinct. */
  lemma ReverseElements<T>(s: seq<T>)
    ensures forall x :: x in Reverse(s) <==> x in s
    ensures NoDuplicates(s) ==> NoDuplicates(Reverse(s))
  {
    var r := Reverse(s);
    forall x | x in s ensures x in r {
      var i :| 0 <= i < |s| && s[i] == x;
      assert r[|s| - 1 - i] == x;
    }
  }

  lemma NoDuplicatesConcat<T>(a: seq<T>, b: seq<T>)
    requires NoDuplicates(a) && NoDuplicates(b)
    requires forall x :: x in a ==> x !in b
    ensures NoDuplicates(a + b)
  {
    var c := a + b;
    forall i, j | 0 <= i < j < |c| ensures c[i] != c[j] {
      if i < |a| <= j {
        assert c[i] in a && c[j] == b[j - |a|];
      } else if |a| <= i {
        assert c[i] == b[i - |a|] && c[j] == b[j - |a|];
      }
    }
  }

  // ---------------------------------------------------------------------
  // The string form of a template

  /** string.Join("\n", rows). */
  function Join(rows: seq<string>): string
  {
    if |rows| == 0 then ""
    else if |rows| == 1 then rows[0]
    else rows[0] + [NEWLINE] + Join(rows[1..])
  }

  /** s.Split('\n'): the pieces between newlines, at least one. */
  function Split(s: string): (rows: seq<string>)
    ensures |rows| > 0
    ensures forall i :: 0 <= i < |rows| ==> NEWLINE !in rows[i]
    decreases |s|
  {
    if NEWLINE !in s then [s]
    else
      var k := IndexOf(s, NEWLINE);
      [s[..k]] + Split(s[k + 1..])
  }

  /** ArrayToString: the rows of a char[,], each but the last followed by '\n'. */
  function ArrayToString(cells: seq<seq<char>>): string
  {
    if |cells| == 0 then ""
    else if |cells| == 1 then cells[0]
    else ArrayToString(cells[..|cells| - 1]) + [NEWLINE] + cells[|cells| - 1]
  }

  predicate NoNewline(rows: seq<string>)
  {
    forall i :: 0 <= i < |rows| ==> NEWLINE !in rows[i]
  }

  lemma {:induction false} IndexOfUnique<T>(s: seq<T>, x: T, k: nat)
    requires k < |s| && s[k] == x && x !in s[..k]
    ensures IndexOf(s, x) == k
  {
    var m := IndexOf(s, x);
  }

  /** Splitting a joined list of newline-free rows gives the rows back. */
  lemma {:induction false} SplitJoin(rows: seq<string>)
    requires |rows| > 0 && NoNewline(rows)
    ensures Split(Join(rows)) == rows
  {
    if |rows| > 1 {
      var s := Join(rows);
      var n := |rows[0]|;
      var rest := Join(rows[1..]);
      assert s == rows[0] + [NEWLINE] + rest;
      assert s[..n] == rows[0] && s[n] == NEWLINE && s[n + 1..] == rest;
      IndexOfUnique(s, NEWLINE, n);
      assert Split(s) == [rows[0]] + Split(rest);
      SplitJoin(rows[1..]);
      assert rows == [rows[0]] + rows[1..];
    }
  }

  /** Joining the pieces of a string gives the string back. */
  lemma {:induction false} JoinSplit(s: string)
    ensures Join(Split(s)) == s
    decreases |s|
  {
    if NEWLINE in s {
      var k := IndexOf(s, NEWLINE);
      JoinSplit(s[k + 1..]);
      assert s == s[..k] + [NEWLINE] + s[k + 1..];
    }
  }

  lemma {:induction false} JoinSnoc(rows: seq<string>, last: string)
    requires |rows| > 0
    ensures Join(rows + [last]) == Join(rows) + [NEWLINE] + last
  {
    if |rows| > 1 {
      assert (rows + [last])[1..] == rows[1..] + [last];
      JoinSnoc(rows[1..], last);
    }
  }

  /** The StringBuilder loop of ArrayToString produces string.Join("\n", rows). */
  lemma {:induction false} ArrayToStringIsJoin(cells: seq<seq<char>>)
    ensures ArrayToString(cells) == Join(cells)
  {
    if |cells| > 1 {
      var p := cells[..|cells| - 1];
      ArrayToStringIsJoin(p);
      JoinSnoc(p, cells[|cells| - 1]);
      assert p + [cells[|cells| - 1]] == cells;
    }
  }

  /** Split('\n') of ArrayToString returns the rows of the array. */
  lemma SplitArrayToString(cells: seq<seq<char>>)
    requires |cells| > 0 && NoNewline(cells)
    ensures Split(ArrayToString(cells)) == cells
  {
    ArrayToStringIsJoin(cells);
    SplitJoin(cells);
  }

  // ---------------------------------------------------------------------
  // Shapes of templates

  /** What Rotate90 needs: a first row, and no row shorter than it. */
  predicate Rotatable(rows: seq<string>)
  {
    |rows| > 0 && forall i :: 0 <= i < |rows| ==> |rows[i]| >= |rows[0]|
  }

  predicate Rectangular(rows: seq<string>)
  {
    |rows| > 0 && forall i :: 0 <= i < |rows| ==> |rows[i]| == |rows[0]|
  }

  /** The rows of a template string: a non-empty rectangle without newlines. */
  predicate IsTemplate(rows: seq<string>)
  {
    Rectangular(rows) && |rows[0]| > 0 && NoNewline(rows)
  }

  /** A furniture template: its cells are '.', 'S' or 'h', and one is not '.'. */
  predicate IsFurniture(rows: seq<string>)
  {
    IsTemplate(rows) &&
    (forall i, j :: 0 <= i < |rows| && 0 <= j < |rows[i]| ==> rows[i][j] in {EMPTY, TABLE, CHAIR}) &&
    exists i, j :: 0 <= i < |rows| && 0 <= j < |rows[i]| && rows[i][j] != EMPTY
  }

  // ---------------------------------------------------------------------
  // The transforms

  /** The char[cols, rows] that Rotate90 fills: cell [c][k] holds row rows-1-k, column c. */
  function RotatedCells(rows: seq<string>): seq<seq<char>>
    requires Rotatable(rows)
  {
    seq(|rows[0]|, c requires 0 <= c < |rows[0]| =>
      seq(|rows|, k requires 0 <= k < |rows| => rows[|rows| - 1 - k][c]))
  }

  function Rotate90(rows: seq<string>): string
    requires Rotatable(rows)
  {
    ArrayToString(RotatedCells(rows))
  }

  function MirrorHorizontal(rows: seq<string>): string
  {
    Join(seq(|rows|, i requires 0 <= i < |rows| => Reverse(rows[i])))
  }

  function MirrorVertical(rows: seq<string>): string
  {
    Join(Reverse(rows))
  }

  function Rotate180(rows: seq<string>): string
  {
    MirrorHorizontal(Split(MirrorVertical(rows)))
  }

  function Rotate270(rows: seq<string>): string
    requires Rotatable(Split(Rotate180(rows)))
  {
    Rotate90(Split(Rotate180(rows)))
  }

  // ---------------------------------------------------------------------
  // Cell-wise meaning of the transforms

  /** Rotate90 of an r x c template is a c x r template whose cell [k][m]
      is cell [r-1-m][k] of the input (the source's rotated[c, rows-1-r]). */
  lemma Rotate90Cells(rows: seq<string>)
    requires IsTemplate(rows)
    ensures var out := Split(Rotate90(rows));
      IsTemplate(out) && |out| == |rows[0]| && |out[0]| == |rows| &&
      forall k, m :: 0 <= k < |out| && 0 <= m < |out[k]| ==> out[k][m] == rows[|rows| - 1 - m][k]
  {
    var r, c := |rows|, |rows[0]|;
    var cells := RotatedCells(rows);
    assert |cells| == c;
    forall k | 0 <= k < c
      ensures |cells[k]| == r && NEWLINE !in cells[k]
      ensures forall m :: 0 <= m < r ==> cells[k][m] == rows[r - 1 - m][k]
    {
      forall m | 0 <= m < r ensures cells[k][m] == rows[r - 1 - m][k] != NEWLINE {
        assert NEWLINE !in rows[r - 1 - m];
      }
    }
    SplitArrayToString(cells);
    assert Split(Rotate90(rows)) == cells;
  }

  /** MirrorHorizontal reverses every row. */
  lemma MirrorHorizontalCells(rows: seq<string>)
    requires IsTemplate(rows)
    ensures var out := Split(MirrorHorizontal(rows));
      IsTemplate(out) && |out| == |rows| && |out[0]| == |rows[0]| &&
      forall i, j :: 0 <= i < |out| && 0 <= j < |out[i]| ==> out[i][j] == rows[i][|rows[0]| - 1 - j]
  {
    var rev := seq(|rows|, i requires 0 <= i < |rows| => Reverse(rows[i]));
    forall i | 0 <= i < |rev| ensures NEWLINE !in rev[i] {
      forall k | 0 <= k < |rev[i]| ensures rev[i][k] != NEWLINE {
        assert rev[i][k] == rows[i][|rows[i]| - 1 - k];
      }
    }
    SplitJoin(rev);
  }

  /** MirrorVertical reverses the order of the rows. */
  lemma MirrorVerticalCells(rows: seq<string>)
    requires IsTemplate(rows)
    ensures var out := Split(MirrorVertical(rows));
      IsTemplate(out) && out == Reverse(rows)
  {
    SplitJoin(Reverse(rows));
  }

  /** Rotate180 of an r x c template is an r x c template whose cell [i][j]
      is cell [r-1-i][c-1-j] of the input. */
  lemma Rotate180Cells(rows: seq<string>)
    requires IsTemplate(rows)
    ensures var out := Split(Rotate180(rows));
      IsTemplate(out) && |out| == |rows| && |out[0]| == |rows[0]| &&
      forall i, j :: 0 <= i < |out| && 0 <= j < |out[i]| ==>
        out[i][j] == rows[|rows| - 1 - i][|rows[0]| - 1 - j]
  {
    MirrorVerticalCells(rows);
    var v := Split(MirrorVertical(rows));
    MirrorHorizontalCells(v);
  }

  /** Rotate270 of an r x c template is a c x r template whose cell [k][m]
      is cell [m][c-1-k] of the input. */
  lemma Rotate270Cells(rows: seq<string>)
    requires IsTemplate(rows)
    ensures Rotatable(Split(Rotate180(rows)))
    ensures var out := Split(Rotate270(rows));
      IsTemplate(out) && |out| == |rows[0]| && |out[0]| == |rows| &&
      forall k, m :: 0 <= k < |out| && 0 <= m < |out[k]| ==> out[k][m] == rows[m][|rows[0]| - 1 - k]
  {
    Rotate180Cells(rows);
    var h := Split(Rotate180(rows));
    Rotate90Cells(h);
  }

  /** Two templates with the same cells are the same string. */
  lemma SameCells(a: seq<string>, b: seq<string>)
    requires IsTemplate(a) && IsTemplate(b) && |a| == |b| && |a[0]| == |b[0]|
    requires forall i, j :: 0 <= i < |a| && 0 <= j < |a[i]| ==> a[i][j] == b[i][j]
    ensures Join(a) == Join(b)
  {
    forall i | 0 <= i < |a| ensures a[i] == b[i] {
      assert |a[i]| == |b[i]|;
    }
    assert a == b;
  }

  /** Mirroring left-right twice gives the template back. */
  lemma MirrorHorizontalTwice(rows: seq<string>)
    requires IsTemplate(rows)
    ensures MirrorHorizontal(Split(MirrorHorizontal(rows))) == Join(rows)
  {
    MirrorHorizontalCells(rows);
    var m := Split(MirrorHorizontal(rows));
    MirrorHorizontalCells(m);
    var mm := Split(MirrorHorizontal(m));
    ReverseColumnsTwice(rows, m, mm);
    JoinSplit(MirrorHorizontal(m));
  }

  /** Reversing the columns of a template twice gives its cells back. */
  lemma ReverseColumnsTwice(rows: seq<string>, m: seq<string>, mm: seq<string>)
    requires IsTemplate(rows) && IsTemplate(m) && IsTemplate(mm)
    requires |m| == |rows| && |m[0]| == |rows[0]| && |mm| == |m| && |mm[0]| == |m[0]|
    requires forall i, j :: 0 <= i < |m| && 0 <= j < |m[i]| ==> m[i][j] == rows[i][|rows[0]| - 1 - j]
    requires forall i, j :: 0 <= i < |mm| && 0 <= j < |mm[i]| ==> mm[i][j] == m[i][|m[0]| - 1 - j]
    ensures Join(mm) == Join(rows)
  {
    forall i, j | 0 <= i < |mm| && 0 <= j < |mm[i]| ensures mm[i][j] == rows[i][j] {
      assert |mm[i]| == |m[i]| == |rows[0]|;
      assert mm[i][j] == m[i][|m[0]| - 1 - j];
    }
    SameCells(mm, rows);
  }

  /** Mirroring top-bottom twice gives the template back. */
  lemma MirrorVerticalTwice(rows: seq<string>)
    requires IsTemplate(rows)
    ensures MirrorVertical(Split(MirrorVertical(rows))) == Join(rows)
  {
    MirrorVerticalCells(rows);
    assert Reverse(Reverse(rows)) == rows;
  }

  /** Rotate90 after Rotate270 is the identity: four quarter turns. */
  lemma FullTurn(rows: seq<string>)
    requires IsTemplate(rows)
    ensures Rotatable(Split(Rotate180(rows)))
    ensures Rotatable(Split(Rotate270(rows)))
    ensures Rotate90(Split(Rotate270(rows))) == Join(rows)
  {
    Rotate270Cells(rows);
    var t := Split(Rotate270(rows));
    FullTurnCells(rows, t);
    var back := Split(Rotate90(t));
    SameCells(back, rows);
    JoinSplit(Rotate90(t));
  }

  /** A quarter turn clockwise undoes a quarter turn counter-clockwise, cell
      by cell. */
  lemma FullTurnCells(rows: seq<string>, t: seq<string>)
    requires IsTemplate(rows) && IsTemplate(t) && |t| == |rows[0]| && |t[0]| == |rows|
    requires forall k, m :: 0 <= k < |t| && 0 <= m < |t[k]| ==> t[k][m] == rows[m][|rows[0]| - 1 - k]
    ensures var back := Split(Rotate90(t));
      IsTemplate(back) && |back| == |rows| && |back[0]| == |rows[0]| &&
      forall k, m :: 0 <= k < |back| && 0 <= m < |back[k]| ==> back[k][m] == rows[k][m]
  {
    Rotate90Cells(t);
    var back := Split(Rotate90(t));
    var c := |rows[0]|;
    forall k, m | 0 <= k < |back| && 0 <= m < |back[k]| ensures back[k][m] == rows[k][m] {
      assert back[k][m] == t[c - 1 - m][k];
    }
  }

  // ---------------------------------------------------------------------
  // Variants of a kind

  /** The six transforms in the order GenerateAllOrientations lists them. */
  function Orientations(rows: seq<string>): seq<string>
    requires Rotatable(rows) && Rotatable(Split(Rotate180(rows)))
  {
    [Join(rows), Rotate90(rows), Rotate180(rows), Rotate270(rows),
     MirrorHorizontal(rows), MirrorVertical(rows)]
  }

  function GenerateAllOrientations(rows: seq<string>): (variants: seq<string>)
    requires Rotatable(rows) && Rotatable(Split(Rotate180(rows)))
    ensures NoDuplicates(variants)
    ensures forall t :: t in variants <==> t in Orientations(rows)
    ensures 1 <= |variants| <= 6 && variants[0] == Join(rows)
    ensures forall i, j :: 0 <= i < j < |variants| ==>
      IndexOf(Orientations(rows), variants[i]) < IndexOf(Orientations(rows), variants[j])
  {
    DistinctSpec(Orientations(rows));
    DistinctOrder(Orientations(rows));
    Distinct(Orientations(rows))
  }

  /** Each transform of a furniture template is again a furniture template. */
  lemma OrientationsAreFurniture(rows: seq<string>)
    requires IsFurniture(rows)
    ensures Rotatable(rows) && Rotatable(Split(Rotate180(rows)))
    ensures forall t :: t in Orientations(rows) ==> IsFurniture(Split(t))
  {
    Rotate270Furniture(rows);
    forall t | t in Orientations(rows) ensures IsFurniture(Split(t)) {
      if t == MirrorHorizontal(rows) {
        MirrorHorizontalFurniture(rows);
      } else if t == MirrorVertical(rows) {
        MirrorVerticalFurniture(rows);
      } else {
        RotationIsFurniture(rows, t);
      }
    }
  }

  lemma RotationIsFurniture(rows: seq<string>, t: string)
    requires IsFurniture(rows) && Rotatable(rows) && Rotatable(Split(Rotate180(rows)))
    requires t in [Join(rows), Rotate90(rows), Rotate180(rows), Rotate270(rows)]
    ensures IsFurniture(Split(t))
  {
    if t == Join(rows) {
      SplitJoin(rows);
    } else if t == Rotate90(rows) {
      Rotate90Furniture(rows);
    } else if t == Rotate180(rows) {
      Rotate180Furniture(rows);
    } else {
      Rotate270Furniture(rows);
    }
  }

  lemma Rotate90Furniture(rows: seq<string>)
    requires IsFurniture(rows)
    ensures IsFurniture(Split(Rotate90(rows)))
  {
    var i0, j0 :| 0 <= i0 < |rows| && 0 <= j0 < |rows[i0]| && rows[i0][j0] != EMPTY;
    Rotate90Cells(rows);
    var a := Split(Rotate90(rows));
    assert a[j0][|rows| - 1 - i0] == rows[i0][j0];
  }

  lemma Rotate180Furniture(rows: seq<string>)
    requires IsFurniture(rows)
    ensures IsFurniture(Split(Rotate180(rows)))
  {
    var i0, j0 :| 0 <= i0 < |rows| && 0 <= j0 < |rows[i0]| && rows[i0][j0] != EMPTY;
    Rotate180Cells(rows);
    var b := Split(Rotate180(rows));
    assert b[|rows| - 1 - i0][|rows[0]| - 1 - j0] == rows[i0][j0];
  }

  lemma Rotate270Furniture(rows: seq<string>)
    requires IsFurniture(rows)
    ensures Rotatable(Split(Rotate180(rows)))
    ensures IsFurniture(Split(Rotate270(rows)))
  {
    var i0, j0 :| 0 <= i0 < |rows| && 0 <= j0 < |rows[i0]| && rows[i0][j0] != EMPTY;
    Rotate270Cells(rows);
    var d := Split(Rotate270(rows));
    assert d[|rows[0]| - 1 - j0][i0] == rows[i0][j0];
    forall k, m | 0 <= k < |d| && 0 <= m < |d[k]| ensures d[k][m] in {EMPTY, TABLE, CHAIR} {
      assert d[k][m] == rows[m][|rows[0]| - 1 - k];
    }
  }

  lemma MirrorHorizontalFurniture(rows: seq<string>)
    requires IsFurniture(rows)
    ensures IsFurniture(Split(MirrorHorizontal(rows)))
  {
    var i0, j0 :| 0 <= i0 < |rows| && 0 <= j0 < |rows[i0]| && rows[i0][j0] != EMPTY;
    MirrorHorizontalCells(rows);
    var e := Split(MirrorHorizontal(rows));
    assert e[i0][|rows[0]| - 1 - j0] == rows[i0][j0];
  }

  lemma MirrorVerticalFurniture(rows: seq<string>)
    requires IsFurniture(rows)
    ensures IsFurniture(Split(MirrorVertical(rows)))
  {
    var i0, j0 :| 0 <= i0 < |rows| && 0 <= j0 < |rows[i0]| && rows[i0][j0] != EMPTY;
    MirrorVerticalCells(rows);
    var f := Split(MirrorVertical(rows));
    assert f[|rows| - 1 - i0][j0] == rows[i0][j0];
  }

  /** GetTemplatesForTableType: the variants of kinds 1, 2 and 3; any other
      kind is an error (the source throws ArgumentException). */
  function GetTemplatesForTableType(tableType: int): (result: Option<seq<string>>)
    ensures result.Some? <==> tableType in {1, 2, 3}
    ensures result.Some? ==> |result.value| > 0 && NoDuplicates(result.value)
    ensures result.Some? ==> forall t :: t in result.value ==> IsFurniture(Split(t))
  {
    if tableType in {1, 2, 3} then Some(Variants(BaseRows(tableType))) else None
  }

  /** GenerateAllOrientations of a base pattern, with what it guarantees. */
  function Variants(rows: seq<string>): (variants: seq<string>)
    requires IsFurniture(rows)
    ensures |variants| > 0 && NoDuplicates(variants)
    ensures forall t :: t in variants ==> IsFurniture(Split(t))
  {
    OrientationsAreFurniture(rows);
    GenerateAllOrientations(rows)
  }

  // ---------------------------------------------------------------------
  // The kinds share no template

  /** A template of two rows of two cells, as all three base patterns are. */
  predicate Square(rows: seq<string>)
  {
    |rows| == 2 && |rows[0]| == 2 && |rows[1]| == 2
  }

  /** How many of the four cells of a square template hold c. */
  function SquareCount(rows: seq<string>, c: char): nat
    requires Square(rows)
  {
    (if rows[0][0] == c then 1 else 0) + (if rows[0][1] == c then 1 else 0) +
    (if rows[1][0] == c then 1 else 0) + (if rows[1][1] == c then 1 else 0)
  }

  /** Every orientation of a square template is square and holds the same
      four cells. */
  lemma SquareOrientation(rows: seq<string>, t: string)
    requires IsTemplate(rows) && Square(rows)
    requires Rotatable(rows) && Rotatable(Split(Rotate180(rows)))
    requires t in Orientations(rows)
    ensures Square(Split(t)) && forall c :: SquareCount(Split(t), c) == SquareCount(rows, c)
  {
    if t == Join(rows) {
      SplitJoin(rows);
    } else if t == Rotate90(rows) {
      Rotate90Square(rows);
    } else if t == Rotate180(rows) {
      Rotate180Square(rows);
    } else if t == Rotate270(rows) {
      Rotate270Square(rows);
    } else if t == MirrorHorizontal(rows) {
      MirrorHorizontalSquare(rows);
    } else {
      MirrorVerticalSquare(rows);
    }
  }

  lemma Rotate90Square(rows: seq<string>)
    requires IsTemplate(rows) && Square(rows)
    ensures var out := Split(Rotate90(rows));
      Square(out) && forall c :: SquareCount(out, c) == SquareCount(rows, c)
  {
    Rotate90Cells(rows);
    var out := Split(Rotate90(rows));
    assert out[0][0] == rows[1][0] && out[0][1] == rows[0][0];
    assert out[1][0] == rows[1][1] && out[1][1] == rows[0][1];
  }

  lemma Rotate180Square(rows: seq<string>)
    requires IsTemplate(rows) && Square(rows)
    ensures var out := Split(Rotate180(rows));
      Square(out) && forall c :: SquareCount(out, c) == SquareCount(rows, c)
  {
    Rotate180Cells(rows);
    var out := Split(Rotate180(rows));
    assert out[0][0] == rows[1][1] && out[0][1] == rows[1][0];
    assert out[1][0] == rows[0][1] && out[1][1] == rows[0][0];
  }

  lemma Rotate270Square(rows: seq<string>)
    requires IsTemplate(rows) && Square(rows)
    ensures Rotatable(Split(Rotate180(rows)))
    ensures var out := Split(Rotate270(rows));
      Square(out) && forall c :: SquareCount(out, c) == SquareCount(rows, c)
  {
    Rotate270Cells(rows);
    var out := Split(Rotate270(rows));
    assert out[0][0] == rows[0][1] && out[0][1] == rows[1][1];
    assert out[1][0] == rows[0][0] && out[1][1] == rows[1][0];
  }

  lemma MirrorHorizontalSquare(rows: seq<string>)
    requires IsTemplate(rows) && Square(rows)
    ensures var out := Split(MirrorHorizontal(rows));
      Square(out) && forall c :: SquareCount(out, c) == SquareCount(rows, c)
  {
    MirrorHorizontalCells(rows);
    var out := Split(MirrorHorizontal(rows));
    assert out[0][0] == rows[0][1] && out[0][1] == rows[0][0];
    assert out[1][0] == rows[1][1] && out[1][1] == rows[1][0];
  }

  lemma MirrorVerticalSquare(rows: seq<string>)
    requires IsTemplate(rows) && Square(rows)
    ensures var out := Split(MirrorVertical(rows));
      Square(out) && forall c :: SquareCount(out, c) == SquareCount(rows, c)
  {
    MirrorVerticalCells(rows);
    var out := Split(MirrorVertical(rows));
    assert out[0] == rows[1] && out[1] == rows[0];
  }

  /** A template of kind k (k in 1..3) is square with k - 1 empty cells, one
      chair and 4 - k table cells. */
  lemma KindCells(tableType: int, t: string)
    requires tableType in {1, 2, 3}
    requires t in GetTemplatesForTableType(tableType).value
    ensures Square(Split(t))
    ensures SquareCount(Split(t), EMPTY) == tableType - 1
    ensures SquareCount(Split(t), CHAIR) == 1
    ensures SquareCount(Split(t), TABLE) == 4 - tableType
  {
    var rows := BaseRows(tableType);
    assert GetTemplatesForTableType(tableType).value == Variants(rows);
    VariantSquare(rows, t);
  }

  /** The pattern GetTemplatesForTableType expands for a kind. */
  function BaseRows(tableType: int): (rows: seq<string>)
    requires tableType in {1, 2, 3}
    ensures IsFurniture(rows) && Square(rows)
    ensures SquareCount(rows, EMPTY) == tableType - 1
    ensures SquareCount(rows, CHAIR) == 1
    ensures SquareCount(rows, TABLE) == 4 - tableType
  {
    var rows := if tableType == 1 then ["SS", "Sh"] else if tableType == 2 then ["SS", ".h"] else ["Sh", ".."];
    assert rows[0][0] != EMPTY;
    rows
  }

  /** Each variant of a square pattern holds the pattern's four cells. */
  lemma VariantSquare(rows: seq<string>, t: string)
    requires IsFurniture(rows) && Square(rows) && t in Variants(rows)
    ensures Square(Split(t)) && forall c :: SquareCount(Split(t), c) == SquareCount(rows, c)
  {
    OrientationsAreFurniture(rows);
    SquareOrientation(rows, t);
  }

  /** No template belongs to two kinds. */
  lemma KindsDisjoint(tableType: int, other: int, t: string)
    requires tableType in {1, 2, 3} && other in {1, 2, 3} && tableType != other
    requires t in GetTemplatesForTableType(tableType).value
    ensures t !in GetTemplatesForTableType(other).value
  {
    KindCells(tableType, t);
    if t in GetTemplatesForTableType(other).value {
      KindCells(other, t);
    }
  }
}
