/**
  The fixed geometry of the diagonal Sudoku: 81 boxes named by a row letter
  and a column digit, the 29 units (9 rows, 9 columns, 9 squares and the two
  main diagonals), the units each box belongs to, and each box's peers.
  Everything here is a pure function of the two constant strings.
 */
module SudokuTopology {

  /** A box is named by its row letter followed by its column digit, e.g. "A1". */
  type Box = string

  const ROWS: string := "ABCDEFGHI"
  const COLS: string := "123456789"
  const ROW_BANDS: seq<string> := ["ABC", "DEF", "GHI"]
  const COL_STACKS: seq<string> := ["123", "456", "789"]

  /** No element occurs twice. */
  predicate Distinct<T(==)>(s: seq<T>) {
    forall i, j :: 0 <= i < j < |s| ==> s[i] != s[j]
  }

  /** The set of a sequence's elements. */
  function Elements<T>(s: seq<T>): set<T> {
    set x | x in s
  }

  /** The characters of the four literal tables, as character codes. */
  lemma LiteralChars()
    ensures |ROWS| == 9 && |COLS| == 9 && |ROW_BANDS| == 3 && |COL_STACKS| == 3
    ensures forall i :: 0 <= i < 9 ==> ROWS[i] as int == 'A' as int + i && COLS[i] as int == '1' as int + i
    ensures forall k, m :: 0 <= k < 3 && 0 <= m < 3 ==>
      |ROW_BANDS[k]| == 3 && ROW_BANDS[k][m] == ROWS[3 * k + m] &&
      |COL_STACKS[k]| == 3 && COL_STACKS[k][m] == COLS[3 * k + m]
  {
    forall i | 0 <= i < 9
      ensures ROWS[i] as int == 'A' as int + i && COLS[i] as int == '1' as int + i
    {
      assert i == 0 || i == 1 || i == 2 || i == 3 || i == 4 || i == 5 || i == 6 || i == 7 || i == 8;
    }
    forall k, m | 0 <= k < 3 && 0 <= m < 3
      ensures |ROW_BANDS[k]| == 3 && ROW_BANDS[k][m] == ROWS[3 * k + m]
      ensures |COL_STACKS[k]| == 3 && COL_STACKS[k][m] == COLS[3 * k + m]
    {
      assert k == 0 || k == 1 || k == 2;
      assert m == 0 || m == 1 || m == 2;
    }
  }

  lemma LiteralsDistinct()
    ensures Distinct(ROWS) && Distinct(COLS)
    ensures forall k :: 0 <= k < 3 ==> Distinct(ROW_BANDS[k]) && Distinct(COL_STACKS[k])
  {
    LiteralChars();
  }

  /** The boxes named by one row letter and every column character, in order. */
  function Pairs(c: char, b: string): (r: seq<Box>)
    ensures |r| == |b|
    ensures forall j :: 0 <= j < |b| ==> r[j] == [c, b[j]]
  {
    seq(|b|, j requires 0 <= j < |b| => [c, b[j]])
  }

  /**
    The cross product of two strings, each element the concatenation of one
    character of `a` and one of `b`, enumerated with `a` in the outer loop.
    Its properties are the lemmas below, kept out of its contract so that
    they are only in scope where a proof asks for them.
   */
  function Cross(a: string, b: string): seq<Box> {
    if a == [] then [] else Pairs(a[0], b) + Cross(a[1..], b)
  }

  lemma {:induction false} CrossLength(a: string, b: string)
    ensures |Cross(a, b)| == |a| * |b|
  {
    if a != [] {
      CrossLength(a[1..], b);
      assert |a| * |b| == (|a| - 1) * |b| + |b|;
    }
  }

  /** Cross enumerates row-major: the pair (a[i], b[j]) sits at index i * |b| + j. */
  lemma {:induction false} CrossAt(a: string, b: string, i: nat, j: nat)
    requires i < |a| && j < |b|
    ensures i * |b| + j < |Cross(a, b)| && Cross(a, b)[i * |b| + j] == [a[i], b[j]]
    decreases i
  {
    var head, tail := Pairs(a[0], b), Cross(a[1..], b);
    assert Cross(a, b) == head + tail;
    if i == 0 {
      assert (head + tail)[j] == head[j];
    } else {
      CrossAt(a[1..], b, i - 1, j);
      var k := (i - 1) * |b| + j;
      assert i * |b| + j == |b| + k;
      assert (head + tail)[|b| + k] == tail[k];
    }
  }

  /** The elements of Cross(a, b) are exactly the two-character strings drawn from a and b. */
  lemma {:induction false} CrossMembers(a: string, b: string)
    ensures forall x :: x in Cross(a, b) <==> |x| == 2 && x[0] in a && x[1] in b
  {
    if a != [] {
      CrossMembers(a[1..], b);
      var head := Pairs(a[0], b);
      assert Cross(a, b) == head + Cross(a[1..], b);
      forall x | |x| == 2 && x[0] == a[0] && x[1] in b
        ensures x in head
      {
        var j :| 0 <= j < |b| && b[j] == x[1];
        assert x == [a[0], b[j]] == head[j];
      }
      assert forall c :: c in a <==> c == a[0] || c in a[1..];
    }
  }

  /** Distinct row and column strings give distinct boxes. */
  lemma {:induction false} CrossDistinct(a: string, b: string)
    requires Distinct(a) && Distinct(b)
    ensures Distinct(Cross(a, b))
  {
    if a != [] {
      CrossDistinct(a[1..], b);
      CrossMembers(a[1..], b);
      var head, tail := Pairs(a[0], b), Cross(a[1..], b);
      assert a[0] !in a[1..];
      forall i, j | 0 <= i < j < |head + tail|
        ensures (head + tail)[i] != (head + tail)[j]
      {
        if j < |head| {
        } else if i < |head| {
          assert (head + tail)[j] in tail;
        } else {
          assert (head + tail)[i] == tail[i - |head|] && (head + tail)[j] == tail[j - |head|];
        }
      }
    }
  }

  /**
    The 81 boxes in row-major order, written as a comprehension over the
    index so that proofs see each box directly; BoxesAreCross shows that it
    is the cross of the row letters and the column digits.
   */
  function Boxes(): seq<Box> {
    seq(81, i requires 0 <= i < 81 => [ROWS[i / 9], COLS[i % 9]])
  }

  /*
    The topology tables are constants, so their properties are stated as
    lemmas rather than as postconditions: a postcondition of a function
    without parameters would be in scope of every proof in the program.
   */

  lemma BoxesAreCross()
    ensures Boxes() == Cross(ROWS, COLS)
  {
    CrossNine(ROWS, COLS);
  }

  /** Element i of the cross product of two nine-character strings pairs a[i / 9] with b[i % 9]. */
  lemma CrossNine(a: string, b: string)
    requires |a| == 9 && |b| == 9
    ensures |Cross(a, b)| == 81
    ensures forall i :: 0 <= i < 81 ==> Cross(a, b)[i] == [a[i / 9], b[i % 9]]
  {
    CrossLength(a, b);
    forall i | 0 <= i < 81 ensures Cross(a, b)[i] == [a[i / 9], b[i % 9]] {
      CrossAt(a, b, i / 9, i % 9);
    }
  }

  /** There are 81 boxes, all distinct. */
  lemma BoxesFacts()
    ensures |Boxes()| == 81 && Distinct(Boxes())
  {
    LiteralChars();
    forall i, j | 0 <= i < j < 81 ensures Boxes()[i] != Boxes()[j] {
      assert Boxes()[i][0] as int == 'A' as int + i / 9 && Boxes()[j][0] as int == 'A' as int + j / 9;
      assert Boxes()[i][1] as int == '1' as int + i % 9 && Boxes()[j][1] as int == '1' as int + j % 9;
    }
  }

  /** The box in row r, column c is box 9 * r + c of the enumeration. */
  lemma BoxAt(r: nat, c: nat)
    requires r < 9 && c < 9
    ensures Boxes()[9 * r + c] == [ROWS[r], COLS[c]]
  {
    var i := 9 * r + c;
    assert i / 9 == r && i % 9 == c;
  }

  /** The boxes are exactly the names made of a row letter and a column digit. */
  lemma BoxNames()
    ensures forall x :: x in Boxes() <==> |x| == 2 && x[0] in ROWS && x[1] in COLS
  {
    forall x | |x| == 2 && x[0] in ROWS && x[1] in COLS ensures x in Boxes() {
      var r :| 0 <= r < 9 && ROWS[r] == x[0];
      var c :| 0 <= c < 9 && COLS[c] == x[1];
      BoxAt(r, c);
      assert x == Boxes()[9 * r + c];
    }
  }

  /** Every unit has nine distinct boxes, all of them boxes of the grid. */
  predicate UnitShape(u: seq<Box>) {
    |u| == 9 && Distinct(u) && forall x :: x in u ==> x in Boxes()
  }

  /** A cross of a row string and a column string taken from the grid's own is a unit. */
  lemma CrossUnitShape(a: string, b: string)
    requires Distinct(a) && Distinct(b) && |a| * |b| == 9
    requires forall c :: c in a ==> c in ROWS
    requires forall c :: c in b ==> c in COLS
    ensures UnitShape(Cross(a, b))
  {
    BoxNames();
    CrossLength(a, b);
    CrossMembers(a, b);
    CrossDistinct(a, b);
  }

  function RowUnits(): seq<seq<Box>> {
    seq(9, k requires 0 <= k < 9 => Cross([ROWS[k]], COLS))
  }

  function ColUnits(): seq<seq<Box>> {
    seq(9, k requires 0 <= k < 9 => Cross(ROWS, [COLS[k]]))
  }

  function SquareUnits(): seq<seq<Box>> {
    seq(9, k requires 0 <= k < 9 => Cross(ROW_BANDS[k / 3], COL_STACKS[k % 3]))
  }

  function DiagUnits(): seq<seq<Box>> {
    [seq(9, i requires 0 <= i < 9 => [ROWS[i], COLS[i]]),
     seq(9, i requires 0 <= i < 9 => [ROWS[i], COLS[8 - i]])]
  }

  /** Rows, then columns, then squares, then the two diagonals. */
  function UnitList(): seq<seq<Box>> {
    RowUnits() + ColUnits() + SquareUnits() + DiagUnits()
  }

  lemma RowUnitsShape()
    ensures |RowUnits()| == 9 && forall k :: 0 <= k < 9 ==> UnitShape(RowUnits()[k])
  {
    LiteralsDistinct();
    forall k | 0 <= k < 9 ensures UnitShape(RowUnits()[k]) {
      CrossUnitShape([ROWS[k]], COLS);
    }
  }

  lemma ColUnitsShape()
    ensures |ColUnits()| == 9 && forall k :: 0 <= k < 9 ==> UnitShape(ColUnits()[k])
  {
    LiteralsDistinct();
    forall k | 0 <= k < 9 ensures UnitShape(ColUnits()[k]) {
      CrossUnitShape(ROWS, [COLS[k]]);
    }
  }

  lemma SquareUnitsShape()
    ensures |SquareUnits()| == 9 && forall k :: 0 <= k < 9 ==> UnitShape(SquareUnits()[k])
  {
    LiteralChars();
    LiteralsDistinct();
    forall k | 0 <= k < 9 ensures UnitShape(SquareUnits()[k]) {
      var band, stack := ROW_BANDS[k / 3], COL_STACKS[k % 3];
      forall c | c in band ensures c in ROWS {
        var m :| 0 <= m < 3 && band[m] == c;
        assert c == ROWS[3 * (k / 3) + m];
      }
      forall c | c in stack ensures c in COLS {
        var m :| 0 <= m < 3 && stack[m] == c;
        assert c == COLS[3 * (k % 3) + m];
      }
      CrossUnitShape(band, stack);
    }
  }

  /** The box on row i of a diagonal whose column is col(i) is a box of the grid. */
  lemma DiagShape(u: seq<Box>, down: bool)
    requires |u| == 9
    requires forall i :: 0 <= i < 9 ==> u[i] == [ROWS[i], COLS[if down then i else 8 - i]]
    ensures UnitShape(u)
  {
    LiteralChars();
    forall i, j | 0 <= i < j < 9 ensures u[i] != u[j] {
      assert u[i][0] != u[j][0];
    }
    forall x | x in u ensures x in Boxes() {
      var i :| 0 <= i < 9 && u[i] == x;
      var c := if down then i else 8 - i;
      BoxAt(i, c);
      assert x == Boxes()[9 * i + c];
    }
  }

  lemma DiagUnitsShape()
    ensures |DiagUnits()| == 2 && forall k :: 0 <= k < 2 ==> UnitShape(DiagUnits()[k])
  {
    DiagShape(DiagUnits()[0], true);
    DiagShape(DiagUnits()[1], false);
  }

  lemma UnitCount()
    ensures |UnitList()| == 29
  {
  }

  /** There are 29 units, each of nine distinct boxes of the grid. */
  lemma UnitListFacts()
    ensures |UnitList()| == 29
    ensures forall u :: u in UnitList() ==> UnitShape(u)
  {
    RowUnitsShape();
    ColUnitsShape();
    SquareUnitsShape();
    DiagUnitsShape();
    var r, c, q, d := RowUnits(), ColUnits(), SquareUnits(), DiagUnits();
    var us := r + c + q + d;
    assert UnitList() == us;
    forall k | 0 <= k < 29 ensures UnitShape(us[k]) {
      if k < 9 {
        assert us[k] == r[k];
      } else if k < 18 {
        assert us[k] == c[k - 9];
      } else if k < 27 {
        assert us[k] == q[k - 18];
      } else {
        assert us[k] == d[k - 27];
      }
    }
  }

  /**
    The elements of `xs` that satisfy `p`, in their order in `xs`; the
    shape of the list comprehensions with an `if` clause.
   */
  function Filter<T(!new)>(xs: seq<T>, p: T -> bool): (r: seq<T>)
    ensures forall x :: x in r <==> x in xs && p(x)
    ensures |r| <= |xs|
  {
    if xs == [] then []
    else
      var init, last := xs[..|xs| - 1], xs[|xs| - 1];
      assert xs == init + [last];
      Filter(init, p) + (if p(last) then [last] else [])
  }

  /** The head of a filtered sequence is the first element that passes the filter. */
  lemma {:induction false} FilterHeadAt<T(!new)>(xs: seq<T>, p: T -> bool)
    requires Filter(xs, p) != []
    ensures exists j :: 0 <= j < |xs| && xs[j] == Filter(xs, p)[0] && forall i :: 0 <= i < j ==> !p(xs[i])
  {
    var init, last := xs[..|xs| - 1], xs[|xs| - 1];
    if Filter(init, p) == [] {
      forall i | 0 <= i < |xs| - 1 ensures !p(xs[i]) {
        assert xs[i] == init[i];
      }
      assert xs[|xs| - 1] == Filter(xs, p)[0];
    } else {
      FilterHeadAt(init, p);
      var j :| 0 <= j < |init| && init[j] == Filter(init, p)[0] && forall i :: 0 <= i < j ==> !p(init[i]);
      assert xs[j] == Filter(xs, p)[0];
      forall i | 0 <= i < j ensures !p(xs[i]) {
        assert xs[i] == init[i];
      }
    }
  }

  /** In a sequence without repetitions, nothing before the head of a filter passes it. */
  lemma FilterHead<T(!new)>(xs: seq<T>, p: T -> bool)
    requires Distinct(xs) && Filter(xs, p) != []
    ensures forall i, j :: 0 <= i < j < |xs| && xs[j] == Filter(xs, p)[0] ==> !p(xs[i])
  {
    FilterHeadAt(xs, p);
  }

  /** The units that contain `s`, in unit-list order. */
  function Units(s: Box): (r: seq<seq<Box>>)
    ensures forall u :: u in r <==> u in UnitList() && s in u
  {
    Filter(UnitList(), u => s in u)
  }

  /** Every box that shares a unit with `s`, other than `s` itself. */
  function Peers(s: Box): (ps: set<Box>)
    ensures s !in ps
    ensures forall p :: p in ps <==> p != s && exists u :: u in UnitList() && s in u && p in u
  {
    (set u, p | u in Units(s) && p in u :: p) - {s}
  }
}
