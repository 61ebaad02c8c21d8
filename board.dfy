/**
  The board: a map from each of the 81 boxes to its set of candidate digits,
  the parser from the 81-character grid string, and the vocabulary the
  solver's contracts are written in (shrinking, solved boxes, contradictions,
  and what it means for a complete assignment to be a solution).
 */
module SudokuBoard {
  import opened SudokuTopology

  type Digit = d: int | 1 <= d <= 9 witness 1

  /** The digits a box may still take; the source keeps them as a string such as "359". */
  type Cands = set<Digit>

  type Board = map<Box, Cands>

  /** A complete filling of the grid, one digit per box. */
  type Assignment = map<Box, Digit>

  const ALL_DIGITS: Cands := {1, 2, 3, 4, 5, 6, 7, 8, 9}

  /** The box names as a set: every row letter with every column digit. */
  function BoxSet(): set<Box> {
    set r, c | r in ROWS && c in COLS :: [r, c]
  }

  /** The board has exactly the 81 boxes as keys. */
  predicate WellFormed(b: Board) {
    b.Keys == BoxSet()
  }

  /** A name is in the set of box names exactly when it is one of the enumerated boxes. */
  lemma BoxSetMembers()
    ensures forall x :: x in BoxSet() <==> x in Boxes()
  {
    BoxSetNames();
    BoxNames();
  }

  /** The set of box names holds the two-character names of a row letter and a column digit. */
  lemma BoxSetNames()
    ensures forall x :: x in BoxSet() <==> |x| == 2 && x[0] in ROWS && x[1] in COLS
  {
    forall x | x in BoxSet() ensures |x| == 2 && x[0] in ROWS && x[1] in COLS {
      var r, c :| r in ROWS && c in COLS && x == [r, c];
    }
    forall x | |x| == 2 && x[0] in ROWS && x[1] in COLS ensures x in BoxSet() {
      assert x == [x[0], x[1]];
    }
  }

  /** The set of box names is the set of the 81 enumerated boxes. */
  lemma BoxSetSize()
    ensures BoxSet() == Elements(Boxes())
    ensures |BoxSet()| == 81
    ensures forall i :: 0 <= i < 81 ==> Boxes()[i] in BoxSet()
  {
    BoxSetMembers();
    BoxesFacts();
    DistinctCard(Boxes());
  }

  /** A sequence without repetitions has as many elements as its set. */
  lemma {:induction false} DistinctCard<T>(s: seq<T>)
    requires Distinct(s)
    ensures |Elements(s)| == |s|
  {
    if s != [] {
      var rest := s[1..];
      assert Distinct(rest) by {
        forall i, j | 0 <= i < j < |rest| ensures rest[i] != rest[j] {
          assert rest[i] == s[i + 1] && rest[j] == s[j + 1];
        }
      }
      DistinctCard(rest);
      assert s[0] !in rest by {
        forall i | 0 <= i < |rest| ensures rest[i] != s[0] {
          assert rest[i] == s[i + 1];
        }
      }
      assert Elements(s) == Elements(rest) + {s[0]};
    }
  }

  // ----- The grid string -----

  /** A character of the grid encoding: '.' for an unknown box or a digit '1'..'9'. */
  predicate IsGridChar(c: char) {
    c == '.' || '1' <= c <= '9'
  }

  /** The candidates a grid character stands for: every digit for '.', else that digit. */
  function CharCands(c: char): (r: Cands)
    requires IsGridChar(c)
    ensures c == '.' ==> r == ALL_DIGITS
    ensures c != '.' ==> |r| == 1 && (c as int - '0' as int) in r
  {
    if c == '.' then ALL_DIGITS else {c as int - '0' as int}
  }

  predicate IsGrid(grid: string) {
    |grid| == 81 && forall i :: 0 <= i < 81 ==> IsGridChar(grid[i])
  }

  /**
    grid_values: box i of the row-major enumeration takes the candidates of
    character i of the grid.
   */
  function GridValues(grid: string): (b: Board)
    requires IsGrid(grid)
    ensures WellFormed(b)
    ensures forall i :: 0 <= i < 81 ==> Boxes()[i] in b && b[Boxes()[i]] == CharCands(grid[i])
  {
    BoxesFacts();
    BoxSetSize();
    var b := map i | 0 <= i < 81 :: Boxes()[i] := CharCands(grid[i]);
    assert forall x :: x in b <==> x in Boxes();
    b
  }

  lemma AllDigitsCard()
    ensures |ALL_DIGITS| == 9
    ensures forall d: Digit :: d in ALL_DIGITS
  {
    forall d: Digit ensures d in ALL_DIGITS {
      assert d == 1 || d == 2 || d == 3 || d == 4 || d == 5 || d == 6 || d == 7 || d == 8 || d == 9;
    }
  }

  /** Different grid characters stand for different candidate sets. */
  lemma CharCandsInjective(c: char, e: char)
    requires IsGridChar(c) && IsGridChar(e) && CharCands(c) == CharCands(e)
    ensures c == e
  {
    AllDigitsCard();
    if c != '.' && e != '.' {
      assert (c as int - '0' as int) in CharCands(e);
    }
  }

  /** The parse loses nothing: two grids with the same board are the same grid. */
  lemma GridValuesInjective(g: string, h: string)
    requires IsGrid(g) && IsGrid(h)
    requires GridValues(g) == GridValues(h)
    ensures g == h
  {
    forall i | 0 <= i < 81 ensures g[i] == h[i] {
      var x := Boxes()[i];
      assert GridValues(g)[x] == CharCands(g[i]) && GridValues(h)[x] == CharCands(h[i]);
      CharCandsInjective(g[i], h[i]);
    }
  }

  /** The assignment agrees with every clue of the grid. */
  predicate Respects(grid: string, s: Assignment)
    requires IsGrid(grid)
  {
    forall i :: 0 <= i < 81 && grid[i] != '.' ==> Boxes()[i] in s && s[Boxes()[i]] == grid[i] as int - '0' as int
  }

  /** The parsed board allows exactly the complete assignments that keep the clues. */
  lemma GridAdmits(grid: string, s: Assignment)
    requires IsGrid(grid) && s.Keys == BoxSet()
    ensures Admits(GridValues(grid), s) <==> Respects(grid, s)
  {
    if Admits(GridValues(grid), s) {
      AdmittedRespects(grid, s);
    }
    if Respects(grid, s) {
      RespectedAdmitted(grid, s);
    }
  }

  lemma AdmittedRespects(grid: string, s: Assignment)
    requires IsGrid(grid) && s.Keys == BoxSet() && Admits(GridValues(grid), s)
    ensures Respects(grid, s)
  {
    BoxSetSize();
    forall i | 0 <= i < 81 && grid[i] != '.' ensures Boxes()[i] in s && s[Boxes()[i]] == grid[i] as int - '0' as int {
      GridBoxAdmits(grid, i, s[Boxes()[i]]);
    }
  }

  lemma RespectedAdmitted(grid: string, s: Assignment)
    requires IsGrid(grid) && s.Keys == BoxSet() && Respects(grid, s)
    ensures Admits(GridValues(grid), s)
  {
    BoxSetSize();
    var b := GridValues(grid);
    forall k | k in s ensures k in b && s[k] in b[k] {
      var i :| 0 <= i < 81 && Boxes()[i] == k;
      GridBoxAdmits(grid, i, s[k]);
    }
  }

  /** Box i of the parsed board allows a digit exactly when character i is '.' or that digit. */
  lemma GridBoxAdmits(grid: string, i: nat, d: Digit)
    requires IsGrid(grid) && i < 81
    ensures Boxes()[i] in GridValues(grid)
    ensures d in GridValues(grid)[Boxes()[i]] <==> grid[i] == '.' || d == grid[i] as int - '0' as int
  {
    assert GridValues(grid)[Boxes()[i]] == CharCands(grid[i]);
    CharCandsHas(grid[i], d);
  }

  /** A grid character allows a digit exactly when it is '.' or that digit. */
  lemma CharCandsHas(ch: char, d: Digit)
    requires IsGridChar(ch)
    ensures d in CharCands(ch) <==> ch == '.' || d == ch as int - '0' as int
  {
    var c := CharCands(ch);
    if ch == '.' {
      assert d in ALL_DIGITS;
    } else if d in c {
      SingletonOf(c, d);
      SingletonOf(c, ch as int - '0' as int);
    }
  }

  // ----- Vocabulary of the solver's contracts -----

  /** Same keys, and no candidate set grew. */
  predicate Shrinks(before: Board, after: Board) {
    after.Keys == before.Keys && forall k :: k in before ==> after[k] <= before[k]
  }

  lemma ShrinksTrans(a: Board, b: Board, c: Board)
    requires Shrinks(a, b) && Shrinks(b, c)
    ensures Shrinks(a, c)
  {
  }

  /** Some box has no candidate left: the board is a contradiction. */
  predicate HasEmpty(b: Board) {
    exists k :: k in b && b[k] == {}
  }

  /** The boxes holding exactly one candidate. */
  function Solved(b: Board): set<Box> {
    set k | k in b && |b[k]| == 1
  }

  function SolvedCount(b: Board): nat {
    |Solved(b)|
  }

  predicate AllSolved(b: Board) {
    forall k :: k in b ==> |b[k]| == 1
  }

  /** Every solved box's digit is absent from every peer. */
  predicate PeersExclude(b: Board) {
    forall k, p :: k in b && p in b && |b[k]| == 1 && p in Peers(k) ==> b[k] !! b[p]
  }

  /** The bound that makes the reduction loop terminate. */
  lemma SolvedCountBound(b: Board)
    requires WellFormed(b)
    ensures SolvedCount(b) <= 81
  {
    BoxSetSize();
    assert Solved(b) <= BoxSet();
    SubsetCard(Solved(b), BoxSet());
  }

  lemma SubsetCard<T>(a: set<T>, b: set<T>)
    requires a <= b
    ensures |a| <= |b|
    ensures |a| == |b| ==> a == b
  {
    assert b == a + (b - a);
    assert |b| == |a| + |b - a|;
  }

  /** A set of one element is that element's singleton. */
  lemma SingletonOf(c: Cands, d: Digit)
    requires |c| == 1 && d in c
    ensures c == {d}
  {
    forall e | e in c ensures e == d {
      if e != d {
        assert {d, e} <= c;
        assert |{d, e}| == 2;
        SubsetCard({d, e}, c);
      }
    }
  }

  /**
    While no box becomes empty, solved boxes stay solved: the solved count
    cannot drop, and if it did not rise the solved boxes are the same ones.
   */
  lemma SolvedGrows(before: Board, after: Board)
    requires Shrinks(before, after) && !HasEmpty(after)
    ensures Solved(before) <= Solved(after)
    ensures SolvedCount(before) <= SolvedCount(after)
    ensures SolvedCount(before) == SolvedCount(after) ==> Solved(before) == Solved(after)
  {
    forall k | k in Solved(before) ensures k in Solved(after) {
      assert after[k] != {} && after[k] <= before[k];
      var d :| d in after[k];
      SingletonOf(before[k], d);
      assert after[k] == {d};
    }
    SubsetCard(Solved(before), Solved(after));
  }

  /** The sum of the candidate counts of the listed keys. */
  function CandidateTotal(b: Board, ks: seq<Box>): nat
    requires forall k :: k in ks ==> k in b
  {
    if ks == [] then 0 else |b[ks[0]]| + CandidateTotal(b, ks[1..])
  }

  /** The recursion measure of the search: all candidates on the board. */
  function Total(b: Board): nat
    requires WellFormed(b)
  {
    BoxSetMembers();
    CandidateTotal(b, Boxes())
  }

  lemma {:induction false} CandidateTotalShrinks(before: Board, after: Board, ks: seq<Box>)
    requires Shrinks(before, after) && forall k :: k in ks ==> k in before
    ensures CandidateTotal(after, ks) <= CandidateTotal(before, ks)
  {
    if ks != [] {
      CandidateTotalShrinks(before, after, ks[1..]);
      assert |after[ks[0]]| <= |before[ks[0]]| by {
        SubsetCard(after[ks[0]], before[ks[0]]);
      }
    }
  }

  lemma {:induction false} CandidateTotalUpdate(b: Board, ks: seq<Box>, x: Box, c: Cands)
    requires Distinct(ks) && x in ks && forall k :: k in ks ==> k in b
    ensures CandidateTotal(b[x := c], ks) + |b[x]| == CandidateTotal(b, ks) + |c|
  {
    if ks[0] == x {
      assert x !in ks[1..] by {
        forall i | 1 <= i < |ks| ensures ks[i] != x { }
      }
      CandidateTotalSame(b, b[x := c], ks[1..]);
    } else {
      assert Distinct(ks[1..]) by {
        forall i, j | 0 <= i < j < |ks| - 1 ensures ks[1..][i] != ks[1..][j] {
          assert ks[1..][i] == ks[i + 1] && ks[1..][j] == ks[j + 1];
        }
      }
      CandidateTotalUpdate(b, ks[1..], x, c);
    }
  }

  lemma {:induction false} CandidateTotalSame(b: Board, b': Board, ks: seq<Box>)
    requires forall k :: k in ks ==> k in b && k in b' && b[k] == b'[k]
    ensures CandidateTotal(b, ks) == CandidateTotal(b', ks)
  {
    if ks != [] {
      CandidateTotalSame(b, b', ks[1..]);
    }
  }

  /** Shrinking never increases the total. */
  lemma TotalShrinks(before: Board, after: Board)
    requires WellFormed(before) && Shrinks(before, after)
    ensures WellFormed(after) && Total(after) <= Total(before)
  {
    BoxSetMembers();
    CandidateTotalShrinks(before, after, Boxes());
  }

  /** Fixing a box of several candidates to one digit keeps the board well formed and lowers the total. */
  lemma TotalDecreases(b: Board, x: Box, d: Digit)
    requires WellFormed(b) && x in b && |b[x]| >= 2
    ensures WellFormed(b[x := {d}]) && Total(b[x := {d}]) < Total(b)
  {
    BoxesFacts();
    BoxSetMembers();
    CandidateTotalUpdate(b, Boxes(), x, {d});
  }

  // ----- Solutions -----

  /**
    A complete assignment is a solution when no two boxes of a unit share a
    digit; with nine boxes per unit that puts every digit 1..9 in every
    unit (SolutionSolvesUnits).
   */
  predicate IsSolution(s: Assignment) {
    && s.Keys == BoxSet()
    && forall u :: u in UnitList() ==> UnitDistinct(s, u)
  }

  /** No two places of the unit carry the same digit. */
  predicate UnitDistinct(s: Assignment, u: seq<Box>) {
    forall i, j :: 0 <= i < j < |u| && u[i] in s && u[j] in s ==> s[u[i]] != s[u[j]]
  }

  /**
    What a solution does in one unit: it assigns every box, no two boxes
    share a digit, and every digit 1..9 occurs.
   */
  ghost predicate SolvesUnit(s: Assignment, u: seq<Box>) {
    && (forall x :: x in u ==> x in s)
    && UnitDistinct(s, u)
    && forall d: Digit :: Covers(s, u, d)
  }

  /** Two boxes of one unit carry different digits. */
  lemma SolutionDiffers(s: Assignment, u: seq<Box>, x: Box, y: Box)
    requires SolvesUnit(s, u) && x in u && y in u && x != y
    ensures x in s && y in s && s[x] != s[y]
  {
    var i :| 0 <= i < |u| && u[i] == x;
    var j :| 0 <= j < |u| && u[j] == y;
  }

  /** Digit d appears somewhere in unit u. */
  predicate Covers(s: Assignment, u: seq<Box>, d: Digit) {
    exists x :: x in u && x in s && s[x] == d
  }

  /** The board still allows the assignment: every box's digit is among its candidates. */
  predicate Admits(b: Board, s: Assignment) {
    forall k :: k in s ==> k in b && s[k] in b[k]
  }

  /** What search returns on success: a filled board whose digits are a solution the board b admits. */
  ghost predicate Found(b: Board, r: Board) {
    WellFormed(r) && AllSolved(r) && IsSolution(Value(r)) && Admits(b, Value(r))
  }

  /** What search's failure means: the board admits no solution. */
  ghost predicate NoSolution(b: Board) {
    forall s :: IsSolution(s) ==> !Admits(b, s)
  }

  /** A result found on a narrower board is a result for the wider one. */
  lemma FoundWider(small: Board, big: Board, r: Board)
    requires Shrinks(big, small) && Found(small, r)
    ensures Found(big, r)
  {
    AdmitsWider(small, big, Value(r));
  }

  /** A solution found once a box is fixed to one of its digits is a solution of the board before. */
  lemma FixedFound(b: Board, x: Box, d: Digit, r: Board)
    requires x in b && d in b[x] && Found(b[x := {d}], r)
    ensures Found(b, r)
  {
    FoundWider(b[x := {d}], b, r);
  }

  lemma AdmitsWider(small: Board, big: Board, s: Assignment)
    requires Shrinks(big, small) && Admits(small, s)
    ensures Admits(big, s)
  {
  }

  /** Fixing a box to the digit an admitted assignment gives it keeps the assignment admitted. */
  lemma AdmitsFix(b: Board, s: Assignment, x: Box, d: Digit)
    requires Admits(b, s) && x in s && s[x] == d
    ensures Admits(b[x := {d}], s)
  {
  }

  /**
    If no solution survives fixing box x to d, then every solution the
    board admits gives x a digit other than d.
   */
  lemma FixedBranchFails(b: Board, x: Box, d: Digit)
    requires NoSolution(b[x := {d}])
    ensures forall s :: IsSolution(s) && Admits(b, s) && x in s ==> s[x] != d
  {
    forall s | IsSolution(s) && Admits(b, s) && x in s ensures s[x] != d {
      if s[x] == d {
        AdmitsFix(b, s, x, d);
      }
    }
  }

  /** Every solution the board admits gives box x a digit outside tried. */
  ghost predicate Excluded(b: Board, x: Box, tried: seq<Digit>) {
    forall s :: IsSolution(s) && Admits(b, s) && x in s ==> s[x] !in tried
  }

  /** The next alternative, whose branch admits no solution, joins the excluded ones. */
  lemma ExcludeOneMore(b: Board, x: Box, alts: seq<Digit>, i: nat)
    requires i < |alts| && Excluded(b, x, alts[..i])
    requires NoSolution(b[x := {alts[i]}])
    ensures Excluded(b, x, alts[..i + 1])
  {
    FixedBranchFails(b, x, alts[i]);
    assert alts[..i + 1] == alts[..i] + [alts[i]];
  }

  /** The first n alternatives for box x each leave a copy of the board that admits no solution. */
  ghost predicate AllFailed(b: Board, x: Box, alts: seq<Digit>, n: nat) {
    n <= |alts| && forall k :: 0 <= k < n ==> NoSolution(b[x := {alts[k]}])
  }

  lemma FailedOneMore(b: Board, x: Box, alts: seq<Digit>, n: nat)
    requires AllFailed(b, x, alts, n) && n < |alts| && NoSolution(b[x := {alts[n]}])
    ensures AllFailed(b, x, alts, n + 1)
  {
  }

  /** Alternatives whose copies all failed are digits no admitted solution puts at x. */
  lemma {:induction false} FailedExcluded(b: Board, x: Box, alts: seq<Digit>, n: nat)
    requires AllFailed(b, x, alts, n)
    ensures Excluded(b, x, alts[..n])
  {
    if n == 0 {
      assert alts[..0] == [];
    } else {
      FailedExcluded(b, x, alts, n - 1);
      ExcludeOneMore(b, x, alts, n - 1);
    }
  }

  /**
    If every solution the board admits avoids every candidate of box x, the
    board admits no solution.
   */
  lemma AllBranchesFail(b: Board, x: Box, tried: seq<Digit>)
    requires x in BoxSet() && x in b && forall d :: d in b[x] ==> d in tried
    requires Excluded(b, x, tried)
    ensures NoSolution(b)
  {
  }

  /** A board with an empty box admits no solution. */
  lemma EmptyAdmitsNothing(b: Board, s: Assignment)
    requires WellFormed(b) && HasEmpty(b) && s.Keys == BoxSet()
    ensures !Admits(b, s)
  {
  }

  /** The single candidate of a solved box. */
  ghost function Single(c: Cands): (d: Digit)
    requires |c| == 1
    ensures c == {d}
  {
    var d :| d in c;
    SingletonOf(c, d);
    d
  }

  /** The assignment a fully solved board spells out. */
  ghost function Value(b: Board): (s: Assignment)
    requires AllSolved(b)
    ensures s.Keys == b.Keys && Admits(b, s)
  {
    map k | k in b :: Single(b[k])
  }

  /**
    A board whose boxes are all solved and whose solved boxes exclude their
    digit from every peer spells out a solution.
   */
  lemma SettledBoardIsSolution(b: Board)
    requires WellFormed(b) && AllSolved(b) && PeersExclude(b)
    ensures IsSolution(Value(b))
  {
    var s := Value(b);
    forall u | u in UnitList() ensures UnitDistinct(s, u) {
      UnitListFacts();
      forall i, j | 0 <= i < j < |u| && u[i] in s && u[j] in s ensures s[u[i]] != s[u[j]] {
        assert u[j] in Peers(u[i]);
      }
    }
  }

  /** The digits a unit's boxes carry. */
  function UnitDigits(s: Assignment, u: seq<Box>): set<Digit>
    requires forall x :: x in u ==> x in s
  {
    set x | x in u :: s[x]
  }

  /**
    A solution solves every unit; in particular every unit holds every
    digit, since nine different digits in nine boxes are all nine.
   */
  lemma SolutionSolvesUnits(s: Assignment)
    requires IsSolution(s)
    ensures forall u :: u in UnitList() ==> SolvesUnit(s, u)
  {
    forall u | u in UnitList() ensures SolvesUnit(s, u) {
      UnitListFacts();
      forall d: Digit ensures Covers(s, u, d) {
        UnitCovers(s, u, d);
      }
    }
  }

  /** The unit at position n of the unit list has no repeated box, and a solution solves it. */
  lemma SolvedUnitAt(s: Assignment, n: nat)
    requires IsSolution(s) && n < |UnitList()|
    ensures Distinct(UnitList()[n]) && SolvesUnit(s, UnitList()[n])
  {
    UnitListFacts();
    SolutionSolvesUnits(s);
    assert UnitList()[n] in UnitList();
  }

  lemma UnitCovers(s: Assignment, u: seq<Box>, d: Digit)
    requires IsSolution(s) && u in UnitList() && UnitShape(u)
    ensures Covers(s, u, d)
  {
    assert forall x :: x in u ==> x in s;
    assert UnitDistinct(s, u);
    DigitsOfUnit(s, u);
    AllDigitsCard();
    assert UnitDigits(s, u) <= ALL_DIGITS;
    SubsetCard(UnitDigits(s, u), ALL_DIGITS);
    assert d in UnitDigits(s, u);
    var x :| x in u && s[x] == d;
  }

  /** Nine boxes with pairwise different digits carry nine different digits. */
  lemma DigitsOfUnit(s: Assignment, u: seq<Box>)
    requires |u| == 9 && forall x :: x in u ==> x in s
    requires UnitDistinct(s, u)
    ensures |UnitDigits(s, u)| == 9
  {
    var ds := seq(9, i requires 0 <= i < 9 => s[u[i]]);
    forall i, j | 0 <= i < j < 9 ensures ds[i] != ds[j] {
      assert u[i] in u && u[j] in u;
    }
    DistinctCard(ds);
    forall v | v in UnitDigits(s, u) ensures v in ds {
      var x :| x in u && s[x] == v;
      var i :| 0 <= i < 9 && u[i] == x;
      assert ds[i] == v;
    }
    forall v | v in ds ensures v in UnitDigits(s, u) {
      var i :| 0 <= i < 9 && ds[i] == v;
      assert u[i] in u;
    }
    assert UnitDigits(s, u) == Elements(ds);
  }
}
