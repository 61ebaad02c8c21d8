/**
  The solver as the source runs it: a dictionary of boxes that the passes
  change in place through a single update operation, a log of the boards
  that update produces, the fixed-point loop of reduce_puzzle and the
  depth-first search over copies of the board.

  Each pass is proved equal to its fold in SudokuRules, so everything
  proved about the folds (only removing candidates, keeping every solution)
  holds of the methods; reduce_puzzle and search state those properties in
  their own contracts.
 */
module SudokuSolver {
  import opened SudokuTopology
  import opened SudokuBoard
  import SudokuRules

  datatype Option<T> = None | Some(value: T)

  /** The `values` dictionary: box name to candidate digits, changed in place. */
  class Grid {
    var cells: Board

    constructor (b: Board)
      ensures cells == b
    {
      cells := b;
    }
  }

  /** The log only grows: what it held before is still how it begins. */
  ghost predicate Extends(before: seq<Board>, after: seq<Board>) {
    |before| <= |after| && after[..|before|] == before
  }

  lemma ExtendsTrans(a: seq<Board>, b: seq<Board>, c: seq<Board>)
    requires Extends(a, b) && Extends(b, c)
    ensures Extends(a, c)
  {
    assert c[..|a|] == c[..|b|][..|a|];
  }

  /** The module-level `assignments` list: a copy of the board after each update that leaves a box with one candidate. */
  class Trace {
    var log: seq<Board>

    constructor ()
      ensures log == []
    {
      log := [];
    }
  }

  /**
    assign_value: set one box. Setting a box to what it already holds
    changes nothing and records nothing; otherwise only that box changes, and
    the new board is recorded exactly when the box is left with one digit.
   */
  method AssignValue(values: Grid, box: Box, value: Cands, trace: Trace)
    requires box in values.cells
    modifies values, trace
    ensures values.cells == old(values.cells)[box := value]
    ensures old(values.cells)[box] == value ==> values.cells == old(values.cells) && trace.log == old(trace.log)
    ensures old(values.cells)[box] != value ==>
      trace.log == old(trace.log) + if |value| == 1 then [values.cells] else []
    ensures Extends(old(trace.log), trace.log)
  {
    if values.cells[box] == value {
      return;
    }
    values.cells := values.cells[box := value];
    if |value| == 1 {
      trace.log := trace.log + [values.cells];
      assert trace.log[..|old(trace.log)|] == old(trace.log);
    }
  }

  /** eliminate: every box holding one digit, in row-major order, takes that digit from its peers. */
  method Eliminate(values: Grid, trace: Trace)
    requires WellFormed(values.cells)
    modifies values, trace
    ensures values.cells == SudokuRules.Eliminate(old(values.cells))
    ensures Extends(old(trace.log), trace.log)
  {
    ghost var start := values.cells;
    var n := 0;
    while n < 81
      invariant n <= 81
      invariant values.cells == SudokuRules.EliminateUpTo(start, n)
      invariant Extends(old(trace.log), trace.log)
    {
      SudokuRules.EliminateShrinks(start, 0, n);
      ghost var log := trace.log;
      EliminateBox(values, Boxes()[n], trace);
      ExtendsTrans(old(trace.log), log, trace.log);
      n := n + 1;
    }
  }

  /** One iteration of eliminate's loop over the boxes. */
  method EliminateBox(values: Grid, k: Box, trace: Trace)
    requires WellFormed(values.cells)
    modifies values, trace
    ensures values.cells == SudokuRules.EliminateBox(old(values.cells), k)
    ensures Extends(old(trace.log), trace.log)
  {
    if k in values.cells && |values.cells[k]| == 1 {
      SudokuRules.PeersInBoard(values.cells, k);
      RemoveDigit(values, Peers(k), values.cells[k], trace);
    }
  }

  /** The loop over the peers in eliminate; they come in the unspecified order of a set. */
  method RemoveDigit(values: Grid, peers: set<Box>, d: Cands, trace: Trace)
    requires forall p :: p in peers ==> p in values.cells
    modifies values, trace
    ensures values.cells == SudokuRules.RemoveFrom(old(values.cells), peers, d)
    ensures Extends(old(trace.log), trace.log)
  {
    ghost var before := values.cells;
    var rest := peers;
    while rest != {}
      invariant rest <= peers
      invariant values.cells == SudokuRules.RemoveFrom(before, peers - rest, d)
      invariant Extends(old(trace.log), trace.log)
      decreases |rest|
    {
      var p :| p in rest;
      ghost var log := trace.log;
      AssignValue(values, p, values.cells[p] - d, trace);
      ExtendsTrans(old(trace.log), log, trace.log);
      SudokuRules.RemoveFromStep(before, peers - rest, p, d);
      assert peers - (rest - {p}) == (peers - rest) + {p};
      rest := rest - {p};
    }
    assert peers - rest == peers;
  }

  /** only_choice: in each unit, a digit that only one box allows is put in that box. */
  method OnlyChoice(values: Grid, trace: Trace)
    requires WellFormed(values.cells)
    modifies values, trace
    ensures values.cells == SudokuRules.OnlyChoice(old(values.cells))
    ensures Extends(old(trace.log), trace.log)
  {
    ghost var start := values.cells;
    UnitCount();
    var n := 0;
    while n < |UnitList()|
      invariant n <= |UnitList()|
      invariant values.cells == SudokuRules.OnlyChoiceUpTo(start, n)
      invariant WellFormed(values.cells)
      invariant Extends(old(trace.log), trace.log)
    {
      ghost var log := trace.log;
      SudokuRules.UnitInBoard(values.cells, n);
      OnlyChoiceUnit(values, UnitList()[n], trace);
      ExtendsTrans(old(trace.log), log, trace.log);
      SudokuRules.OnlyChoiceUpToStep(start, n);
      n := n + 1;
    }
  }

  /** The digits loop of only_choice for one unit. */
  method OnlyChoiceUnit(values: Grid, unit: seq<Box>, trace: Trace)
    requires forall x :: x in unit ==> x in values.cells
    modifies values, trace
    ensures values.cells == SudokuRules.OnlyChoiceDigits(old(values.cells), unit, 9)
    ensures values.cells.Keys == old(values.cells).Keys
    ensures Extends(old(trace.log), trace.log)
  {
    ghost var start := values.cells;
    var v: int := 1;
    while v <= 9
      invariant 1 <= v <= 10
      invariant values.cells == SudokuRules.OnlyChoiceDigits(start, unit, v - 1)
      invariant values.cells.Keys == start.Keys
      invariant Extends(old(trace.log), trace.log)
    {
      ghost var log := trace.log;
      OnlyChoiceDigit(values, unit, v, trace);
      ExtendsTrans(old(trace.log), log, trace.log);
      v := v + 1;
    }
  }

  /** One digit of only_choice in one unit: the box that alone allows it takes it. */
  method OnlyChoiceDigit(values: Grid, unit: seq<Box>, v: Digit, trace: Trace)
    requires forall x :: x in unit ==> x in values.cells
    modifies values, trace
    ensures values.cells == SudokuRules.OnlyChoiceDigit(old(values.cells), unit, v)
    ensures values.cells.Keys == old(values.cells).Keys
    ensures Extends(old(trace.log), trace.log)
  {
    var count, k := CountHolders(values.cells, unit, v);
    if count == 1 {
      SudokuRules.HoldersMembers(values.cells, unit, v);
      AssignValue(values, k, {v}, trace);
    }
  }

  /** Count the boxes of the unit that allow v, remembering the last one seen. */
  method CountHolders(cells: Board, unit: seq<Box>, v: Digit) returns (count: nat, k: Box)
    ensures count == |SudokuRules.Holders(cells, unit, v)|
    ensures count > 0 ==> k == SudokuRules.Holders(cells, unit, v)[count - 1]
  {
    count, k := 0, "";
    var j := 0;
    while j < |unit|
      invariant j <= |unit|
      invariant count == |SudokuRules.Holders(cells, unit[..j], v)|
      invariant count > 0 ==> k == SudokuRules.Holders(cells, unit[..j], v)[count - 1]
    {
      SudokuRules.HoldersStep(cells, unit, j, v);
      if unit[j] in cells && v in cells[unit[j]] {
        count, k := count + 1, unit[j];
      }
      j := j + 1;
    }
    assert unit[..|unit|] == unit;
  }

  /**
    naked_twins: in each unit, two boxes with the same two candidates take
    both digits out of the unit's other boxes.
   */
  method NakedTwins(values: Grid, trace: Trace)
    requires WellFormed(values.cells)
    modifies values, trace
    ensures values.cells == SudokuRules.NakedTwins(old(values.cells))
    ensures Extends(old(trace.log), trace.log)
  {
    TwinsPass(SudokuRules.Naked, values, trace);
  }

  /**
    hidden_twins: in each unit, when two digits can go only into the same
    two boxes, those boxes keep just these two digits.
   */
  method HiddenTwins(values: Grid, trace: Trace)
    requires WellFormed(values.cells)
    modifies values, trace
    ensures values.cells == SudokuRules.HiddenTwins(old(values.cells))
    ensures Extends(old(trace.log), trace.log)
  {
    TwinsPass(SudokuRules.Hidden, values, trace);
  }

  /** The loop over the units that naked_twins and hidden_twins share. */
  method TwinsPass(rule: SudokuRules.Strategy, values: Grid, trace: Trace)
    requires WellFormed(values.cells)
    modifies values, trace
    ensures values.cells == SudokuRules.TwinsUpTo(rule, old(values.cells), |UnitList()|)
    ensures Extends(old(trace.log), trace.log)
  {
    ghost var start := values.cells;
    UnitCount();
    var n := 0;
    while n < |UnitList()|
      invariant n <= |UnitList()|
      invariant values.cells == SudokuRules.TwinsUpTo(rule, start, n)
      invariant WellFormed(values.cells)
      invariant Extends(old(trace.log), trace.log)
    {
      SudokuRules.UnitInBoard(values.cells, n);
      ghost var log := trace.log;
      TwinsUnit(rule, values, UnitList()[n], trace);
      ExtendsTrans(old(trace.log), log, trace.log);
      n := n + 1;
    }
  }

  /**
    One unit of naked_twins or hidden_twins: the twin list is taken on entry,
    then every pair (twins[i], twins[j]) with i < j is visited in order.
   */
  method TwinsUnit(rule: SudokuRules.Strategy, values: Grid, unit: seq<Box>, trace: Trace)
    requires forall x :: x in unit ==> x in values.cells
    modifies values, trace
    ensures values.cells == SudokuRules.UnitTwins(rule, old(values.cells), unit)
    ensures values.cells.Keys == old(values.cells).Keys
    ensures Extends(old(trace.log), trace.log)
  {
    ghost var start := values.cells;
    var twins := SudokuRules.Twins(rule, values.cells, unit);
    if |twins| < 2 {
      return;
    }
    SudokuRules.TwinsMembers(rule, start, unit);
    var i := 0;
    while i < |twins| - 1
      invariant i <= |twins| - 1
      invariant values.cells == SudokuRules.PairRows(rule, start, unit, twins, i)
      invariant values.cells.Keys == start.Keys
      invariant Extends(old(trace.log), trace.log)
    {
      ghost var log := trace.log;
      TwinsRow(rule, values, unit, twins, i, trace);
      ExtendsTrans(old(trace.log), log, trace.log);
      SudokuRules.PairRowsStep(rule, start, unit, twins, i);
      i := i + 1;
    }
  }

  /** The pairs (twins[i], twins[j]) for every j after i, in order. */
  method TwinsRow(rule: SudokuRules.Strategy, values: Grid, unit: seq<Box>, twins: seq<Box>, i: nat, trace: Trace)
    requires i < |twins| && forall x :: x in twins ==> x in unit
    requires forall x :: x in unit ==> x in values.cells
    modifies values, trace
    ensures values.cells == SudokuRules.PairRow(rule, old(values.cells), unit, twins, i, |twins|)
    ensures values.cells.Keys == old(values.cells).Keys
    ensures Extends(old(trace.log), trace.log)
  {
    ghost var atRow := values.cells;
    var j := i + 1;
    while j < |twins|
      invariant i + 1 <= j <= |twins|
      invariant values.cells == SudokuRules.PairRow(rule, atRow, unit, twins, i, j)
      invariant values.cells.Keys == atRow.Keys
      invariant Extends(old(trace.log), trace.log)
    {
      ghost var prev := values.cells;
      assert twins[i] in unit && twins[j] in unit;
      ghost var log := trace.log;
      TwinsPairStep(rule, values, unit, twins[i], twins[j], trace);
      ExtendsTrans(old(trace.log), log, trace.log);
      SudokuRules.PairStepKeys(rule, prev, unit, twins[i], twins[j]);
      SudokuRules.PairRowStep(rule, atRow, unit, twins, i, j);
      j := j + 1;
    }
  }

  /** One pair of twins: naked_twins' or hidden_twins' loop body. */
  method TwinsPairStep(rule: SudokuRules.Strategy, values: Grid, unit: seq<Box>, a: Box, e: Box, trace: Trace)
    requires a in values.cells && e in values.cells && forall x :: x in unit ==> x in values.cells
    modifies values, trace
    ensures values.cells == SudokuRules.PairStep(rule, old(values.cells), unit, a, e)
    ensures Extends(old(trace.log), trace.log)
  {
    match rule {
      case Naked => NakedPair(values, unit, a, e, trace);
      case Hidden => HiddenPair(values, unit, a, e, trace);
    }
  }

  /** The body of naked_twins' pair loop, for the twins a and e of the unit. */
  method NakedPair(values: Grid, unit: seq<Box>, a: Box, e: Box, trace: Trace)
    requires a in values.cells && e in values.cells && forall x :: x in unit ==> x in values.cells
    modifies values, trace
    ensures values.cells == SudokuRules.NakedPair(old(values.cells), unit, a, e)
    ensures Extends(old(trace.log), trace.log)
  {
    var v, w := values.cells[a], values.cells[e];
    if v == w {
      ghost var before := values.cells;
      var m := 0;
      while m < |unit|
        invariant m <= |unit|
        invariant values.cells == if |w| == 2 then SudokuRules.ClearOthers(before, unit[..m], a, e, v) else before
        invariant values.cells.Keys == before.Keys
        invariant Extends(old(trace.log), trace.log)
      {
        SudokuRules.ClearOthersStep(before, unit, m, a, e, v);
        var peer := unit[m];
        // a solved pair is skipped; an emptied pair is the case of NakedTwinsFourBoxes
        if peer != a && peer != e && |w| == 2 {
          var x := values.cells[peer];
          var y := x - v;
          if y != x {
            ghost var log := trace.log;
            AssignValue(values, peer, y, trace);
            ExtendsTrans(old(trace.log), log, trace.log);
          } else {
            assert values.cells[peer := y] == values.cells;
          }
        }
        m := m + 1;
      }
      assert unit[..|unit|] == unit;
    }
  }

  /** The body of hidden_twins' pair loop, for the boxes a and e of the unit. */
  method HiddenPair(values: Grid, unit: seq<Box>, a: Box, e: Box, trace: Trace)
    requires a in values.cells && e in values.cells && forall x :: x in unit ==> x in values.cells
    modifies values, trace
    ensures values.cells == SudokuRules.HiddenPair(old(values.cells), unit, a, e)
    ensures Extends(old(trace.log), trace.log)
  {
    var v, w := PairRemainders(values.cells, unit, a, e);
    if v == w && |v| == 2 {
      AssignValue(values, a, v, trace);
      ghost var log := trace.log;
      AssignValue(values, e, v, trace);
      ExtendsTrans(old(trace.log), log, trace.log);
    }
  }

  /** The candidates of a and e that no other box of the unit allows. */
  method PairRemainders(cells: Board, unit: seq<Box>, a: Box, e: Box) returns (v: Cands, w: Cands)
    requires a in cells && e in cells && forall x :: x in unit ==> x in cells
    ensures v == cells[a] - SudokuRules.Others(cells, unit, a, e)
    ensures w == cells[e] - SudokuRules.Others(cells, unit, a, e)
  {
    v, w := cells[a], cells[e];
    var m := 0;
    while m < |unit|
      invariant m <= |unit|
      invariant v == cells[a] - SudokuRules.Others(cells, unit[..m], a, e)
      invariant w == cells[e] - SudokuRules.Others(cells, unit[..m], a, e)
    {
      SudokuRules.OthersStep(cells, unit, m, a, e);
      var peer := unit[m];
      assert peer in unit;
      if peer != a && peer != e {
        var x := cells[peer];
        v, w := v - x, w - x;
      }
      m := m + 1;
    }
    assert unit[..|unit|] == unit;
  }

  /**
    reduce_puzzle: run the four passes until a round solves no new box.
    It reports failure exactly when a box has been emptied; on success the
    board is settled (no solved box shares its digit with a peer). Either
    way the board only lost candidates, and it admits exactly the solutions
    it admitted before.
   */
  method ReducePuzzle(values: Grid, trace: Trace) returns (ok: bool)
    requires WellFormed(values.cells)
    modifies values, trace
    ensures values.cells == SudokuRules.Reduce(old(values.cells)).board
    ensures ok == SudokuRules.Reduce(old(values.cells)).ok
    ensures Shrinks(old(values.cells), values.cells)
    ensures ok <==> !HasEmpty(values.cells)
    ensures ok ==> PeersExclude(values.cells)
    ensures forall s :: IsSolution(s) ==> (Admits(old(values.cells), s) <==> Admits(values.cells, s))
    ensures Extends(old(trace.log), trace.log)
  {
    ghost var start := values.cells;
    SudokuRules.ReduceSpec(start);
    var stalled := false;
    while !stalled
      invariant WellFormed(values.cells)
      invariant !stalled ==> SudokuRules.Reduce(values.cells) == SudokuRules.Reduce(start)
      invariant stalled ==> SudokuRules.Reduce(start) == SudokuRules.Reduction(values.cells, true)
      invariant Extends(old(trace.log), trace.log)
      decreases !stalled, 81 - SolvedCount(values.cells)
    {
      ghost var before := values.cells;
      SolvedCountBound(before);
      SudokuRules.PassShrinks(before);
      var solvedBefore := SolvedCount(values.cells);
      ghost var log0 := trace.log;
      Eliminate(values, trace);
      ghost var log1 := trace.log;
      OnlyChoice(values, trace);
      ExtendsTrans(log0, log1, trace.log);
      ghost var log2 := trace.log;
      NakedTwins(values, trace);
      ExtendsTrans(log0, log2, trace.log);
      ghost var log3 := trace.log;
      HiddenTwins(values, trace);
      ExtendsTrans(log0, log3, trace.log);
      ExtendsTrans(old(trace.log), log0, trace.log);
      assert values.cells == SudokuRules.Pass(before);
      var solvedAfter := SolvedCount(values.cells);
      stalled := solvedBefore == solvedAfter;
      if HasEmpty(values.cells) {
        return false;
      }
      SolvedGrows(before, values.cells);
      SolvedCountBound(values.cells);
    }
    return true;
  }

  /**
    search: reduce, and if boxes are still open branch on the first open box
    with the fewest candidates. A result is a full board spelling out a
    solution that the board allowed; no result means the board allowed no
    solution at all.
   */
  method Search(values: Grid, trace: Trace) returns (result: Option<Board>)
    requires WellFormed(values.cells)
    modifies values, trace
    ensures values.cells == SudokuRules.Reduce(old(values.cells)).board
    ensures Shrinks(old(values.cells), values.cells)
    ensures result.Some? ==> Found(old(values.cells), result.value)
    ensures result.None? ==> NoSolution(old(values.cells))
    ensures Extends(old(trace.log), trace.log)
    decreases Total(values.cells), 2
  {
    var ok := ReducePuzzle(values, trace);
    if !ok {
      SudokuRules.EmptiedBoardFails(old(values.cells), values.cells);
      return None;
    }
    var reduced := values.cells;
    if SudokuRules.Unfilled(reduced) == [] {
      SudokuRules.FilledBoardFound(old(values.cells), reduced);
      return Some(reduced);
    }
    var chosen := SudokuRules.ChooseBox(reduced);
    SudokuRules.ChooseBoxSpec(reduced);
    TotalShrinks(old(values.cells), reduced);
    ghost var log := trace.log;
    result := Branch(reduced, chosen, trace);
    ExtendsTrans(old(trace.log), log, trace.log);
    if result.Some? {
      FoundWider(reduced, old(values.cells), result.value);
    }
  }

  /**
    Alternative i of alts is the first that succeeds: every earlier
    alternative's copy admits no solution, and r solves the copy with
    alternative i at box x.
   */
  ghost predicate FirstSuccess(b: Board, x: Box, alts: seq<Digit>, i: nat, r: Board) {
    && i < |alts|
    && AllFailed(b, x, alts, i)
    && Found(b[x := {alts[i]}], r)
  }

  /**
    search's loop over the alternatives of the chosen box: each digit in
    turn, on a copy of the board with the box set to that digit, until one
    copy is solved. When all fail, no solution the board allowed remains.
   */
  method Branch(reduced: Board, chosen: Box, trace: Trace) returns (result: Option<Board>)
    requires WellFormed(reduced) && chosen in reduced && |reduced[chosen]| >= 2
    modifies trace
    ensures result.Some? ==> Found(reduced, result.value)
    ensures result.Some? ==>
      exists i :: FirstSuccess(reduced, chosen, SudokuRules.Ascending(reduced[chosen]), i, result.value)
    ensures result.None? ==> NoSolution(reduced)
    ensures Extends(old(trace.log), trace.log)
    decreases Total(reduced), 1
  {
    var alts := SudokuRules.Ascending(reduced[chosen]);
    var i := 0;
    while i < |alts|
      invariant i <= |alts|
      invariant AllFailed(reduced, chosen, alts, i)
      invariant Extends(old(trace.log), trace.log)
    {
      SudokuRules.AscendingAt(reduced[chosen], i);
      ghost var log := trace.log;
      var r := TryAlternative(reduced, chosen, alts[i], trace);
      ExtendsTrans(old(trace.log), log, trace.log);
      if r.Some? {
        assert FirstSuccess(reduced, chosen, alts, i, r.value);
        return r;
      }
      FailedOneMore(reduced, chosen, alts, i);
      i := i + 1;
    }
    FailedExcluded(reduced, chosen, alts, i);
    assert alts[..i] == alts;
    SudokuRules.AscendingMembers(reduced[chosen]);
    AllBranchesFail(reduced, chosen, alts);
    return None;
  }

  /** One alternative of search: a copy of the board with the chosen box fixed to alt, searched. */
  method TryAlternative(reduced: Board, chosen: Box, alt: Digit, trace: Trace) returns (result: Option<Board>)
    requires WellFormed(reduced) && chosen in reduced && |reduced[chosen]| >= 2 && alt in reduced[chosen]
    modifies trace
    ensures result.Some? ==> Found(reduced[chosen := {alt}], result.value) && Found(reduced, result.value)
    ensures result.None? ==> NoSolution(reduced[chosen := {alt}])
    ensures Extends(old(trace.log), trace.log)
    decreases Total(reduced), 0
  {
    // a deep copy of the reduced board with the chosen box set to one digit
    var sudoku := new Grid(reduced[chosen := {alt}]);
    TotalDecreases(reduced, chosen, alt);
    result := Search(sudoku, trace);
    if result.Some? {
      ghost var log := trace.log;
      AssignValue(sudoku, chosen, {alt}, trace);
      ExtendsTrans(old(trace.log), log, trace.log);
      FixedFound(reduced, chosen, alt, result.value);
    }
  }

  /**
    solve: parse the grid and search. A result spells out a solution that
    keeps every clue of the grid; no result means no solution keeps them.
   */
  method Solve(grid: string, trace: Trace) returns (result: Option<Board>)
    requires IsGrid(grid)
    modifies trace
    ensures result.Some? ==>
      && WellFormed(result.value) && AllSolved(result.value)
      && IsSolution(Value(result.value)) && Respects(grid, Value(result.value))
    ensures result.None? ==> forall s :: IsSolution(s) ==> !Respects(grid, s)
    ensures Extends(old(trace.log), trace.log)
  {
    var values := new Grid(GridValues(grid));
    result := Search(values, trace);
    if result.Some? {
      GridAdmits(grid, Value(result.value));
    } else {
      forall s | IsSolution(s) ensures !Respects(grid, s) {
        GridAdmits(grid, s);
      }
    }
  }
}
