/**
  The four constraint-propagation passes of the solver as pure functions on
  boards. Each pass is a left fold over the solver's own iteration order
  (boxes in row-major order, units in unit-list order, digits 1..9, pairs of
  twin boxes in list order), one step per iteration of the imperative loop,
  so that the methods of the solver can be proved equal to them step by
  step. The lemmas say what every pass preserves: no candidate set grows,
  and no solution the board allowed is lost.

  The folds carry no postconditions of their own: a postcondition of a
  fold is re-proved at every unfolding, so their properties are lemmas.
  Each step looks a box up only when it is a key of the board; on the
  well-formed boards the solver works with, every box is.
 */
module SudokuRules {
  import opened SudokuTopology
  import opened SudokuBoard

  /** A board whose units all lie inside its keys; every well-formed board is one. */
  lemma UnitsInBoard(b: Board)
    requires WellFormed(b)
    ensures forall u, x :: u in UnitList() && x in u ==> x in b
  {
    UnitListFacts();
  }

  /** Unit n of the unit list lies inside the board's keys. */
  lemma UnitInBoard(b: Board, n: nat)
    requires WellFormed(b) && n < |UnitList()|
    ensures forall x :: x in UnitList()[n] ==> x in b
  {
    UnitsInBoard(b);
    assert UnitList()[n] in UnitList();
  }

  /** The peers of any box lie inside the board's keys. */
  lemma PeersInBoard(b: Board, k: Box)
    requires WellFormed(b)
    ensures forall p :: p in Peers(k) ==> p in b
  {
    UnitsInBoard(b);
  }

  // ----- eliminate -----

  /** Take the digits `c` out of every box of `xs`. */
  function RemoveFrom(b: Board, xs: set<Box>, c: Cands): Board {
    map k | k in b :: if k in xs then b[k] - c else b[k]
  }

  /** Taking the digits from one more box of the set is one update of that box. */
  lemma RemoveFromStep(b: Board, xs: set<Box>, p: Box, c: Cands)
    requires p in b && p !in xs
    ensures RemoveFrom(b, xs + {p}, c) == RemoveFrom(b, xs, c)[p := b[p] - c]
  {
  }

  /** One iteration of eliminate: a solved box's digit leaves all its peers. */
  function EliminateBox(b: Board, k: Box): Board {
    if k in b && |b[k]| == 1 then RemoveFrom(b, Peers(k), b[k]) else b
  }

  /** eliminate after its first n boxes, in row-major order. */
  function EliminateUpTo(b: Board, n: nat): Board
    requires n <= 81
  {
    if n == 0 then b else EliminateBox(EliminateUpTo(b, n - 1), Boxes()[n - 1])
  }

  function Eliminate(b: Board): Board {
    EliminateUpTo(b, 81)
  }

  // ----- only_choice -----

  /** The boxes of u that still allow digit v, in unit order. */
  function Holders(b: Board, u: seq<Box>, v: Digit): seq<Box> {
    if u == [] then []
    else
      Holders(b, u[..|u| - 1], v) + (if u[|u| - 1] in b && v in b[u[|u| - 1]] then [u[|u| - 1]] else [])
  }

  /** The holders are exactly the boxes of the unit that allow v. */
  lemma {:induction false} HoldersMembers(b: Board, u: seq<Box>, v: Digit)
    ensures forall x :: x in Holders(b, u, v) <==> x in u && x in b && v in b[x]
  {
    if u != [] {
      HoldersMembers(b, u[..|u| - 1], v);
      assert u == u[..|u| - 1] + [u[|u| - 1]];
    }
  }

  /** A unit without repeated boxes yields holders without repeats. */
  lemma {:induction false} HoldersDistinct(b: Board, u: seq<Box>, v: Digit)
    requires Distinct(u)
    ensures Distinct(Holders(b, u, v))
  {
    if u != [] {
      var init, last := u[..|u| - 1], u[|u| - 1];
      HoldersDistinct(b, init, v);
      HoldersMembers(b, init, v);
      assert last !in init by {
        forall i | 0 <= i < |init| ensures init[i] != last {
          assert init[i] == u[i];
        }
      }
    }
  }

  /** Holders over one more box of the unit. */
  lemma HoldersStep(b: Board, u: seq<Box>, j: nat, v: Digit)
    requires j < |u|
    ensures Holders(b, u[..j + 1], v) == Holders(b, u[..j], v) + if u[j] in b && v in b[u[j]] then [u[j]] else []
  {
    assert u[..j + 1][..j] == u[..j];
  }

  /** A digit that only one box of the unit allows goes into that box. */
  function OnlyChoiceDigit(b: Board, u: seq<Box>, v: Digit): Board {
    var hs := Holders(b, u, v);
    if |hs| == 1 then b[hs[0] := {v}] else b
  }

  /** only_choice on one unit after its first n digits. */
  function OnlyChoiceDigits(b: Board, u: seq<Box>, n: nat): Board
    requires n <= 9
  {
    if n == 0 then b else OnlyChoiceDigit(OnlyChoiceDigits(b, u, n - 1), u, n)
  }

  /** only_choice after its first n units. */
  function OnlyChoiceUpTo(b: Board, n: nat): Board
    requires n <= |UnitList()|
  {
    if n == 0 then b else OnlyChoiceDigits(OnlyChoiceUpTo(b, n - 1), UnitList()[n - 1], 9)
  }

  /** only_choice over one more unit. */
  lemma OnlyChoiceUpToStep(b: Board, n: nat)
    requires n < |UnitList()|
    ensures OnlyChoiceUpTo(b, n + 1) == OnlyChoiceDigits(OnlyChoiceUpTo(b, n), UnitList()[n], 9)
  {
  }

  function OnlyChoice(b: Board): Board {
    OnlyChoiceUpTo(b, 29)
  }

  // ----- naked_twins and hidden_twins -----

  /** The two twin strategies share their loop structure and differ in the pair rule. */
  datatype Strategy = Naked | Hidden

  /** Which boxes of a unit take part in the pair search. */
  predicate TwinCandidate(rule: Strategy, b: Board, x: Box) {
    x in b && match rule
      case Naked => |b[x]| == 2
      case Hidden => |b[x]| >= 2
  }

  /** The boxes of u that take part in the pair search, in unit order. */
  function Twins(rule: Strategy, b: Board, u: seq<Box>): seq<Box> {
    if u == [] then []
    else
      Twins(rule, b, u[..|u| - 1]) + (if TwinCandidate(rule, b, u[|u| - 1]) then [u[|u| - 1]] else [])
  }

  /** The twin list holds exactly the boxes of the unit that take part in the pair search. */
  lemma {:induction false} TwinsMembers(rule: Strategy, b: Board, u: seq<Box>)
    ensures forall x :: x in Twins(rule, b, u) <==> x in u && TwinCandidate(rule, b, x)
  {
    if u != [] {
      TwinsMembers(rule, b, u[..|u| - 1]);
      assert u == u[..|u| - 1] + [u[|u| - 1]];
    }
  }

  /** A unit without repeated boxes yields a twin list without repeats. */
  lemma {:induction false} TwinsDistinct(rule: Strategy, b: Board, u: seq<Box>)
    requires Distinct(u)
    ensures Distinct(Twins(rule, b, u))
  {
    if u != [] {
      var init, last := u[..|u| - 1], u[|u| - 1];
      TwinsDistinct(rule, b, init);
      TwinsMembers(rule, b, init);
      assert last !in init by {
        forall i | 0 <= i < |init| ensures init[i] != last {
          assert init[i] == u[i];
        }
      }
    }
  }

  /** Remove `c` from every box of `u` other than `a` and `e`, box by box in unit order. */
  function ClearOthers(b: Board, u: seq<Box>, a: Box, e: Box, c: Cands): Board {
    if u == [] then b
    else
      var prev, x := ClearOthers(b, u[..|u| - 1], a, e, c), u[|u| - 1];
      if x == a || x == e || x !in prev then prev else prev[x := prev[x] - c]
  }

  /**
    Naked twins: two boxes of a unit with the same two candidates take both
    digits out of the unit's other boxes.
   */
  function NakedPair(b: Board, u: seq<Box>, a: Box, e: Box): Board {
    if a in b && e in b && b[a] == b[e] && |b[e]| == 2 then ClearOthers(b, u, a, e, b[a]) else b
  }

  /** The candidates of the boxes of `u` other than `a` and `e`. */
  function Others(b: Board, u: seq<Box>, a: Box, e: Box): Cands {
    if u == [] then {}
    else
      var x := u[|u| - 1];
      Others(b, u[..|u| - 1], a, e) + (if x == a || x == e || x !in b then {} else b[x])
  }

  /**
    Hidden twins: when the same two digits can go nowhere in the unit but
    in boxes `a` and `e`, those boxes keep only these two digits.
   */
  function HiddenPair(b: Board, u: seq<Box>, a: Box, e: Box): Board {
    if a in b && e in b then
      var v, w := b[a] - Others(b, u, a, e), b[e] - Others(b, u, a, e);
      if v == w && |v| == 2 then b[a := v][e := v] else b
    else b
  }

  function PairStep(rule: Strategy, b: Board, u: seq<Box>, a: Box, e: Box): Board {
    match rule
      case Naked => NakedPair(b, u, a, e)
      case Hidden => HiddenPair(b, u, a, e)
  }

  /** The pairs (tw[i], tw[i + 1]), ..., (tw[i], tw[j - 1]) in order. */
  function PairRow(rule: Strategy, b: Board, u: seq<Box>, tw: seq<Box>, i: nat, j: nat): Board
    requires i < j <= |tw|
    decreases j
  {
    if j == i + 1 then b else PairStep(rule, PairRow(rule, b, u, tw, i, j - 1), u, tw[i], tw[j - 1])
  }

  /** One more pair in a row of pairs. */
  lemma PairRowStep(rule: Strategy, b: Board, u: seq<Box>, tw: seq<Box>, i: nat, j: nat)
    requires i < j < |tw|
    ensures PairRow(rule, b, u, tw, i, j + 1) == PairStep(rule, PairRow(rule, b, u, tw, i, j), u, tw[i], tw[j])
  {
  }

  /** The first i rows of pairs: every pair whose first box is one of tw[0..i - 1]. */
  function PairRows(rule: Strategy, b: Board, u: seq<Box>, tw: seq<Box>, i: nat): Board
    requires i < |tw|
  {
    if i == 0 then b else PairRow(rule, PairRows(rule, b, u, tw, i - 1), u, tw, i - 1, |tw|)
  }

  /** One more row of pairs. */
  lemma PairRowsStep(rule: Strategy, b: Board, u: seq<Box>, tw: seq<Box>, i: nat)
    requires i + 1 < |tw|
    ensures PairRows(rule, b, u, tw, i + 1) == PairRow(rule, PairRows(rule, b, u, tw, i), u, tw, i, |tw|)
  {
  }

  /** One unit of naked_twins or hidden_twins; the twin list is fixed at the start of the unit. */
  function UnitTwins(rule: Strategy, b: Board, u: seq<Box>): Board {
    var tw := Twins(rule, b, u);
    if |tw| < 2 then b else PairRows(rule, b, u, tw, |tw| - 1)
  }

  function TwinsUpTo(rule: Strategy, b: Board, n: nat): Board
    requires n <= |UnitList()|
  {
    if n == 0 then b else UnitTwins(rule, TwinsUpTo(rule, b, n - 1), UnitList()[n - 1])
  }

  /** naked_twins or hidden_twins over one more unit. */
  lemma TwinsUpToStep(rule: Strategy, b: Board, n: nat)
    requires n < |UnitList()|
    ensures TwinsUpTo(rule, b, n + 1) == UnitTwins(rule, TwinsUpTo(rule, b, n), UnitList()[n])
  {
  }

  function NakedTwins(b: Board): Board {
    TwinsUpTo(Naked, b, 29)
  }

  function HiddenTwins(b: Board): Board {
    TwinsUpTo(Hidden, b, 29)
  }

  /** One round of reduce_puzzle. */
  function Pass(b: Board): Board {
    HiddenTwins(NakedTwins(OnlyChoice(Eliminate(b))))
  }

  // ----- Every pass only removes candidates -----

  /** Every later state of the eliminate loop is inside every earlier one. */
  lemma {:induction false} EliminateShrinks(b: Board, m: nat, n: nat)
    requires m <= n <= 81
    ensures Shrinks(EliminateUpTo(b, m), EliminateUpTo(b, n))
  {
    if n > m {
      EliminateShrinks(b, m, n - 1);
      EliminateBoxShrinks(EliminateUpTo(b, n - 1), Boxes()[n - 1]);
      ShrinksTrans(EliminateUpTo(b, m), EliminateUpTo(b, n - 1), EliminateUpTo(b, n));
    }
  }

  /** One iteration of eliminate only removes candidates. */
  lemma EliminateBoxShrinks(b: Board, k: Box)
    ensures Shrinks(b, EliminateBox(b, k))
  {
  }

  lemma OnlyChoiceDigitShrinks(b: Board, u: seq<Box>, v: Digit)
    ensures Shrinks(b, OnlyChoiceDigit(b, u, v))
  {
    var hs := Holders(b, u, v);
    if |hs| == 1 {
      HoldersMembers(b, u, v);
      assert hs[0] in hs;
    }
  }

  lemma {:induction false} OnlyChoiceDigitsShrinks(b: Board, u: seq<Box>, n: nat)
    requires n <= 9
    ensures Shrinks(b, OnlyChoiceDigits(b, u, n))
  {
    if n > 0 {
      OnlyChoiceDigitsShrinks(b, u, n - 1);
      OnlyChoiceDigitShrinks(OnlyChoiceDigits(b, u, n - 1), u, n);
    }
  }

  lemma {:induction false} OnlyChoiceShrinks(b: Board, n: nat)
    requires n <= |UnitList()|
    ensures Shrinks(b, OnlyChoiceUpTo(b, n))
  {
    if n > 0 {
      OnlyChoiceShrinks(b, n - 1);
      OnlyChoiceDigitsShrinks(OnlyChoiceUpTo(b, n - 1), UnitList()[n - 1], 9);
    }
  }

  /** ClearOthers removes `c` from exactly the boxes of `u` other than `a` and `e`. */
  lemma {:induction false} ClearOthersEffect(b: Board, u: seq<Box>, a: Box, e: Box, c: Cands)
    ensures ClearOthers(b, u, a, e, c).Keys == b.Keys
    ensures forall k :: k in b ==>
      ClearOthers(b, u, a, e, c)[k] == if k in u && k != a && k != e then b[k] - c else b[k]
  {
    if u != [] {
      var init := u[..|u| - 1];
      assert u == init + [u[|u| - 1]];
      ClearOthersEffect(b, init, a, e, c);
    }
  }

  /** ClearOthers over one more box of the unit is one more step. */
  lemma ClearOthersStep(b: Board, u: seq<Box>, m: nat, a: Box, e: Box, c: Cands)
    requires m < |u|
    ensures ClearOthers(b, u[..m + 1], a, e, c) ==
      var prev := ClearOthers(b, u[..m], a, e, c);
      if u[m] == a || u[m] == e || u[m] !in prev then prev else prev[u[m] := prev[u[m]] - c]
  {
    assert u[..m + 1][..m] == u[..m];
  }

  /** Others over one more box of the unit adds that box's candidates, unless it is a or e. */
  lemma OthersStep(b: Board, u: seq<Box>, m: nat, a: Box, e: Box)
    requires m < |u|
    ensures Others(b, u[..m + 1], a, e) ==
      Others(b, u[..m], a, e) + (if u[m] == a || u[m] == e || u[m] !in b then {} else b[u[m]])
  {
    assert u[..m + 1][..m] == u[..m];
  }

  /** The digits of Others are those some other box of the unit allows. */
  lemma {:induction false} OthersMembers(b: Board, u: seq<Box>, a: Box, e: Box)
    ensures forall d :: d in Others(b, u, a, e) <==>
      exists x :: x in u && x != a && x != e && x in b && d in b[x]
  {
    if u != [] {
      var init := u[..|u| - 1];
      assert u == init + [u[|u| - 1]];
      OthersMembers(b, init, a, e);
    }
  }

  lemma PairStepShrinks(rule: Strategy, b: Board, u: seq<Box>, a: Box, e: Box)
    ensures Shrinks(b, PairStep(rule, b, u, a, e))
  {
    if rule == Naked && a in b && e in b {
      ClearOthersEffect(b, u, a, e, b[a]);
    }
  }

  lemma PairStepKeys(rule: Strategy, b: Board, u: seq<Box>, a: Box, e: Box)
    ensures PairStep(rule, b, u, a, e).Keys == b.Keys
  {
    PairStepShrinks(rule, b, u, a, e);
  }

  lemma {:induction false} PairRowShrinks(rule: Strategy, b: Board, u: seq<Box>, tw: seq<Box>, i: nat, j: nat)
    requires i < j <= |tw|
    ensures Shrinks(b, PairRow(rule, b, u, tw, i, j))
    decreases j
  {
    if j > i + 1 {
      PairRowShrinks(rule, b, u, tw, i, j - 1);
      PairStepShrinks(rule, PairRow(rule, b, u, tw, i, j - 1), u, tw[i], tw[j - 1]);
    }
  }

  lemma {:induction false} PairRowsShrinks(rule: Strategy, b: Board, u: seq<Box>, tw: seq<Box>, i: nat)
    requires i < |tw|
    ensures Shrinks(b, PairRows(rule, b, u, tw, i))
  {
    if i > 0 {
      PairRowsShrinks(rule, b, u, tw, i - 1);
      PairRowShrinks(rule, PairRows(rule, b, u, tw, i - 1), u, tw, i - 1, |tw|);
    }
  }

  lemma UnitTwinsShrinks(rule: Strategy, b: Board, u: seq<Box>)
    ensures Shrinks(b, UnitTwins(rule, b, u))
  {
    var tw := Twins(rule, b, u);
    if |tw| >= 2 {
      PairRowsShrinks(rule, b, u, tw, |tw| - 1);
    }
  }

  lemma {:induction false} TwinsShrinks(rule: Strategy, b: Board, n: nat)
    requires n <= |UnitList()|
    ensures Shrinks(b, TwinsUpTo(rule, b, n))
  {
    if n > 0 {
      TwinsShrinks(rule, b, n - 1);
      UnitTwinsShrinks(rule, TwinsUpTo(rule, b, n - 1), UnitList()[n - 1]);
    }
  }

  /** A round of reduce_puzzle only removes candidates, each pass after the previous one. */
  lemma PassShrinks(b: Board)
    ensures Shrinks(b, Eliminate(b))
    ensures Shrinks(Eliminate(b), OnlyChoice(Eliminate(b)))
    ensures Shrinks(OnlyChoice(Eliminate(b)), NakedTwins(OnlyChoice(Eliminate(b))))
    ensures Shrinks(NakedTwins(OnlyChoice(Eliminate(b))), Pass(b))
    ensures Shrinks(b, Pass(b))
  {
    var b1 := Eliminate(b);
    var b2 := OnlyChoice(b1);
    var b3 := NakedTwins(b2);
    EliminateShrinks(b, 0, 81);
    OnlyChoiceShrinks(b1, 29);
    TwinsShrinks(Naked, b2, 29);
    TwinsShrinks(Hidden, b3, 29);
  }

  // ----- No pass loses a solution -----

  /** Peers carry different digits in a solution. */
  lemma PeersDiffer(s: Assignment, k: Box, p: Box)
    requires IsSolution(s) && p in Peers(k)
    ensures k in s && p in s && s[p] != s[k]
  {
    var u :| u in UnitList() && k in u && p in u;
    SolutionSolvesUnits(s);
    SolutionDiffers(s, u, k, p);
  }

  lemma EliminateBoxKeeps(b: Board, k: Box, s: Assignment)
    requires IsSolution(s) && Admits(b, s)
    ensures Admits(EliminateBox(b, k), s)
  {
    if k in b && |b[k]| == 1 {
      UnitListFacts();
      BoxSetSize();
      if k in s {
        SingletonOf(b[k], s[k]);
        forall p | p in s && p in Peers(k) ensures s[p] !in b[k] {
          PeersDiffer(s, k, p);
        }
      } else {
        // a peer set is only non-empty for a box of the grid
        assert Peers(k) == {};
      }
    }
  }

  lemma {:induction false} EliminateKeeps(b: Board, n: nat, s: Assignment)
    requires n <= 81 && IsSolution(s) && Admits(b, s)
    ensures Admits(EliminateUpTo(b, n), s)
  {
    if n > 0 {
      EliminateKeeps(b, n - 1, s);
      EliminateBoxKeeps(EliminateUpTo(b, n - 1), Boxes()[n - 1], s);
    }
  }

  lemma OnlyChoiceDigitKeeps(b: Board, u: seq<Box>, v: Digit, s: Assignment)
    requires SolvesUnit(s, u) && Admits(b, s)
    ensures Admits(OnlyChoiceDigit(b, u, v), s)
  {
    var hs := Holders(b, u, v);
    if |hs| == 1 {
      HoldersMembers(b, u, v);
      assert Covers(s, u, v);
      var x :| x in u && x in s && s[x] == v;
      assert x in hs;
      var i :| 0 <= i < |hs| && hs[i] == x;
      assert i == 0;
    }
  }

  lemma {:induction false} OnlyChoiceDigitsKeeps(b: Board, u: seq<Box>, n: nat, s: Assignment)
    requires n <= 9 && SolvesUnit(s, u) && Admits(b, s)
    ensures Admits(OnlyChoiceDigits(b, u, n), s)
  {
    if n > 0 {
      OnlyChoiceDigitsKeeps(b, u, n - 1, s);
      OnlyChoiceDigitKeeps(OnlyChoiceDigits(b, u, n - 1), u, n, s);
    }
  }

  lemma {:induction false} OnlyChoiceKeeps(b: Board, n: nat, s: Assignment)
    requires n <= |UnitList()| && IsSolution(s) && Admits(b, s)
    ensures Admits(OnlyChoiceUpTo(b, n), s)
  {
    if n > 0 {
      OnlyChoiceKeeps(b, n - 1, s);
      SolvedUnitAt(s, n - 1);
      OnlyChoiceDigitsKeeps(OnlyChoiceUpTo(b, n - 1), UnitList()[n - 1], 9, s);
    }
  }

  /** Two different digits of a two-element set are all of it. */
  lemma PairOfTwo(c: Cands, x: Digit, y: Digit)
    requires |c| == 2 && x in c && y in c && x != y
    ensures c == {x, y}
  {
    assert |{x, y}| == 2;
    SubsetCard({x, y}, c);
  }

  lemma NakedPairKeeps(b: Board, u: seq<Box>, a: Box, e: Box, s: Assignment)
    requires a in u && e in u && a != e
    requires SolvesUnit(s, u) && Admits(b, s)
    ensures Admits(NakedPair(b, u, a, e), s)
  {
    if a in b && e in b && b[a] == b[e] && |b[e]| == 2 {
      SolutionDiffers(s, u, a, e);
      PairOfTwo(b[a], s[a], s[e]);
      ClearOthersEffect(b, u, a, e, b[a]);
      forall k | k in s && k in u && k != a && k != e ensures s[k] !in b[a] {
        SolutionDiffers(s, u, k, a);
        SolutionDiffers(s, u, k, e);
      }
    }
  }

  /** A digit no other box of the unit allows sits, in a solution, in one of the two boxes. */
  lemma HiddenDigitPlace(b: Board, u: seq<Box>, a: Box, e: Box, s: Assignment, d: Digit)
    requires SolvesUnit(s, u) && Admits(b, s) && d !in Others(b, u, a, e)
    ensures a in s && e in s ==> s[a] == d || s[e] == d
  {
    OthersMembers(b, u, a, e);
    assert Covers(s, u, d);
    var x :| x in u && x in s && s[x] == d;
    assert x == a || x == e;
  }

  lemma HiddenPairKeeps(b: Board, u: seq<Box>, a: Box, e: Box, s: Assignment)
    requires a in u && e in u && a != e
    requires SolvesUnit(s, u) && Admits(b, s)
    ensures Admits(HiddenPair(b, u, a, e), s)
  {
    if a in b && e in b {
      var others := Others(b, u, a, e);
      var v, w := b[a] - others, b[e] - others;
      if v == w && |v| == 2 {
        SolutionDiffers(s, u, a, e);
        var d1 :| d1 in v;
        assert |v - {d1}| == 1;
        var d2 :| d2 in v - {d1};
        PairOfTwo(v, d1, d2);
        HiddenDigitPlace(b, u, a, e, s, d1);
        HiddenDigitPlace(b, u, a, e, s, d2);
        assert s[a] in v && s[e] in v;
      }
    }
  }

  lemma PairStepKeeps(rule: Strategy, b: Board, u: seq<Box>, a: Box, e: Box, s: Assignment)
    requires a in u && e in u && a != e
    requires SolvesUnit(s, u) && Admits(b, s)
    ensures Admits(PairStep(rule, b, u, a, e), s)
  {
    match rule
    case Naked => NakedPairKeeps(b, u, a, e, s);
    case Hidden => HiddenPairKeeps(b, u, a, e, s);
  }

  lemma {:induction false} PairRowKeeps(rule: Strategy, b: Board, u: seq<Box>, tw: seq<Box>, i: nat, j: nat, s: Assignment)
    requires i < j <= |tw| && Distinct(tw) && forall k :: 0 <= k < |tw| ==> tw[k] in u
    requires SolvesUnit(s, u) && Admits(b, s)
    ensures Admits(PairRow(rule, b, u, tw, i, j), s)
    decreases j
  {
    if j > i + 1 {
      PairRowKeeps(rule, b, u, tw, i, j - 1, s);
      PairStepKeeps(rule, PairRow(rule, b, u, tw, i, j - 1), u, tw[i], tw[j - 1], s);
    }
  }

  lemma {:induction false} PairRowsKeeps(rule: Strategy, b: Board, u: seq<Box>, tw: seq<Box>, i: nat, s: Assignment)
    requires i < |tw| && Distinct(tw) && forall k :: 0 <= k < |tw| ==> tw[k] in u
    requires SolvesUnit(s, u) && Admits(b, s)
    ensures Admits(PairRows(rule, b, u, tw, i), s)
  {
    if i > 0 {
      PairRowsKeeps(rule, b, u, tw, i - 1, s);
      PairRowKeeps(rule, PairRows(rule, b, u, tw, i - 1), u, tw, i - 1, |tw|, s);
    }
  }

  lemma UnitTwinsKeeps(rule: Strategy, b: Board, u: seq<Box>, s: Assignment)
    requires Distinct(u) && SolvesUnit(s, u) && Admits(b, s)
    ensures Admits(UnitTwins(rule, b, u), s)
  {
    var tw := Twins(rule, b, u);
    if |tw| >= 2 {
      TwinsMembers(rule, b, u);
      TwinsDistinct(rule, b, u);
      PairRowsKeeps(rule, b, u, tw, |tw| - 1, s);
    }
  }

  lemma {:induction false} TwinsKeeps(rule: Strategy, b: Board, n: nat, s: Assignment)
    requires n <= |UnitList()| && IsSolution(s) && Admits(b, s)
    ensures Admits(TwinsUpTo(rule, b, n), s)
  {
    if n > 0 {
      TwinsKeeps(rule, b, n - 1, s);
      SolvedUnitAt(s, n - 1);
      UnitTwinsKeeps(rule, TwinsUpTo(rule, b, n - 1), UnitList()[n - 1], s);
    }
  }

  /**
    A round of reduce_puzzle keeps exactly the solutions the board allowed:
    it loses none, and since it only removes candidates it admits no new one.
   */
  lemma PassKeepsSolutions(b: Board, s: Assignment)
    requires IsSolution(s)
    ensures Admits(b, s) <==> Admits(Pass(b), s)
  {
    var b1 := Eliminate(b);
    var b2 := OnlyChoice(b1);
    var b3 := NakedTwins(b2);
    PassShrinks(b);
    if Admits(b, s) {
      EliminateKeeps(b, 81, s);
      OnlyChoiceKeeps(b1, 29, s);
      TwinsKeeps(Naked, b2, 29, s);
      TwinsKeeps(Hidden, b3, 29, s);
    }
    if Admits(Pass(b), s) {
      AdmitsWider(Pass(b), b, s);
    }
  }

  // ----- What one step does -----

  /**
    Once the eliminate loop has visited a box holding a single digit, no
    peer of that box holds the digit again, however far the loop goes on.
   */
  lemma EliminateClears(b: Board, i: nat, n: nat)
    requires i < n <= 81
    requires Boxes()[i] in EliminateUpTo(b, i) && |EliminateUpTo(b, i)[Boxes()[i]]| == 1
    ensures EliminateUpTo(b, n).Keys == b.Keys
    ensures forall p :: p in EliminateUpTo(b, n) && p in Peers(Boxes()[i]) ==>
      EliminateUpTo(b, n)[p] !! EliminateUpTo(b, i)[Boxes()[i]]
  {
    var k := Boxes()[i];
    var before, after := EliminateUpTo(b, i), EliminateUpTo(b, i + 1);
    assert after == RemoveFrom(before, Peers(k), before[k]);
    EliminateShrinks(b, 0, i);
    EliminateShrinks(b, i + 1, n);
    forall p | p in EliminateUpTo(b, n) && p in Peers(k) ensures EliminateUpTo(b, n)[p] !! before[k] {
      assert after[p] == before[p] - before[k];
    }
  }

  /** The boxes of a unit that a given digit may go into, stated without the filter. */
  predicate SoleHolder(b: Board, u: seq<Box>, v: Digit, k: Box) {
    && k in u && k in b && v in b[k]
    && forall y :: y in u && y in b && v in b[y] ==> y == k
  }

  /**
    only_choice for one digit of one unit: the box that alone allows the
    digit is set to it, and nothing else changes.
   */
  lemma OnlyChoiceDigitEffect(b: Board, u: seq<Box>, v: Digit)
    requires Distinct(u)
    ensures OnlyChoiceDigit(b, u, v).Keys == b.Keys
    ensures forall k :: k in b ==>
      OnlyChoiceDigit(b, u, v)[k] == if SoleHolder(b, u, v, k) then {v} else b[k]
  {
    var hs := Holders(b, u, v);
    HoldersMembers(b, u, v);
    HoldersDistinct(b, u, v);
    if |hs| == 1 {
      assert hs[0] in hs;
      forall y | y in hs ensures y == hs[0] {
        var i :| 0 <= i < |hs| && hs[i] == y;
      }
    } else if |hs| >= 2 {
      // two different boxes allow the digit
      assert hs[0] in hs && hs[1] in hs;
    }
  }

  /**
    naked_twins for one pair: when both boxes hold the same two digits, each
    other box of the unit loses both, and the pair and the boxes outside
    the unit keep theirs.
   */
  lemma NakedPairEffect(b: Board, u: seq<Box>, a: Box, e: Box)
    requires a in b && e in b && b[a] == b[e] && |b[a]| == 2
    ensures NakedPair(b, u, a, e).Keys == b.Keys
    ensures forall k :: k in b && k in u && k != a && k != e ==>
      NakedPair(b, u, a, e)[k] == b[k] - b[a] && NakedPair(b, u, a, e)[k] !! b[a]
    ensures forall k :: k in b && (k !in u || k == a || k == e) ==> NakedPair(b, u, a, e)[k] == b[k]
  {
    ClearOthersEffect(b, u, a, e, b[a]);
  }

  /**
    hidden_twins for one pair: when it changes the board, both boxes end with
    the same two digits, which each allowed before and which no other box of
    the unit allows; every other box keeps its candidates.
   */
  lemma HiddenPairEffect(b: Board, u: seq<Box>, a: Box, e: Box)
    requires a in b && e in b
    ensures HiddenPair(b, u, a, e).Keys == b.Keys
    ensures forall k :: k in b && k != a && k != e ==> HiddenPair(b, u, a, e)[k] == b[k]
    ensures HiddenPair(b, u, a, e) != b ==>
      var r := HiddenPair(b, u, a, e);
      && r[a] == r[e] && |r[a]| == 2 && r[a] <= b[a] && r[a] <= b[e]
      && forall x, d :: x in u && x != a && x != e && x in b && d in r[a] ==> d !in b[x]
    ensures
      var v, w := b[a] - Others(b, u, a, e), b[e] - Others(b, u, a, e);
      && (v == w && |v| == 2 ==> HiddenPair(b, u, a, e) == b[a := v][e := v])
      && (v != w || |v| != 2 ==> HiddenPair(b, u, a, e) == b)
  {
    OthersMembers(b, u, a, e);
  }

  // ----- reduce_puzzle's exit -----

  /**
    When a round of reduce_puzzle empties no box and solves no new one, the
    board it ends with is settled: no solved box shares its digit with a
    peer. Each such box was solved before the round, so eliminate cleared
    its digit from its peers when it reached the box, and the later passes
    only remove candidates.
   */
  lemma StalledPassSettles(b: Board)
    requires WellFormed(b) && !HasEmpty(Pass(b)) && SolvedCount(Pass(b)) == SolvedCount(b)
    ensures PeersExclude(Pass(b))
  {
    var r := Pass(b);
    PassShrinks(b);
    SolvedGrows(b, r);
    BoxSetMembers();
    forall k, p | k in r && p in r && |r[k]| == 1 && p in Peers(k) ensures r[k] !! r[p] {
      assert k in Solved(b);
      var i :| 0 <= i < 81 && Boxes()[i] == k;
      var before := EliminateUpTo(b, i);
      EliminateShrinks(b, 0, i);
      EliminateShrinks(b, i, 81);
      assert r[k] <= before[k] <= b[k];
      SubsetCard(r[k], before[k]);
      SubsetCard(before[k], b[k]);
      EliminateClears(b, i, 81);
    }
  }

  /** The outcome of reduce_puzzle: the board it leaves behind, and whether it returned it rather than False. */
  datatype Reduction = Reduction(board: Board, ok: bool)

  /**
    reduce_puzzle: rounds until one solves no new box, stopping with failure
    as soon as a round leaves some box empty. The round that empties a box
    fails even when it also stalls.
   */
  function Reduce(b: Board): Reduction
    requires WellFormed(b)
    decreases 81 - SolvedCount(b)
  {
    SolvedCountBound(b);
    PassShrinks(b);
    var after := Pass(b);
    if HasEmpty(after) then Reduction(after, false)
    else if SolvedCount(b) == SolvedCount(after) then Reduction(after, true)
    else
      SolvedGrows(b, after);
      Reduce(after)
  }

  /**
    What reduce_puzzle achieves: it only removes candidates and keeps
    exactly the solutions the board admitted; it fails exactly when it
    leaves a box empty, and otherwise no solved box shares its digit with
    a peer.
   */
  lemma {:induction false} ReduceSpec(b: Board)
    requires WellFormed(b)
    ensures WellFormed(Reduce(b).board) && Shrinks(b, Reduce(b).board)
    ensures Reduce(b).ok <==> !HasEmpty(Reduce(b).board)
    ensures Reduce(b).ok ==> PeersExclude(Reduce(b).board)
    ensures forall s :: IsSolution(s) ==> (Admits(b, s) <==> Admits(Reduce(b).board, s))
    decreases 81 - SolvedCount(b)
  {
    SolvedCountBound(b);
    PassShrinks(b);
    var after := Pass(b);
    forall s | IsSolution(s) ensures Admits(b, s) <==> Admits(after, s) {
      PassKeepsSolutions(b, s);
    }
    if !HasEmpty(after) {
      if SolvedCount(b) == SolvedCount(after) {
        StalledPassSettles(b);
      } else {
        SolvedGrows(b, after);
        ReduceSpec(after);
        ShrinksTrans(b, after, Reduce(after).board);
      }
    }
  }

  // ----- the ends of search -----

  /** A reduction that empties a box shows that the board it started from had no solution. */
  lemma EmptiedBoardFails(start: Board, reduced: Board)
    requires WellFormed(reduced) && HasEmpty(reduced)
    requires forall s :: IsSolution(s) ==> (Admits(start, s) <==> Admits(reduced, s))
    ensures NoSolution(start)
  {
    forall s | IsSolution(s) ensures !Admits(start, s) {
      EmptyAdmitsNothing(reduced, s);
    }
  }

  /** A settled reduction with no open box is a solution the starting board admits. */
  lemma FilledBoardFound(start: Board, reduced: Board)
    requires WellFormed(reduced) && Shrinks(start, reduced)
    requires !HasEmpty(reduced) && PeersExclude(reduced) && Unfilled(reduced) == []
    ensures Found(start, reduced)
  {
    BoxSetMembers();
    forall k | k in reduced ensures |reduced[k]| == 1 {
      assert reduced[k] != {};
    }
    SettledBoardIsSolution(reduced);
    FoundWider(reduced, start, reduced);
  }

  // ----- naked_twins as written, on a pair of emptied twins -----

  /** A step of the source that either produces a board or stops with an exception. */
  datatype Outcome = Done(board: Board) | IndexError

  /**
    The naked_twins pair step exactly as the source performs it. The twins
    held two candidates when the unit was entered and boards only shrink,
    so at most two are left. Equal twins with one candidate are skipped;
    equal twins with none reach the indexing of the first candidate as soon
    as the unit has another box, and fail there.
   */
  function NakedPairAsWritten(b: Board, u: seq<Box>, a: Box, e: Box): Outcome
    requires a in b && e in b && |b[a]| <= 2 && |b[e]| <= 2
  {
    if b[a] != b[e] || |b[e]| == 1 then Done(b)
    else if |b[e]| == 0 then
      if exists x :: x in u && x != a && x != e then IndexError else Done(b)
    else Done(ClearOthers(b, u, a, e, b[a]))
  }

  /** The as-written step agrees with NakedPair everywhere except on emptied twins. */
  lemma NakedPairAsWrittenAgrees(b: Board, u: seq<Box>, a: Box, e: Box)
    requires a in b && e in b && |b[a]| <= 2 && |b[e]| <= 2
    ensures !(b[a] == b[e] == {}) ==> NakedPairAsWritten(b, u, a, e) == Done(NakedPair(b, u, a, e))
    ensures NakedPairAsWritten(b, u, a, e).Done? ==> NakedPairAsWritten(b, u, a, e).board == NakedPair(b, u, a, e)
  {
  }

  /**
    Four boxes of one unit holding the same two digits make naked_twins
    fail: the pair (x1, x2) comes first and empties x3 and x4, after which
    the pair (x3, x4) has equal, empty values. NakedPair instead leaves such
    a pair alone, and the empty boxes make reduce_puzzle report failure.
   */
  lemma NakedTwinsFourBoxes(b: Board, u: seq<Box>, x1: Box, x2: Box, x3: Box, x4: Box)
    requires x1 in u && x2 in u && x3 in u && x4 in u
    requires x1 in b && x2 in b && x3 in b && x4 in b
    requires x1 != x2 && x1 != x3 && x1 != x4 && x2 != x3 && x2 != x4 && x3 != x4
    requires |b[x1]| == 2 && b[x2] == b[x1] && b[x3] == b[x1] && b[x4] == b[x1]
    ensures var mid := NakedPair(b, u, x1, x2);
      && x3 in mid && x4 in mid && mid[x3] == {} && mid[x4] == {}
      && NakedPairAsWritten(mid, u, x3, x4) == IndexError
      && NakedPair(mid, u, x3, x4) == mid && HasEmpty(mid)
  {
    NakedPairEffect(b, u, x1, x2);
  }

  // ----- search's choice of a box -----

  /** The boxes of xs with more than one candidate left, in order. */
  function Open(b: Board, xs: seq<Box>): (r: seq<Box>)
    ensures forall x :: x in r <==> x in xs && x in b && |b[x]| > 1
  {
    if xs == [] then []
    else
      Open(b, xs[..|xs| - 1]) + (if xs[|xs| - 1] in b && |b[xs[|xs| - 1]]| > 1 then [xs[|xs| - 1]] else [])
  }

  /** The boxes still open, in row-major order. */
  function Unfilled(b: Board): (r: seq<Box>)
    ensures forall x :: x in r <==> x in Boxes() && x in b && |b[x]| > 1
  {
    Open(b, Boxes())
  }

  /** The boxes of xs that are open with exactly m candidates, in order. */
  function OfSize(b: Board, xs: seq<Box>, m: nat): (r: seq<Box>)
    ensures forall x :: x in r <==> x in xs && x in b && |b[x]| > 1 && |b[x]| == m
  {
    if xs == [] then []
    else
      OfSize(b, xs[..|xs| - 1], m) + (if xs[|xs| - 1] in b && |b[xs[|xs| - 1]]| > 1 && |b[xs[|xs| - 1]]| == m then [xs[|xs| - 1]] else [])
  }

  /** OfSize is the list comprehension with the test `len(values[x]) == m`. */
  lemma {:induction false} OfSizeFilter(b: Board, xs: seq<Box>, m: nat, p: Box -> bool)
    requires forall x :: p(x) == (x in b && |b[x]| > 1 && |b[x]| == m)
    ensures OfSize(b, xs, m) == Filter(xs, p)
  {
    if xs != [] {
      OfSizeFilter(b, xs[..|xs| - 1], m, p);
    }
  }

  /** When some open box has m candidates, the first box listed is the first such box in row-major order. */
  lemma OfSizeHead(b: Board, m: nat, w: Box)
    requires w in Unfilled(b) && |b[w]| == m
    ensures OfSize(b, Boxes(), m) != []
    ensures forall i, j :: 0 <= i < j < |Boxes()| && Boxes()[j] == OfSize(b, Boxes(), m)[0] && Boxes()[i] in b ==>
      !(|b[Boxes()[i]]| > 1 && |b[Boxes()[i]]| == m)
  {
    assert w in OfSize(b, Boxes(), m);
    var p := x => x in b && |b[x]| > 1 && |b[x]| == m;
    OfSizeFilter(b, Boxes(), m, p);
    BoxesFacts();
    FilterHead(Boxes(), p);
  }

  /** The smallest candidate count among the listed boxes. */
  function MinSize(b: Board, xs: seq<Box>): (m: nat)
    requires xs != [] && forall x :: x in xs ==> x in b
    ensures exists x :: x in xs && |b[x]| == m
    ensures forall x :: x in xs ==> m <= |b[x]|
  {
    if |xs| == 1 then |b[xs[0]]|
    else
      var m := MinSize(b, xs[1..]);
      assert forall x :: x in xs ==> x == xs[0] || x in xs[1..];
      if |b[xs[0]]| <= m then |b[xs[0]]| else m
  }

  /**
    The open boxes with the fewest candidates, in row-major order. The
    source filters the open boxes again for the minimum; filtering the boxes
    once for both conditions gives the same list.
   */
  function Minima(b: Board): (r: seq<Box>)
    requires Unfilled(b) != []
    ensures r != []
    ensures forall x :: x in r <==> x in Unfilled(b) && |b[x]| == MinSize(b, Unfilled(b))
    ensures forall i, j :: 0 <= i < j < |Boxes()| && Boxes()[j] == r[0] && Boxes()[i] in b ==>
      !(|b[Boxes()[i]]| > 1 && |b[Boxes()[i]]| == MinSize(b, Unfilled(b)))
  {
    var m := MinSize(b, Unfilled(b));
    var w :| w in Unfilled(b) && |b[w]| == m;
    OfSizeHead(b, m, w);
    OfSize(b, Boxes(), m)
  }

  /** The box search branches on. */
  function ChooseBox(b: Board): Box
    requires Unfilled(b) != []
  {
    Minima(b)[0]
  }

  /**
    The chosen box is open, no open box has fewer candidates, and every open
    box before it in row-major order has more.
   */
  lemma ChooseBoxSpec(b: Board)
    requires Unfilled(b) != []
    ensures ChooseBox(b) in b && |b[ChooseBox(b)]| >= 2
    ensures forall x :: x in Unfilled(b) ==> |b[ChooseBox(b)]| <= |b[x]|
    ensures forall i, j :: 0 <= i < j < |Boxes()| && Boxes()[j] == ChooseBox(b) && Boxes()[i] in b && |b[Boxes()[i]]| > 1 ==>
      |b[ChooseBox(b)]| < |b[Boxes()[i]]|
  {
    var m := MinSize(b, Unfilled(b));
    assert Minima(b)[0] in Minima(b);
    forall i | 0 <= i < |Boxes()| && Boxes()[i] in b && |b[Boxes()[i]]| > 1 ensures m <= |b[Boxes()[i]]| {
      assert Boxes()[i] in Unfilled(b);
    }
  }

  /** The candidates of a box from digit d up, in increasing order. */
  function DigitsFrom(c: Cands, d: int): seq<Digit>
    requires 1 <= d <= 10
    decreases 10 - d
  {
    if d == 10 then [] else (if d in c then [d as Digit] else []) + DigitsFrom(c, d + 1)
  }

  lemma {:induction false} DigitsFromMembers(c: Cands, d: int)
    requires 1 <= d <= 10
    ensures forall x :: x in DigitsFrom(c, d) <==> x in c && d <= x
    decreases 10 - d
  {
    if d < 10 {
      DigitsFromMembers(c, d + 1);
      var head: seq<Digit> := if d in c then [d as Digit] else [];
      assert DigitsFrom(c, d) == head + DigitsFrom(c, d + 1);
      forall x: Digit
        ensures x in DigitsFrom(c, d) <==> x in c && d <= x
      {
        if x == d {
          assert x !in DigitsFrom(c, d + 1);
        } else {
          assert x !in head;
        }
      }
    }
  }

  lemma {:induction false} DigitsFromSorted(c: Cands, d: int)
    requires 1 <= d <= 10
    ensures forall i, j :: 0 <= i < j < |DigitsFrom(c, d)| ==> DigitsFrom(c, d)[i] < DigitsFrom(c, d)[j]
    decreases 10 - d
  {
    if d < 10 {
      DigitsFromSorted(c, d + 1);
      DigitsFromMembers(c, d + 1);
      var rest := DigitsFrom(c, d + 1);
      assert forall i :: 0 <= i < |rest| ==> rest[i] in rest;
    }
  }

  /** The alternatives search tries for a box: its candidates in the order of the candidate string. */
  function Ascending(c: Cands): seq<Digit> {
    DigitsFrom(c, 1)
  }

  /** Every candidate is tried, and nothing else. */
  lemma AscendingMembers(c: Cands)
    ensures forall x :: x in Ascending(c) <==> x in c
  {
    DigitsFromMembers(c, 1);
  }

  /** The alternative at position i is a candidate. */
  lemma AscendingAt(c: Cands, i: nat)
    requires i < |Ascending(c)|
    ensures Ascending(c)[i] in c
  {
    AscendingMembers(c);
    assert Ascending(c)[i] in Ascending(c);
  }

  /** The alternatives come in increasing order. */
  lemma AscendingSorted(c: Cands)
    ensures forall i, j :: 0 <= i < j < |Ascending(c)| ==> Ascending(c)[i] < Ascending(c)[j]
  {
    DigitsFromSorted(c, 1);
  }
}
