/**
 The search heuristics of heuristics.py, each a count over the digit grid of the node's state
 (0 for blank), related to the values and goal tests of the two formulations it guides.
 */
module Heuristics {
  import opened Seqs
  import opened Grid
  import opened Utils
  import Sudoku
  import Filled

  /** Indicator of the blank cells. */
  function BlankIndicator(s: seq<int>): (r: seq<int>)
    requires |s| == 81
    ensures |r| == 81 && forall p :: 0 <= p < 81 ==> r[p] == if s[p] == 0 then 1 else 0
  {
    seq(81, p requires 0 <= p < 81 => if s[p] == 0 then 1 else 0)
  }

  /** `remaining_blanks`: the number of zeros (the code after the first `return` never runs).
      It is zero exactly at the goal of the digit-assignment formulation. */
  function RemainingBlanks(s: seq<int>): (r: nat)
    requires |s| == 81
    ensures r == Sum(BlankIndicator(s))
    ensures r == 0 <==> Sudoku.GoalTest(s)
  {
    OccIsIndicatorSum(0, s, BlankIndicator(s));
    OccMember(0, s);
    Occ(0, s)
  }

  /** `remaining_possibilities`: the legal digits of all blank cells. It is the complement of
      `Sudoku.value` in 729, at most nine per blank, and zero on a grid without blanks. */
  function RemainingPossibilities(s: seq<int>): (r: int)
    requires |s| == 81
    ensures r + Sudoku.Value(s) == 729
    ensures 0 <= r <= 9 * RemainingBlanks(s)
    ensures Sudoku.GoalTest(s) ==> r == 0
  {
    var terms, blanks := Sudoku.PossibilityTerms(s), BlankIndicator(s);
    var nines := seq(81, p requires 0 <= p < 81 => 9 * blanks[p]);
    SumLe(terms, nines);
    SumScale(blanks, nines, 9);
    SumZeroIff(terms);
    Sum(terms)
  }

  /** Indicator of the blank cells with more than one legal digit. */
  function NonInferableIndicator(s: seq<int>): (r: seq<int>)
    requires |s| == 81
    ensures |r| == 81
    ensures forall p :: 0 <= p < 81 ==> r[p] == if s[p] == 0 && CountPossibilities(s, p / 9, p % 9) > 1 then 1 else 0
  {
    seq(81, p requires 0 <= p < 81 => if s[p] == 0 && CountPossibilities(s, p / 9, p % 9) > 1 then 1 else 0)
  }

  /** `non_inferable_cells`: the blank cells with more than one legal digit. Each is a blank
      and contributes at least two possibilities, so the count is bounded by the blanks and by
      half the remaining possibilities. */
  function NonInferableCells(s: seq<int>): (r: int)
    requires |s| == 81
    ensures 0 <= r <= RemainingBlanks(s)
    ensures 2 * r <= RemainingPossibilities(s)
  {
    var ind, blanks, terms := NonInferableIndicator(s), BlankIndicator(s), Sudoku.PossibilityTerms(s);
    var twice := seq(81, p requires 0 <= p < 81 => 2 * ind[p]);
    SumZeroIff(ind);
    SumLe(ind, blanks);
    SumScale(ind, twice, 2);
    SumLe(twice, terms);
    Sum(ind)
  }

  /** 2 to the power `n`. */
  function Pow2(n: nat): (r: nat)
    ensures 1 <= r && (n > 0 ==> 2 <= r)
  {
    if n == 0 then 1 else 2 * Pow2(n - 1)
  }

  /** The terms of `remaining_lines`: 2 to the number of blanks of each row. */
  function LineTerms(s: seq<int>): (r: seq<int>)
    requires |s| == 81
    ensures |r| == 9 && forall i :: 0 <= i < 9 ==> r[i] == Pow2(Occ(0, Row(s, i)))
  {
    seq(9, i requires 0 <= i < 9 => Pow2(Occ(0, Row(s, i))))
  }

  /** Each row term is at least 1; a row with a blank makes its term larger. */
  lemma LineTermsSum(s: seq<int>)
    requires |s| == 81
    ensures 9 <= Sum(LineTerms(s))
    ensures Sum(LineTerms(s)) == 9 <==> 0 !in s
  {
    var terms, ones := LineTerms(s), seq(9, i requires 0 <= i < 9 => 1);
    SumLe(ones, terms);
    SumConst(ones, 1);
    if 0 in s {
      var p :| 0 <= p < 81 && s[p] == 0;
      CellInUnits(s, p);
      OccMember(0, Row(s, p / 9));
      SumLt(ones, terms, p / 9);
    } else {
      forall i | 0 <= i < 9 ensures terms[i] == 1 {
        OccMember(0, Row(s, i));
      }
      assert terms == ones;
    }
  }

  /** `remaining_lines`: the sum over the rows of 2 to the row's number of blanks. Every row
      contributes at least 1, so the value is at least 9, and it is 9 exactly when no blank is
      left. */
  function RemainingLines(s: seq<int>): (r: int)
    requires |s| == 81
    ensures 9 <= r
    ensures r == 9 <==> 0 !in s
  {
    LineTermsSum(s);
    Sum(LineTerms(s))
  }

  /** `conflicts`: the conflict terms of all 81 cells, the same terms `FilledSudoku.value`
      counts on its unfrozen cells. It is non-negative and zero exactly at the goal of the
      swap formulation. */
  function Conflicts(s: seq<int>): (r: int)
    requires |s| == 81
    ensures 0 <= r
    ensures r == 0 <==> Filled.GoalTest(s)
  {
    var terms := Filled.ConflictTerms([], s);
    SumZeroIff(terms);
    Filled.GoalIffNoConflicts(s);
    Sum(terms)
  }

  /** `FilledSudoku.value` subtracts from 324 the terms of a subset of the cells `conflicts`
      sums, so the conflicts bound the value's shortfall from 324. */
  lemma ConflictsBoundValue(frozen: seq<int>, s: seq<int>)
    requires |s| == 81
    ensures Conflicts(s) >= 324 - Filled.Value(frozen, s)
  {
    var part, all := Filled.ConflictTerms(frozen, s), Filled.ConflictTerms([], s);
    SumLe(part, all);
  }
}
