/**
 The candidate-set formulation (`NormalizedSudoku` in sudoku.py): a state is 81 candidate
 sets kept stable by `normalize_state`, an action fixes one undecided cell to one of its
 candidates and re-normalizes, and the goal is a grid of singletons.
 */
module Normalized {
  import opened Seqs
  import opened Grid
  import opened Propagation
  import Utils
  import Sudoku

  /** The digits 1..9, the candidates of a blank cell. */
  function Digits(): set<int>
  {
    {1, 2, 3, 4, 5, 6, 7, 8, 9}
  }

  /** Every cell holds at least one candidate. */
  predicate NonEmpty(s: seq<set<int>>)
  {
    forall q :: 0 <= q < |s| ==> s[q] != {}
  }

  /** The candidate grid before propagation: all nine digits for a blank, `{k}` for a given `k`.
      A cell is a singleton exactly when it holds a given. */
  function Initial(puzzle: seq<int>): (r: seq<set<int>>)
    requires |puzzle| == 81
    ensures |r| == 81 && NonEmpty(r)
    ensures forall q :: 0 <= q < 81 ==> (|r[q]| == 1 <==> puzzle[q] != 0)
    ensures forall q :: 0 <= q < 81 && puzzle[q] != 0 ==> r[q] == {puzzle[q]}
    ensures forall q :: 0 <= q < 81 && puzzle[q] == 0 ==> r[q] == Digits()
  {
    assert |Digits()| == 9;
    seq(81, q requires 0 <= q < 81 => if puzzle[q] == 0 then Digits() else {puzzle[q]})
  }

  /** `g` is a completed grid of digits 1..9 without a repeated digit in any row, column or
      box that keeps every given of `puzzle`: a solution of the puzzle. */
  predicate Completes(puzzle: seq<int>, g: seq<int>)
    requires |puzzle| == 81
  {
    |g| == 81 && Utils.Consistent(g) &&
    forall q :: 0 <= q < 81 ==> 1 <= g[q] <= 9 && (puzzle[q] != 0 ==> g[q] == puzzle[q])
  }

  /** `NormalizedSudoku.__init__`: the initial candidate grid, normalized. Every cell keeps a
      candidate and only loses candidates, every given stays decided, and no singleton is left
      strictly inside a peer. Every candidate dropped from the initial grid is the digit of a
      singleton peer, and every solution of the puzzle is still admitted. */
  method NewNormalized(puzzle: seq<int>) returns (st: seq<set<int>>)
    requires |puzzle| == 81
    ensures |st| == 81 && NonEmpty(st)
    ensures forall q :: 0 <= q < 81 ==> st[q] <= Initial(puzzle)[q]
    ensures forall q :: 0 <= q < 81 && puzzle[q] != 0 ==> st[q] == {puzzle[q]}
    ensures Stable(st)
    ensures Justified(Initial(puzzle), st)
    ensures forall g :: Completes(puzzle, g) ==> Solution(st, g)
  {
    var init := Initial(puzzle);
    st := Normalize(init);
    forall q | 0 <= q < 81 ensures st[q] != {} {
      assert CellRefines(init[q], st[q]);
    }
    forall g | Completes(puzzle, g) ensures Solution(init, g) {
      forall q | 0 <= q < 81 ensures g[q] in init[q] {
        if puzzle[q] == 0 {
          assert 1 <= g[q] <= 9 && init[q] == Digits();
        }
      }
    }
  }

  /** `NormalizedSudoku.actions`: each candidate of each undecided cell. The frozenset
      iteration order of the source is not modelled, so the actions form a set. */
  function Actions(s: seq<set<int>>): (r: set<Sudoku.Assign>)
    requires |s| == 81
    ensures forall a :: a in r <==> Sudoku.InRange(a) && |s[Sudoku.Cell(a)]| > 1 && a.k in s[Sudoku.Cell(a)]
  {
    var r := set p, k | 0 <= p < 81 && k in s[p] && |s[p]| > 1 :: Sudoku.At(p, k);
    forall a | Sudoku.InRange(a) && |s[Sudoku.Cell(a)]| > 1 && a.k in s[Sudoku.Cell(a)] ensures a in r {
      Sudoku.AtCell(a);
    }
    r
  }

  /** The sizes of the cells. */
  function Sizes(s: seq<set<int>>): (r: seq<int>)
    ensures |r| == |s| && forall q :: 0 <= q < |s| ==> r[q] == |s[q]|
  {
    seq(|s|, q requires 0 <= q < |s| => |s[q]|)
  }

  /** A grid of non-empty cells holds at least one candidate per cell. */
  lemma SizesAtLeastOne(s: seq<set<int>>)
    requires |s| == 81
    ensures NonEmpty(s) ==> 81 <= Sum(Sizes(s))
  {
    if NonEmpty(s) {
      var sizes, ones := Sizes(s), seq(81, q requires 0 <= q < 81 => 1);
      forall q | 0 <= q < 81 ensures ones[q] <= sizes[q] {
        assert s[q] != {};
      }
      SumLe(ones, sizes);
      SumConst(ones, 1);
    }
  }

  /** `NormalizedSudoku.value`: the total number of candidates. Nothing is subtracted, so a grid
      of non-empty cells is worth at least 81. */
  function Value(s: seq<set<int>>): (r: int)
    requires |s| == 81
    ensures 0 <= r
    ensures NonEmpty(s) ==> 81 <= r
  {
    SumZeroIff(Sizes(s));
    SizesAtLeastOne(s);
    Sum(Sizes(s))
  }

  /** `NormalizedSudoku.goal_test`: every cell is a singleton. */
  predicate GoalTest(s: seq<set<int>>)
  {
    forall q :: 0 <= q < |s| ==> |s[q]| == 1
  }

  /** On a grid of non-empty cells, the goal is reached exactly when the value is 81. */
  lemma GoalIffValue81(s: seq<set<int>>)
    requires |s| == 81 && NonEmpty(s)
    ensures GoalTest(s) <==> Value(s) == 81
  {
    var sizes, ones := Sizes(s), seq(81, q requires 0 <= q < 81 => 1);
    SumConst(ones, 1);
    forall q | 0 <= q < 81 ensures ones[q] <= sizes[q] {
      assert s[q] != {};
    }
    if GoalTest(s) {
      assert sizes == ones;
    } else {
      var q :| 0 <= q < 81 && |s[q]| != 1;
      assert s[q] != {};
      SumLt(ones, sizes, q);
    }
  }

  /** A refinement that strictly shrinks one cell strictly lowers the value. */
  lemma RefinesLowersValue(s: seq<set<int>>, r: seq<set<int>>, c: int)
    requires |s| == 81 && Refines(s, r) && 0 <= c < 81 && |r[c]| < |s[c]|
    ensures Value(r) < Value(s)
  {
    var a, b := Sizes(r), Sizes(s);
    forall q | 0 <= q < 81 ensures a[q] <= b[q] {
      assert CellRefines(s[q], r[q]);
      SubsetCard(r[q], s[q]);
    }
    SumLt(a, b, c);
  }

  /** `NormalizedSudoku.result`: cell (i, j) is fixed to `{k}` and the grid re-normalized. The
      fixed cell keeps `{k}`, every other cell only loses candidates, non-empty cells stay
      non-empty, the result is stable, and an offered action strictly lowers the value. Every
      other candidate dropped is the digit of a singleton peer, and every completed grid the
      state admits with digit `k` at (i, j) is still admitted. */
  method Result(s: seq<set<int>>, a: Sudoku.Assign) returns (r: seq<set<int>>)
    requires |s| == 81 && Sudoku.InRange(a)
    ensures |r| == 81 && r[Sudoku.Cell(a)] == {a.k}
    ensures forall q :: 0 <= q < 81 && q != Sudoku.Cell(a) ==> r[q] <= s[q]
    ensures NonEmpty(s) ==> NonEmpty(r)
    ensures Stable(r)
    ensures a in Actions(s) ==> Value(r) < Value(s)
    ensures Justified(s[Sudoku.Cell(a) := {a.k}], r)
    ensures forall g :: Solution(s, g) && g[Sudoku.Cell(a)] == a.k ==> Solution(r, g)
  {
    var c := Sudoku.Cell(a);
    var fixed := s[c := {a.k}];
    forall g | Solution(s, g) && g[c] == a.k ensures Solution(fixed, g) {
    }
    r := Normalize(fixed);
    assert CellRefines(fixed[c], r[c]);
    forall q | 0 <= q < 81 && q != c ensures r[q] <= s[q] {
      assert CellRefines(fixed[q], r[q]);
    }
    if NonEmpty(s) {
      forall q | 0 <= q < 81 ensures r[q] != {} {
        assert CellRefines(fixed[q], r[q]);
      }
    }
    if a in Actions(s) {
      forall q | 0 <= q < 81 ensures CellRefines(s[q], r[q]) {
        assert CellRefines(fixed[q], r[q]);
        if q == c {
          assert |r[q]| < |s[q]|;
        }
      }
      RefinesLowersValue(s, r, c);
    }
  }
}
