/**
 The permutation-repair formulation (`FilledSudoku` in sudoku.py): the constructor fills every
 blank with the smallest digit its box is missing, a move is three swaps inside three boxes of
 one band, stack or diagonal, and `value` counts duplicates in rows and columns.

 The constructor records `initial_positions`, the cells the moves must avoid and `value` must
 skip. As written that list holds the originally *blank* cells, so the moves permute the givens;
 the model keeps the list as a parameter (`frozen`), builds the problem both as written and with
 the givens frozen, and proves what each choice does.
 */
module Filled {
  import opened Seqs
  import opened Grid
  import opened Utils

  // ---------------------------------------------------------------------------------------
  // Constructor: fill each blank with the smallest digit missing from its box
  // ---------------------------------------------------------------------------------------

  /** Smallest digit in d..9 missing from `v`, or 10 when there is none. */
  function MissingFrom(v: seq<int>, d: int): (r: int)
    requires 1 <= d <= 10
    ensures d <= r <= 10
    ensures r <= 9 ==> r !in v
    ensures forall e :: d <= e < r ==> e in v
    decreases 10 - d
  {
    if d == 10 || d !in v then d else MissingFrom(v, d + 1)
  }

  /** `setdiff1d(arange(1, 10), square)[0]` for a square that still holds a blank: the smallest
      digit the square is missing, which exists because a blank leaves at most eight digits. */
  function MinMissing(v: seq<int>): (r: int)
    requires |v| == 9 && 0 in v
    ensures 1 <= r <= 9 && r !in v
    ensures forall d :: 1 <= d < r ==> d in v
  {
    DigitMissingBesideZero(v);
    MissingFrom(v, 1)
  }

  /** Cell `q` holds a digit and every smaller digit is present in its box. */
  predicate SmallestInBox(s: seq<int>, q: int)
    requires |s| == 81 && 0 <= q < 81
  {
    1 <= s[q] <= 9 && forall d :: 1 <= d < s[q] ==> d in Square(s, q / 9, q % 9)
  }

  /** Overwriting a blank keeps every digit a box holds. */
  lemma WriteBlankKeepsDigit(s: seq<int>, p: int, m: int, b: int, d: int)
    requires |s| == 81 && 0 <= p < 81 && 0 <= b < 9 && s[p] == 0 && d != 0
    requires d in Box(s, b)
    ensures d in Box(s[p := m], b)
  {
    BoxAfterWrite(s, p, m, b);
    var t :| 0 <= t < 9 && Box(s, b)[t] == d;
    if b == BoxOf(p) {
      BoxCellOf(p);
      assert t != BoxIndex(p);
      assert Box(s[p := m], b)[t] == d;
    }
  }

  /** Writing a digit the box lacks into a blank of that box keeps the box free of repeats. */
  lemma WriteMissingKeepsDistinct(s: seq<int>, p: int, m: int, b: int)
    requires |s| == 81 && 0 <= p < 81 && 0 <= b < 9 && s[p] == 0
    requires m !in Box(s, BoxOf(p)) && NoRepeatNonZero(Box(s, b))
    ensures NoRepeatNonZero(Box(s[p := m], b))
  {
    BoxAfterWrite(s, p, m, b);
    if b == BoxOf(p) {
      BoxCellOf(p);
      var old_, new_ := Box(s, b), Box(s[p := m], b);
      forall x, y | 0 <= x < y < 9 && new_[x] != 0 ensures new_[x] != new_[y] {
        if x == BoxIndex(p) {
          assert new_[y] == old_[y];
        } else if y == BoxIndex(p) {
          assert new_[x] == old_[x];
        }
      }
    }
  }

  /** One step of the fill keeps the earlier fills minimal and makes the new one minimal. */
  lemma FillStep(s: seq<int>, p: int, m: int, q: int)
    requires |s| == 81 && 0 <= p < 81 && 0 <= q < 81 && s[p] == 0
    requires 1 <= m <= 9 && forall d :: 1 <= d < m ==> d in Square(s, p / 9, p % 9)
    requires q == p || SmallestInBox(s, q)
    ensures SmallestInBox(s[p := m], q)
  {
    var t := s[p := m];
    BoxCellOf(q);
    forall d | 1 <= d < t[q] ensures d in Square(t, q / 9, q % 9) {
      assert d in Square(s, q / 9, q % 9);
      WriteBlankKeepsDigit(s, p, m, BoxOf(q), d);
    }
  }

  /** The grid as the row-major walk sees it on reaching cell `q`: the cells before `q` as the
      walk left them in `s`, the others as in `initial`. */
  function FillView(initial: seq<int>, s: seq<int>, q: int): (r: seq<int>)
    requires |initial| == 81 && |s| == 81
    ensures |r| == 81 && forall c :: 0 <= c < 81 ==> r[c] == if c < q then s[c] else initial[c]
  {
    seq(81, c requires 0 <= c < 81 => if c < q then s[c] else initial[c])
  }

  /** Cell `q` holds what the walk writes there: a given is kept, a blank gets the smallest digit
      missing from its box as the box stands when the walk reaches `q`. */
  predicate WalkFilledAt(initial: seq<int>, s: seq<int>, q: int)
    requires |initial| == 81 && |s| == 81 && 0 <= q < 81
  {
    s[q] == if initial[q] != 0 then initial[q] else MissingFrom(Square(FillView(initial, s, q), q / 9, q % 9), 1)
  }

  /** `s` is the grid the constructor's walk produces from `initial`. */
  predicate WalkFilled(initial: seq<int>, s: seq<int>)
    requires |initial| == 81 && |s| == 81
  {
    forall q :: 0 <= q < 81 ==> WalkFilledAt(initial, s, q)
  }

  /** A cell's entry is among the entries of its box. */
  lemma InOwnBox(x: seq<int>, c: int)
    requires |x| == 81 && 0 <= c < 81
    ensures 0 <= BoxOf(c) < 9 && x[c] in Box(x, BoxOf(c))
  {
    BoxCellOf(c);
    assert Box(x, BoxOf(c))[BoxIndex(c)] == x[c];
  }

  /** A blank holds a digit 1..9: the box it sees still holds that blank, so a digit is missing. */
  lemma WalkBlank(initial: seq<int>, s: seq<int>, q: int)
    requires |initial| == 81 && |s| == 81 && WalkFilled(initial, s) && 0 <= q < 81 && initial[q] == 0
    ensures 0 <= BoxOf(q) < 9
    ensures s[q] == MissingFrom(Box(FillView(initial, s, q), BoxOf(q)), 1) && 1 <= s[q] <= 9
  {
    var v := FillView(initial, s, q);
    assert WalkFilledAt(initial, s, q);
    InOwnBox(v, q);
    assert v[q] == 0;
    var x := Box(v, BoxOf(q));
    DigitMissingBesideZero(x);
    var d :| 1 <= d <= 9 && d !in x;
    MissingBelow(x, d);
  }

  /** The smallest missing digit is at most any missing digit. */
  lemma MissingBelow(x: seq<int>, d: int)
    requires 1 <= d <= 9 && d !in x
    ensures MissingFrom(x, 1) <= d
  {
  }

  /** When 1..k all occur, the smallest missing digit is above `k`. */
  lemma MissingAbove(x: seq<int>, k: int)
    requires 0 <= k <= 9 && forall d :: 1 <= d <= k ==> d in x
    ensures MissingFrom(x, 1) > k
  {
  }

  /** A walk-filled blank avoids every given of its box. */
  lemma WalkAvoidsGivens(initial: seq<int>, s: seq<int>, q: int, c: int)
    requires |initial| == 81 && |s| == 81 && WalkFilled(initial, s)
    requires 0 <= q < 81 && 0 <= c < 81 && SameBox(q, c) && initial[q] == 0 && initial[c] != 0
    ensures 1 <= s[q] <= 9 && s[q] != initial[c]
  {
    var v := FillView(initial, s, q);
    WalkBlank(initial, s, q);
    assert WalkFilledAt(initial, s, c);
    InOwnBox(v, c);
    assert v[c] == initial[c];
  }

  /** Within a box, the walk gives the blanks strictly increasing digits in row-major order. */
  lemma WalkIncreasesInBox(initial: seq<int>, s: seq<int>, q: int, q': int)
    requires |initial| == 81 && |s| == 81 && WalkFilled(initial, s)
    requires 0 <= q < q' < 81 && SameBox(q, q') && initial[q] == 0 && initial[q'] == 0
    ensures 1 <= s[q] <= 9 && s[q] < s[q']
  {
    var b := BoxOf(q);
    var w := FillView(initial, s, q');
    WalkBlank(initial, s, q);
    WalkBlank(initial, s, q');
    var x := Box(w, b);
    forall d | 1 <= d <= s[q] ensures d in x {
      if d == s[q] {
        InOwnBox(w, q);
        assert w[q] == s[q];
      } else {
        ViewKeepsDigit(initial, s, q, q', b, d);
      }
    }
    MissingAbove(x, s[q]);
  }

  /** A digit a box shows when the walk reaches `q` is still shown when it reaches a later `q'`. */
  lemma ViewKeepsDigit(initial: seq<int>, s: seq<int>, q: int, q': int, b: int, d: int)
    requires |initial| == 81 && |s| == 81 && WalkFilled(initial, s)
    requires 0 <= q <= q' < 81 && 0 <= b < 9 && d != 0 && d in Box(FillView(initial, s, q), b)
    ensures d in Box(FillView(initial, s, q'), b)
  {
    var v, w := FillView(initial, s, q), FillView(initial, s, q');
    var t :| 0 <= t < 9 && Box(v, b)[t] == d;
    BoxCellInverse(b, t);
    var c := BoxCell(b, t);
    assert v[c] == d;
    if c >= q {
      assert WalkFilledAt(initial, s, c);
    }
    assert w[c] == d;
    InOwnBox(w, c);
  }

  /** The walk leaves no choice: two grids both walk-filled from `initial` agree on every cell
      before `k`. */
  lemma {:induction false} WalkAgrees(initial: seq<int>, s: seq<int>, t: seq<int>, k: int)
    requires |initial| == 81 && |s| == 81 && |t| == 81 && WalkFilled(initial, s) && WalkFilled(initial, t)
    requires 0 <= k <= 81
    ensures forall c :: 0 <= c < k ==> s[c] == t[c]
  {
    if k > 0 {
      WalkAgrees(initial, s, t, k - 1);
      var c := k - 1;
      assert FillView(initial, s, c) == FillView(initial, t, c);
      assert WalkFilledAt(initial, s, c) && WalkFilledAt(initial, t, c);
    }
  }

  /** The walk determines the filled grid. */
  lemma WalkUnique(initial: seq<int>, s: seq<int>, t: seq<int>)
    requires |initial| == 81 && |s| == 81 && |t| == 81 && WalkFilled(initial, s) && WalkFilled(initial, t)
    ensures s == t
  {
    WalkAgrees(initial, s, t, 81);
  }

  /** `FilledSudoku.__init__`: walk the cells row by row and give every originally blank cell the
      smallest digit its box is still missing (the box as already filled). */
  method FillBoxes(initial: seq<int>) returns (s: seq<int>)
    requires |initial| == 81
    ensures |s| == 81 && 0 !in s
    ensures forall q :: 0 <= q < 81 && initial[q] != 0 ==> s[q] == initial[q]
    ensures forall q :: 0 <= q < 81 && initial[q] == 0 ==> SmallestInBox(s, q)
    ensures WalkFilled(initial, s)
    ensures forall b :: 0 <= b < 9 && NoRepeatNonZero(Box(initial, b)) ==> NoRepeatNonZero(Box(s, b))
    ensures forall b :: 0 <= b < 9 && IsDigitGrid(initial) && NoRepeatNonZero(Box(initial, b)) ==>
              forall d :: 1 <= d <= 9 ==> d in Box(s, b)
    ensures forall b :: 0 <= b < 9 && NoRepeatNonZero(Box(initial, b)) ==> NoRepeat(Box(s, b))
  {
    s := initial;
    var p := 0;
    while p < 81
      invariant 0 <= p <= 81 && FillInvariant(initial, s, p)
    {
      if initial[p] == 0 {
        CellInUnits(s, p);
        var m := MinMissing(Square(s, p / 9, p % 9));
        FillAdvance(initial, s, p, m);
        s := s[p := m];
      }
      p := p + 1;
    }
    forall b | 0 <= b < 9 && IsDigitGrid(initial) && NoRepeatNonZero(Box(initial, b))
      ensures forall d :: 1 <= d <= 9 ==> d in Box(s, b)
    {
      FilledBoxIsPermutation(initial, s, b);
    }
    forall b | 0 <= b < 9 && NoRepeatNonZero(Box(initial, b)) ensures NoRepeat(Box(s, b)) {
      FullBoxNoRepeat(s, b);
    }
  }

  /** A box with no blank that repeats no non-zero value repeats nothing at all. */
  lemma FullBoxNoRepeat(s: seq<int>, b: int)
    requires |s| == 81 && 0 !in s && 0 <= b < 9 && NoRepeatNonZero(Box(s, b))
    ensures NoRepeat(Box(s, b))
  {
    forall t | 0 <= t < 9 ensures Box(s, b)[t] != 0 {
      BoxCellInverse(b, t);
    }
  }

  /** What the walk has established on reaching cell `p`: the cells from `p` on and the givens
      are untouched, every earlier blank holds the walk's digit, which is also the smallest
      missing from its box, and boxes free of repeats stay so. */
  predicate FillInvariant(initial: seq<int>, s: seq<int>, p: int)
    requires |initial| == 81
  {
    |s| == 81 &&
    (forall q :: 0 <= q < 81 && (p <= q || initial[q] != 0) ==> s[q] == initial[q]) &&
    (forall q :: 0 <= q < 81 && q < p && initial[q] == 0 ==> SmallestInBox(s, q)) &&
    (forall q :: 0 <= q < 81 && q < p ==> WalkFilledAt(initial, s, q)) &&
    (forall b :: 0 <= b < 9 && NoRepeatNonZero(Box(initial, b)) ==> NoRepeatNonZero(Box(s, b)))
  }

  /** Writing the smallest missing digit into the blank at `p` advances the walk by one cell. */
  lemma FillAdvance(initial: seq<int>, s: seq<int>, p: int, m: int)
    requires |initial| == 81 && 0 <= p < 81 && FillInvariant(initial, s, p) && initial[p] == 0
    requires 1 <= m <= 9 && m !in Square(s, p / 9, p % 9)
    requires forall d :: 1 <= d < m ==> d in Square(s, p / 9, p % 9)
    requires m == MissingFrom(Square(s, p / 9, p % 9), 1)
    ensures FillInvariant(initial, s[p := m], p + 1)
  {
    BoxCellOf(p);
    assert Square(s, p / 9, p % 9) == Box(s, BoxOf(p));
    forall q | 0 <= q <= p && initial[q] == 0 ensures SmallestInBox(s[p := m], q) {
      FillStep(s, p, m, q);
    }
    forall b | 0 <= b < 9 && NoRepeatNonZero(Box(s, b)) ensures NoRepeatNonZero(Box(s[p := m], b)) {
      WriteMissingKeepsDistinct(s, p, m, b);
    }
    WalkStep(initial, s, s[p := m], p, m);
  }

  /** Writing the walk's digit at `p` extends the walk-filled prefix to `p`. */
  lemma WalkStep(initial: seq<int>, s: seq<int>, t: seq<int>, p: int, m: int)
    requires |initial| == 81 && |s| == 81 && 0 <= p < 81 && initial[p] == 0 && t == s[p := m]
    requires forall q :: 0 <= q < 81 && p <= q ==> s[q] == initial[q]
    requires forall q :: 0 <= q < p ==> WalkFilledAt(initial, s, q)
    requires m == MissingFrom(Square(s, p / 9, p % 9), 1)
    ensures forall q :: 0 <= q <= p ==> WalkFilledAt(initial, t, q)
  {
    forall q | 0 <= q <= p ensures WalkFilledAt(initial, t, q) {
      assert FillView(initial, t, q) == FillView(initial, s, q);
      if q == p {
        assert FillView(initial, s, p) == s;
      } else {
        assert WalkFilledAt(initial, s, q);
      }
    }
  }

  /** A filled box whose digits are distinct holds each of 1..9 exactly once. */
  lemma FilledBoxIsPermutation(initial: seq<int>, s: seq<int>, b: int)
    requires IsDigitGrid(initial) && |s| == 81 && 0 <= b < 9
    requires forall q :: 0 <= q < 81 && initial[q] != 0 ==> s[q] == initial[q]
    requires forall q :: 0 <= q < 81 && initial[q] == 0 ==> SmallestInBox(s, q)
    requires NoRepeatNonZero(Box(s, b))
    ensures NoRepeat(Box(s, b)) && forall d :: 1 <= d <= 9 ==> d in Box(s, b)
  {
    var x := Box(s, b);
    forall t | 0 <= t < 9 ensures 1 <= x[t] <= 9 {
      BoxCellInverse(b, t);
    }
    DistinctDigitsCoverAll(x);
  }

  // ---------------------------------------------------------------------------------------
  // The problem and its frozen positions
  // ---------------------------------------------------------------------------------------

  /** The cells from `q` on that are blank (`blank`) or given (`!blank`), in increasing order. */
  function CellsWhere(s: seq<int>, q: int, blank: bool): (r: seq<int>)
    requires |s| == 81 && 0 <= q <= 81
    ensures forall c :: c in r <==> q <= c < 81 && (s[c] == 0) == blank
    ensures Increasing(r)
    decreases 81 - q
  {
    if q == 81 then []
    else
      var rest := CellsWhere(s, q + 1, blank);
      if (s[q] == 0) == blank then
        var r := [q] + rest;
        assert forall b :: 0 < b < |r| ==> r[b] == rest[b - 1] && r[b] in rest;
        r
      else rest
  }

  /** `zip(*np.where(state == 0))`: the blank cells, row-major. */
  function BlankPositions(s: seq<int>): (r: seq<int>)
    requires |s| == 81
    ensures forall q :: q in r <==> 0 <= q < 81 && s[q] == 0
    ensures Increasing(r)
  {
    CellsWhere(s, 0, true)
  }

  /** The given (non-blank) cells, row-major. */
  function GivenPositions(s: seq<int>): (r: seq<int>)
    requires |s| == 81
    ensures forall q :: q in r <==> 0 <= q < 81 && s[q] != 0
    ensures Increasing(r)
  {
    CellsWhere(s, 0, false)
  }

  /** A `FilledSudoku` instance: the filled start grid, and the cells (`initial_positions`) that
      the moves must leave alone and `value` must skip. */
  datatype Problem = Problem(initial: seq<int>, frozen: seq<int>)

  /** The constructor as written: the grid is filled by the row-major walk, and the frozen list
      is the list of originally blank cells. */
  method NewFilledSudoku(puzzle: seq<int>) returns (pr: Problem)
    requires |puzzle| == 81
    ensures |pr.initial| == 81 && 0 !in pr.initial
    ensures forall q :: 0 <= q < 81 && puzzle[q] != 0 ==> pr.initial[q] == puzzle[q]
    ensures WalkFilled(puzzle, pr.initial)
    ensures forall b :: 0 <= b < 9 && NoRepeatNonZero(Box(puzzle, b)) ==> NoRepeatNonZero(Box(pr.initial, b))
    ensures forall b :: 0 <= b < 9 && IsDigitGrid(puzzle) && NoRepeatNonZero(Box(puzzle, b)) ==>
              forall d :: 1 <= d <= 9 ==> d in Box(pr.initial, b)
    ensures forall b :: 0 <= b < 9 && NoRepeatNonZero(Box(puzzle, b)) ==> NoRepeat(Box(pr.initial, b))
    ensures forall q :: q in pr.frozen <==> 0 <= q < 81 && puzzle[q] == 0
  {
    var filled := FillBoxes(puzzle);
    pr := Problem(filled, BlankPositions(puzzle));
  }

  /** The constructor with the evidently intended frozen list, the given cells; the grid is
      filled by the same walk. */
  method NewRepairProblem(puzzle: seq<int>) returns (pr: Problem)
    requires |puzzle| == 81
    ensures |pr.initial| == 81 && 0 !in pr.initial
    ensures forall q :: 0 <= q < 81 && puzzle[q] != 0 ==> pr.initial[q] == puzzle[q]
    ensures WalkFilled(puzzle, pr.initial)
    ensures forall b :: 0 <= b < 9 && NoRepeatNonZero(Box(puzzle, b)) ==> NoRepeatNonZero(Box(pr.initial, b))
    ensures forall b :: 0 <= b < 9 && IsDigitGrid(puzzle) && NoRepeatNonZero(Box(puzzle, b)) ==>
              forall d :: 1 <= d <= 9 ==> d in Box(pr.initial, b)
    ensures forall b :: 0 <= b < 9 && NoRepeatNonZero(Box(puzzle, b)) ==> NoRepeat(Box(pr.initial, b))
    ensures forall q :: q in pr.frozen <==> 0 <= q < 81 && puzzle[q] != 0
  {
    var filled := FillBoxes(puzzle);
    pr := Problem(filled, GivenPositions(puzzle));
  }

  // ---------------------------------------------------------------------------------------
  // Moves
  // ---------------------------------------------------------------------------------------

  /** A swap of two cells. */
  datatype Pair = Pair(x: int, y: int)

  /** The boxes of a move's three swaps, in enumeration order: for i = 0, 1, 2 the row band
      (boxes 3i, 3i+1, 3i+2) and then the column stack (i, i+3, i+6); then the main diagonal and
      the anti-diagonal (`mutable_positions[2-j][j]`). */
  const Groupings: seq<seq<int>> :=
    [[0, 1, 2], [0, 3, 6], [3, 4, 5], [1, 4, 7], [6, 7, 8], [2, 5, 8], [0, 4, 8], [6, 4, 2]]

  /** The cells of box `b` that are not frozen, row-major. */
  function MutableCells(frozen: seq<int>, b: int): (r: seq<int>)
    requires 0 <= b < 9
    ensures forall q :: q in r <==> 0 <= q < 81 && BoxOf(q) == b && q !in frozen
    ensures Increasing(r)
  {
    BoxCellsMembers(b);
    Select(BoxCells(b), q => q !in frozen)
  }

  /** The pairs of `c` with each entry of `rest`, in order. */
  function HeadPairs(c: int, rest: seq<int>): (r: seq<Pair>)
    ensures forall pr :: pr in r <==> pr.x == c && pr.y in rest
  {
    var r := seq(|rest|, t requires 0 <= t < |rest| => Pair(c, rest[t]));
    assert forall t :: 0 <= t < |rest| ==> r[t] == Pair(c, rest[t]);
    r
  }

  /** `combinations(cells, 2)`: every pair of entries, the earlier entry first. */
  function Combos(cells: seq<int>): seq<Pair>
    decreases |cells|
  {
    if cells == [] then [] else HeadPairs(cells[0], cells[1..]) + Combos(cells[1..])
  }

  /** For an increasing list, the pairs are exactly the two-element subsets, smaller cell first. */
  lemma {:induction false} CombosMembers(cells: seq<int>)
    requires Increasing(cells)
    ensures forall pr :: pr in Combos(cells) <==> pr.x in cells && pr.y in cells && pr.x < pr.y
    decreases |cells|
  {
    if cells != [] {
      var rest := cells[1..];
      CombosMembers(rest);
      assert forall q :: q in cells <==> q == cells[0] || q in rest;
      assert forall q :: q in rest ==> cells[0] < q;
    }
  }

  /** The moves pairing one swap `a` with the swaps of `b` and `c`, in product order. */
  function ProductWith(a: Pair, b: seq<Pair>, c: seq<Pair>): seq<seq<Pair>>
    decreases |b|
  {
    if b == [] then []
    else seq(|c|, k requires 0 <= k < |c| => [a, b[0], c[k]]) + ProductWith(a, b[1..], c)
  }

  /** `reduce(product, [a, b, c])`: every triple of one swap from each list, first list outermost. */
  function Product3(a: seq<Pair>, b: seq<Pair>, c: seq<Pair>): seq<seq<Pair>>
    decreases |a|
  {
    if a == [] then [] else ProductWith(a[0], b, c) + Product3(a[1..], b, c)
  }

  lemma {:induction false} ProductWithMembers(a: Pair, b: seq<Pair>, c: seq<Pair>)
    ensures forall m :: m in ProductWith(a, b, c) <==> |m| == 3 && m[0] == a && m[1] in b && m[2] in c
    decreases |b|
  {
    if b != [] {
      ProductWithMembers(a, b[1..], c);
      var here := seq(|c|, k requires 0 <= k < |c| => [a, b[0], c[k]]);
      forall m: seq<Pair> | |m| == 3 && m[0] == a && m[1] in b && m[2] in c ensures m in ProductWith(a, b, c) {
        if m[1] == b[0] {
          var k :| 0 <= k < |c| && c[k] == m[2];
          assert here[k] == m;
        } else {
          assert m[1] in b[1..];
        }
      }
    }
  }

  lemma {:induction false} Product3Members(a: seq<Pair>, b: seq<Pair>, c: seq<Pair>)
    ensures forall m :: m in Product3(a, b, c) <==> |m| == 3 && m[0] in a && m[1] in b && m[2] in c
    decreases |a|
  {
    if a != [] {
      Product3Members(a[1..], b, c);
      ProductWithMembers(a[0], b, c);
      forall m: seq<Pair> | |m| == 3 && m[0] in a && m[1] in b && m[2] in c ensures m in Product3(a, b, c) {
        if m[0] != a[0] {
          assert m[0] in a[1..];
        }
      }
    }
  }

  /** The boxes of grouping `g`, as a triple. */
  function GroupBoxes(g: int): (bs: seq<int>)
    requires 0 <= g < 8
    ensures |bs| == 3 && forall t :: 0 <= t < 3 ==> 0 <= bs[t] < 9
    ensures bs[0] != bs[1] && bs[0] != bs[2] && bs[1] != bs[2]
  {
    Groupings[g]
  }

  /** The moves of grouping `g`. */
  function GroupMoves(frozen: seq<int>, g: int): seq<seq<Pair>>
    requires 0 <= g < 8
  {
    var bs := GroupBoxes(g);
    Product3(Combos(MutableCells(frozen, bs[0])), Combos(MutableCells(frozen, bs[1])), Combos(MutableCells(frozen, bs[2])))
  }

  /** Pair `pr` swaps two distinct non-frozen cells of box `b`, the smaller cell first. */
  predicate SwapIn(frozen: seq<int>, pr: Pair, b: int)
  {
    0 <= pr.x < pr.y < 81 && BoxOf(pr.x) == b && BoxOf(pr.y) == b && pr.x !in frozen && pr.y !in frozen
  }

  /** `m` is a move of grouping `g`: one swap in each of the grouping's three boxes. */
  predicate IsMoveOf(frozen: seq<int>, m: seq<Pair>, g: int)
    requires 0 <= g < 8
  {
    var bs := GroupBoxes(g);
    |m| == 3 && SwapIn(frozen, m[0], bs[0]) && SwapIn(frozen, m[1], bs[1]) && SwapIn(frozen, m[2], bs[2])
  }

  predicate IsMove(frozen: seq<int>, m: seq<Pair>)
  {
    exists g :: 0 <= g < 8 && IsMoveOf(frozen, m, g)
  }

  /** The swaps `combinations` offers in box `b` are exactly the swaps of its non-frozen cells. */
  lemma CombosOfBox(frozen: seq<int>, b: int)
    requires 0 <= b < 9
    ensures forall pr :: pr in Combos(MutableCells(frozen, b)) <==> SwapIn(frozen, pr, b)
  {
    CombosMembers(MutableCells(frozen, b));
  }

  lemma GroupMovesMembers(frozen: seq<int>, g: int)
    requires 0 <= g < 8
    ensures forall m :: m in GroupMoves(frozen, g) <==> IsMoveOf(frozen, m, g)
  {
    var bs := GroupBoxes(g);
    CombosOfBox(frozen, bs[0]);
    CombosOfBox(frozen, bs[1]);
    CombosOfBox(frozen, bs[2]);
    Product3Members(Combos(MutableCells(frozen, bs[0])), Combos(MutableCells(frozen, bs[1])), Combos(MutableCells(frozen, bs[2])));
  }

  /** The moves of groupings g..7, in enumeration order. */
  function MovesFrom(frozen: seq<int>, g: int): seq<seq<Pair>>
    requires 0 <= g <= 8
    decreases 8 - g
  {
    if g == 8 then [] else GroupMoves(frozen, g) + MovesFrom(frozen, g + 1)
  }

  lemma {:induction false} MovesFromMembers(frozen: seq<int>, g: int, m: seq<Pair>)
    requires 0 <= g <= 8
    ensures m in MovesFrom(frozen, g) <==> exists h :: g <= h < 8 && IsMoveOf(frozen, m, h)
    decreases 8 - g
  {
    if g < 8 {
      MovesFromMembers(frozen, g + 1, m);
      GroupMovesMembers(frozen, g);
      if exists h :: g <= h < 8 && IsMoveOf(frozen, m, h) {
        var h :| g <= h < 8 && IsMoveOf(frozen, m, h);
        if h != g {
          assert g + 1 <= h < 8 && IsMoveOf(frozen, m, h);
        }
      }
    }
  }

  /** `FilledSudoku.actions`: exactly the triples of in-box swaps of non-frozen cells whose boxes
      form a row band, a column stack, the main diagonal or the anti-diagonal. */
  function Actions(frozen: seq<int>): (r: seq<seq<Pair>>)
    ensures forall m :: m in r <==> IsMove(frozen, m)
  {
    forall m ensures m in MovesFrom(frozen, 0) <==> IsMove(frozen, m) {
      MovesFromMembers(frozen, 0, m);
    }
    MovesFrom(frozen, 0)
  }

  // ---------------------------------------------------------------------------------------
  // Result
  // ---------------------------------------------------------------------------------------

  predicate InBounds(m: seq<Pair>)
  {
    forall t :: 0 <= t < |m| ==> 0 <= m[t].x < 81 && 0 <= m[t].y < 81
  }

  /** Some swap of `m` involves cell `q`. */
  predicate Touches(m: seq<Pair>, q: int)
  {
    exists t :: 0 <= t < |m| && (m[t].x == q || m[t].y == q)
  }

  /** No two swaps of `m` share a cell. */
  predicate Disjoint(m: seq<Pair>)
  {
    forall t, u :: 0 <= t < u < |m| ==> Apart(m[t], m[u])
  }

  predicate Apart(a: Pair, b: Pair)
  {
    a.x != b.x && a.x != b.y && a.y != b.x && a.y != b.y
  }

  /** The swap loop of `FilledSudoku.result`: each pair of `m` is written into `cur` with the
      values read from `orig`, the state before the move. */
  function Swaps(orig: seq<int>, cur: seq<int>, m: seq<Pair>): (r: seq<int>)
    requires |orig| == 81 && |cur| == 81 && InBounds(m)
    ensures |r| == 81
    decreases |m|
  {
    if m == [] then cur
    else Swaps(orig, cur[m[0].x := orig[m[0].y]][m[0].y := orig[m[0].x]], m[1..])
  }

  /** Cells no swap involves keep the value they had. */
  lemma {:induction false} SwapsFrame(orig: seq<int>, cur: seq<int>, m: seq<Pair>, q: int)
    requires |orig| == 81 && |cur| == 81 && InBounds(m) && 0 <= q < 81 && !Touches(m, q)
    ensures Swaps(orig, cur, m)[q] == cur[q]
    decreases |m|
  {
    if m != [] {
      SwapsFrame(orig, cur[m[0].x := orig[m[0].y]][m[0].y := orig[m[0].x]], m[1..], q);
    }
  }

  /** With disjoint swaps, each swapped cell ends up with its partner's original value. */
  lemma {:induction false} SwapsSwap(orig: seq<int>, cur: seq<int>, m: seq<Pair>, t: int)
    requires |orig| == 81 && |cur| == 81 && InBounds(m) && Disjoint(m) && 0 <= t < |m|
    ensures Swaps(orig, cur, m)[m[t].x] == orig[m[t].y]
    ensures Swaps(orig, cur, m)[m[t].y] == orig[m[t].x]
    decreases |m|
  {
    var next := cur[m[0].x := orig[m[0].y]][m[0].y := orig[m[0].x]];
    if t == 0 {
      forall c | c == m[0].x || c == m[0].y ensures !Touches(m[1..], c) {}
      SwapsFrame(orig, next, m[1..], m[0].x);
      SwapsFrame(orig, next, m[1..], m[0].y);
    } else {
      assert m[1..][t - 1] == m[t];
      SwapsSwap(orig, next, m[1..], t - 1);
    }
  }

  /** `FilledSudoku.result`: the move applied to a copy of the state. */
  function Result(s: seq<int>, m: seq<Pair>): (r: seq<int>)
    requires |s| == 81 && InBounds(m)
    ensures |r| == 81
    ensures forall q :: 0 <= q < 81 && !Touches(m, q) ==> r[q] == s[q]
    ensures Disjoint(m) ==> forall t :: 0 <= t < |m| ==> r[m[t].x] == s[m[t].y] && r[m[t].y] == s[m[t].x]
  {
    forall q | 0 <= q < 81 && !Touches(m, q) ensures Swaps(s, s, m)[q] == s[q] {
      SwapsFrame(s, s, m, q);
    }
    forall t | 0 <= t < |m| && Disjoint(m)
      ensures Swaps(s, s, m)[m[t].x] == s[m[t].y] && Swaps(s, s, m)[m[t].y] == s[m[t].x]
    {
      SwapsSwap(s, s, m, t);
    }
    Swaps(s, s, m)
  }

  /** A move's three swaps lie in three distinct boxes, so they share no cell. */
  lemma MoveFacts(frozen: seq<int>, m: seq<Pair>)
    requires IsMove(frozen, m)
    ensures InBounds(m) && Disjoint(m) && |m| == 3
    ensures forall t :: 0 <= t < 3 ==> m[t].x != m[t].y && BoxOf(m[t].x) == BoxOf(m[t].y)
    ensures forall q :: Touches(m, q) ==> q !in frozen
  {
    var g :| 0 <= g < 8 && IsMoveOf(frozen, m, g);
    MoveOfFacts(frozen, m, g);
  }

  lemma MoveOfFacts(frozen: seq<int>, m: seq<Pair>, g: int)
    requires 0 <= g < 8 && IsMoveOf(frozen, m, g)
    ensures InBounds(m) && Disjoint(m) && |m| == 3
    ensures forall t :: 0 <= t < 3 ==> m[t].x != m[t].y && BoxOf(m[t].x) == BoxOf(m[t].y)
    ensures forall q :: Touches(m, q) ==> q !in frozen
  {
    var bs := GroupBoxes(g);
    SwapsInBoxes(frozen, m, bs[0], bs[1], bs[2]);
  }

  /** Three swaps in three distinct boxes, each avoiding the frozen cells. */
  lemma SwapsInBoxes(frozen: seq<int>, m: seq<Pair>, b0: int, b1: int, b2: int)
    requires |m| == 3 && b0 != b1 && b0 != b2 && b1 != b2
    requires SwapIn(frozen, m[0], b0) && SwapIn(frozen, m[1], b1) && SwapIn(frozen, m[2], b2)
    ensures InBounds(m) && Disjoint(m)
    ensures forall t :: 0 <= t < 3 ==> m[t].x != m[t].y && BoxOf(m[t].x) == BoxOf(m[t].y)
    ensures forall q :: Touches(m, q) ==> q !in frozen
  {
    assert Apart(m[0], m[1]) && Apart(m[0], m[2]) && Apart(m[1], m[2]);
    forall t, u | 0 <= t < u < 3 ensures Apart(m[t], m[u]) {
      assert (t == 0 && u == 1) || (t == 0 && u == 2) || (t == 1 && u == 2);
    }
    forall t | 0 <= t < 3 ensures m[t].x != m[t].y && BoxOf(m[t].x) == BoxOf(m[t].y) {
      assert t == 0 || t == 1 || t == 2;
    }
    forall q | Touches(m, q) ensures q !in frozen {
      var t :| 0 <= t < |m| && (m[t].x == q || m[t].y == q);
      assert t == 0 || t == 1 || t == 2;
    }
  }

  /** One swap of two cells of the same box. */
  function Swap(s: seq<int>, x: int, y: int): (r: seq<int>)
    requires |s| == 81 && 0 <= x < 81 && 0 <= y < 81
    ensures |r| == 81
  {
    s[x := s[y]][y := s[x]]
  }

  /** Swaps applied one after another, each reading the current state. */
  function SwapSeq(s: seq<int>, m: seq<Pair>): (r: seq<int>)
    requires |s| == 81 && InBounds(m)
    ensures |r| == 81
    decreases |m|
  {
    if m == [] then s else SwapSeq(Swap(s, m[0].x, m[0].y), m[1..])
  }

  /** While the cells still to be swapped hold their original values, reading from the original
      and reading from the current state agree. */
  lemma {:induction false} SwapsAreSequential(orig: seq<int>, cur: seq<int>, m: seq<Pair>)
    requires |orig| == 81 && |cur| == 81 && InBounds(m) && Disjoint(m)
    requires forall t :: 0 <= t < |m| ==> cur[m[t].x] == orig[m[t].x] && cur[m[t].y] == orig[m[t].y]
    ensures Swaps(orig, cur, m) == SwapSeq(cur, m)
    decreases |m|
  {
    if m != [] {
      var next := Swap(cur, m[0].x, m[0].y);
      forall t | 0 <= t < |m[1..]| ensures next[m[1..][t].x] == orig[m[1..][t].x] && next[m[1..][t].y] == orig[m[1..][t].y] {
        assert m[1..][t] == m[t + 1] && Apart(m[0], m[t + 1]);
      }
      assert Disjoint(m[1..]) by {
        forall t, u | 0 <= t < u < |m[1..]| ensures Apart(m[1..][t], m[1..][u]) {
          assert m[1..][t] == m[t + 1] && m[1..][u] == m[u + 1];
        }
      }
      SwapsAreSequential(orig, next, m[1..]);
    }
  }

  /** A swap inside one box leaves the multiset of every box, and of the grid, unchanged. */
  lemma SwapKeepsBoxes(s: seq<int>, x: int, y: int)
    requires |s| == 81 && 0 <= x < 81 && 0 <= y < 81 && BoxOf(x) == BoxOf(y)
    ensures forall b :: 0 <= b < 9 ==> multiset(Box(Swap(s, x, y), b)) == multiset(Box(s, b))
    ensures multiset(Swap(s, x, y)) == multiset(s)
  {
    BoxCellOf(x);
    BoxCellOf(y);
    var mid := s[x := s[y]];
    forall b | 0 <= b < 9 ensures multiset(Box(Swap(s, x, y), b)) == multiset(Box(s, b)) {
      BoxAfterWrite(s, x, s[y], b);
      BoxAfterWrite(mid, y, s[x], b);
      if b == BoxOf(x) {
        var v := Box(s, b);
        var tx, ty := BoxIndex(x), BoxIndex(y);
        assert v[tx] == s[x] && v[ty] == s[y];
        assert Box(Swap(s, x, y), b) == v[tx := v[ty]][ty := v[tx]];
      }
    }
  }

  lemma {:induction false} SwapSeqKeepsBoxes(s: seq<int>, m: seq<Pair>)
    requires |s| == 81 && InBounds(m)
    requires forall t :: 0 <= t < |m| ==> BoxOf(m[t].x) == BoxOf(m[t].y)
    ensures forall b :: 0 <= b < 9 ==> multiset(Box(SwapSeq(s, m), b)) == multiset(Box(s, b))
    ensures multiset(SwapSeq(s, m)) == multiset(s)
    decreases |m|
  {
    if m != [] {
      SwapKeepsBoxes(s, m[0].x, m[0].y);
      assert forall t :: 0 <= t < |m[1..]| ==> m[1..][t] == m[t + 1];
      SwapSeqKeepsBoxes(Swap(s, m[0].x, m[0].y), m[1..]);
    }
  }

  /** A move permutes the digits inside each box: every box keeps its multiset of digits, and so
      does the grid. */
  lemma ResultKeepsBoxes(frozen: seq<int>, s: seq<int>, m: seq<Pair>)
    requires |s| == 81 && m in Actions(frozen)
    ensures InBounds(m)
    ensures forall b :: 0 <= b < 9 ==> multiset(Box(Result(s, m), b)) == multiset(Box(s, b))
    ensures multiset(Result(s, m)) == multiset(s)
  {
    MoveFacts(frozen, m);
    SwapsAreSequential(s, s, m);
    SwapSeqKeepsBoxes(s, m);
  }

  // ---------------------------------------------------------------------------------------
  // Goal test and value
  // ---------------------------------------------------------------------------------------

  /** `FilledSudoku.goal_test`: no value occurs twice in any row or any column (boxes are trusted
      to the moves). */
  predicate GoalTest(s: seq<int>)
    requires |s| == 81
  {
    forall i :: 0 <= i < 9 ==> NoRepeat(Row(s, i)) && NoRepeat(Col(s, i))
  }

  /** The conflicts of cell `p`: the other cells of its row and of its column holding its value
      (`line[line == value].size + column[column == value].size - 2`). */
  function ConflictTerm(s: seq<int>, p: int): (r: nat)
    requires |s| == 81 && 0 <= p < 81
    ensures r == 0 <==> Occ(s[p], Row(s, p / 9)) == 1 && Occ(s[p], Col(s, p % 9)) == 1
  {
    CellInUnits(s, p);
    OccMember(s[p], Row(s, p / 9));
    OccMember(s[p], Col(s, p % 9));
    Occ(s[p], Row(s, p / 9)) + Occ(s[p], Col(s, p % 9)) - 2
  }

  /** In a repetition-free row and column, a cell has no conflict. */
  lemma NoRepeatNoConflict(s: seq<int>, p: int)
    requires |s| == 81 && 0 <= p < 81
    requires NoRepeat(Row(s, p / 9)) && NoRepeat(Col(s, p % 9))
    ensures ConflictTerm(s, p) == 0
  {
    CellInUnits(s, p);
    NoRepeatIffOccOne(Row(s, p / 9));
    NoRepeatIffOccOne(Col(s, p % 9));
  }

  /** A row whose cells have no conflicts repeats no value. */
  lemma ConflictFreeRow(s: seq<int>, i: int)
    requires |s| == 81 && 0 <= i < 9
    requires forall c :: 0 <= c < 9 ==> ConflictTerm(s, Idx(i, c)) == 0
    ensures NoRepeat(Row(s, i))
  {
    forall c | 0 <= c < 9 ensures Occ(Row(s, i)[c], Row(s, i)) == 1 {
      assert ConflictTerm(s, Idx(i, c)) == 0;
      assert Idx(i, c) / 9 == i;
    }
    NoRepeatIffOccOne(Row(s, i));
  }

  /** A column whose cells have no conflicts repeats no value. */
  lemma ConflictFreeCol(s: seq<int>, j: int)
    requires |s| == 81 && 0 <= j < 9
    requires forall c :: 0 <= c < 9 ==> ConflictTerm(s, Idx(c, j)) == 0
    ensures NoRepeat(Col(s, j))
  {
    forall c | 0 <= c < 9 ensures Occ(Col(s, j)[c], Col(s, j)) == 1 {
      assert ConflictTerm(s, Idx(c, j)) == 0;
      assert Idx(c, j) % 9 == j && Idx(c, j) / 9 == c;
    }
    NoRepeatIffOccOne(Col(s, j));
  }

  /** The goal holds exactly when no cell is in conflict. */
  lemma GoalIffNoConflicts(s: seq<int>)
    requires |s| == 81
    ensures GoalTest(s) <==> forall p :: 0 <= p < 81 ==> ConflictTerm(s, p) == 0
  {
    if GoalTest(s) {
      forall p | 0 <= p < 81 ensures ConflictTerm(s, p) == 0 {
        NoRepeatNoConflict(s, p);
      }
    }
    if forall p :: 0 <= p < 81 ==> ConflictTerm(s, p) == 0 {
      forall i | 0 <= i < 9 ensures NoRepeat(Row(s, i)) && NoRepeat(Col(s, i)) {
        ConflictFreeRow(s, i);
        ConflictFreeCol(s, i);
      }
    }
  }

  /** The conflict terms that `value` adds up: cells on the frozen list count for nothing. */
  function ConflictTerms(frozen: seq<int>, s: seq<int>): (r: seq<int>)
    requires |s| == 81
    ensures |r| == 81
    ensures forall p :: 0 <= p < 81 ==> 0 <= r[p] && (p !in frozen ==> r[p] == ConflictTerm(s, p))
    ensures forall p :: 0 <= p < 81 && p in frozen ==> r[p] == 0
  {
    seq(81, p requires 0 <= p < 81 => if p in frozen then 0 else ConflictTerm(s, p))
  }

  /** `FilledSudoku.value`: 324 minus the conflicts of the cells off the frozen list. It never
      exceeds 324, reaches 324 exactly when those cells are conflict-free, and so reaches 324 at
      every goal state. */
  function Value(frozen: seq<int>, s: seq<int>): (r: int)
    requires |s| == 81
    ensures r <= 324
    ensures r == 324 <==> forall p :: 0 <= p < 81 && p !in frozen ==> ConflictTerm(s, p) == 0
    ensures GoalTest(s) ==> r == 324
  {
    var terms := ConflictTerms(frozen, s);
    SumZeroIff(terms);
    GoalIffNoConflicts(s);
    324 - Sum(terms)
  }

  /** No box repeats a value: the state the docstring of `value` takes for granted. */
  predicate BoxesNoRepeat(s: seq<int>)
    requires |s| == 81
  {
    forall b :: 0 <= b < 9 ==> NoRepeat(Box(s, b))
  }

  /** The k-th third of row `i` is the (i % 3)-th row of box 3 * (i / 3) + k. */
  lemma RowThirdInBox(i: int, k: int, a: int)
    requires 0 <= i < 9 && 0 <= k < 3 && 0 <= a < 3
    ensures BoxCell(3 * (i / 3) + k, 3 * (i % 3) + a) == Idx(i, 3 * k + a)
  {
    var b, t := 3 * (i / 3) + k, 3 * (i % 3) + a;
    assert b / 3 == i / 3 && b % 3 == k && t / 3 == i % 3 && t % 3 == a;
  }

  /** The k-th third of column `j` is the (j % 3)-th column of box 3 * k + j / 3. */
  lemma ColThirdInBox(j: int, k: int, a: int)
    requires 0 <= j < 9 && 0 <= k < 3 && 0 <= a < 3
    ensures BoxCell(3 * k + j / 3, 3 * a + j % 3) == Idx(3 * k + a, j)
  {
    var b, t := 3 * k + j / 3, 3 * a + j % 3;
    assert b / 3 == k && b % 3 == j / 3 && t / 3 == a && t % 3 == j % 3;
  }

  /** The k-th third of a row lies in one box, so it repeats nothing when that box does not. */
  lemma RowThirdNoRepeat(s: seq<int>, i: int, k: int)
    requires |s| == 81 && 0 <= i < 9 && 0 <= k < 3 && BoxesNoRepeat(s)
    ensures NoRepeat(Row(s, i)[3 * k..3 * k + 3])
  {
    var row, box := Row(s, i), Box(s, 3 * (i / 3) + k);
    var x := row[3 * k..3 * k + 3];
    forall a, a' | 0 <= a < a' < 3 ensures x[a] != x[a'] {
      RowThirdInBox(i, k, a);
      RowThirdInBox(i, k, a');
      assert x[a] == row[3 * k + a] == box[3 * (i % 3) + a];
      assert x[a'] == row[3 * k + a'] == box[3 * (i % 3) + a'];
    }
  }

  /** The k-th third of a column lies in one box, so it repeats nothing when that box does not. */
  lemma ColThirdNoRepeat(s: seq<int>, j: int, k: int)
    requires |s| == 81 && 0 <= j < 9 && 0 <= k < 3 && BoxesNoRepeat(s)
    ensures NoRepeat(Col(s, j)[3 * k..3 * k + 3])
  {
    var col, box := Col(s, j), Box(s, 3 * k + j / 3);
    var x := col[3 * k..3 * k + 3];
    forall a, a' | 0 <= a < a' < 3 ensures x[a] != x[a'] {
      ColThirdInBox(j, k, a);
      ColThirdInBox(j, k, a');
      assert x[a] == col[3 * k + a] == box[3 * a + j % 3];
      assert x[a'] == col[3 * k + a'] == box[3 * a' + j % 3];
    }
  }

  /** With repetition-free boxes, a cell has at most 2 + 2 conflicts: each line crosses three
      boxes and so holds its value at most three times. */
  lemma ConflictTermAtMostFour(s: seq<int>, p: int)
    requires |s| == 81 && 0 <= p < 81 && BoxesNoRepeat(s)
    ensures ConflictTerm(s, p) <= 4
  {
    var row, col := Row(s, p / 9), Col(s, p % 9);
    RowThirdNoRepeat(s, p / 9, 0);
    RowThirdNoRepeat(s, p / 9, 1);
    RowThirdNoRepeat(s, p / 9, 2);
    assert row[..3] == row[0..3] && row[6..] == row[6..9];
    OccAtMostThree(s[p], row);
    ColThirdNoRepeat(s, p % 9, 0);
    ColThirdNoRepeat(s, p % 9, 1);
    ColThirdNoRepeat(s, p % 9, 2);
    assert col[..3] == col[0..3] && col[6..] == col[6..9];
    OccAtMostThree(s[p], col);
  }

  /** The docstring's premise makes the comment's bound hold: with no box repeating a value the
      conflicts add up to at most 81 * 4 = 324, so the value is never negative. */
  lemma ValueNonNegative(frozen: seq<int>, s: seq<int>)
    requires |s| == 81 && BoxesNoRepeat(s)
    ensures 0 <= Value(frozen, s)
  {
    var terms := ConflictTerms(frozen, s);
    forall p | 0 <= p < 81 ensures terms[p] <= 4 {
      ConflictTermAtMostFour(s, p);
    }
    var fours := seq(81, _ => 4);
    SumLe(terms, fours);
    SumConst(fours, 4);
  }

  /** On a grid of ones a cell meets its value nine times in its row and nine times in its
      column: 8 + 8 conflicts. */
  lemma AllOnesConflict(s: seq<int>, p: int)
    requires |s| == 81 && 0 <= p < 81 && forall q :: 0 <= q < 81 ==> s[q] == 1
    ensures ConflictTerm(s, p) == 16
  {
    CellInUnits(s, p);
    OccAllSame(1, Row(s, p / 9));
    OccAllSame(1, Col(s, p % 9));
  }

  /** Without the premise the bound fails: on the grid of 81 ones every cell has 8 + 8 conflicts,
      and the value is 324 - 81 * 16 = -972. */
  lemma AllOnesValue()
    ensures Value([], seq(81, _ => 1)) == -972
  {
    var s: seq<int> := seq(81, _ => 1);
    var terms := ConflictTerms([], s);
    forall p | 0 <= p < 81 ensures terms[p] == 16 {
      AllOnesConflict(s, p);
    }
    SumConst(terms, 16);
  }

  /** The moves keep the premise: a swap inside a box leaves that box's multiset unchanged, so a
      repetition-free box stays repetition-free, and the value stays non-negative. */
  lemma ResultKeepsValueNonNegative(frozen: seq<int>, s: seq<int>, m: seq<Pair>)
    requires |s| == 81 && m in Actions(frozen) && BoxesNoRepeat(s)
    ensures InBounds(m) && BoxesNoRepeat(Result(s, m))
    ensures 0 <= Value(frozen, Result(s, m))
  {
    ResultKeepsBoxes(frozen, s, m);
    forall b | 0 <= b < 9 ensures NoRepeat(Box(Result(s, m), b)) {
      NoRepeatMultiset(Box(s, b), Box(Result(s, m), b));
    }
    ValueNonNegative(frozen, Result(s, m));
  }

  // ---------------------------------------------------------------------------------------
  // The frozen list: as written, and as intended
  // ---------------------------------------------------------------------------------------

  /** The swap of the t-th and u-th cells of box b, reading the box row by row. */
  function BoxSwap(b: int, t: int, u: int): Pair
  {
    Pair(BoxCell(b, t), BoxCell(b, u))
  }

  /** Two non-frozen cells t < u of box b form a swap the move generator offers. */
  lemma BoxSwapIn(frozen: seq<int>, b: int, t: int, u: int)
    requires 0 <= b < 9 && 0 <= t < u < 9
    requires BoxCell(b, t) !in frozen && BoxCell(b, u) !in frozen
    ensures SwapIn(frozen, BoxSwap(b, t, u), b)
  {
    BoxCellInverse(b, t);
    BoxCellInverse(b, u);
    BoxCellsMembers(b);
    assert BoxCells(b)[t] < BoxCells(b)[u];
  }

  /** The move of grouping `g` that swaps cells ts[k] and us[k] of the grouping's k-th box. */
  function GroupSwaps(g: int, ts: seq<int>, us: seq<int>): seq<Pair>
    requires 0 <= g < 8 && |ts| == 3 && |us| == 3
  {
    var bs := GroupBoxes(g);
    [BoxSwap(bs[0], ts[0], us[0]), BoxSwap(bs[1], ts[1], us[1]), BoxSwap(bs[2], ts[2], us[2])]
  }

  /** Three pairs of non-frozen cells in the boxes of grouping `g` form a move of `g`. */
  lemma GroupSwapsIsMove(frozen: seq<int>, g: int, ts: seq<int>, us: seq<int>)
    requires 0 <= g < 8 && |ts| == 3 && |us| == 3
    requires forall k :: 0 <= k < 3 ==> 0 <= ts[k] < us[k] < 9
    requires forall k :: 0 <= k < 3 ==> BoxCell(GroupBoxes(g)[k], ts[k]) !in frozen
    requires forall k :: 0 <= k < 3 ==> BoxCell(GroupBoxes(g)[k], us[k]) !in frozen
    ensures GroupSwaps(g, ts, us) in Actions(frozen)
  {
    var bs, m := GroupBoxes(g), GroupSwaps(g, ts, us);
    forall k | 0 <= k < 3 ensures SwapIn(frozen, m[k], bs[k]) {
      BoxSwapIn(frozen, bs[k], ts[k], us[k]);
    }
    assert IsMoveOf(frozen, m, g);
  }

  /** With the blank cells frozen, as the constructor builds them, any three pairs of givens in
      the boxes of a grouping form a move, and applying it writes one given's value over the
      other: whenever the two givens differ, a given of the puzzle is lost. */
  lemma GivensSwappedAsWritten(puzzle: seq<int>, s: seq<int>, g: int, ts: seq<int>, us: seq<int>)
    requires |puzzle| == 81 && |s| == 81 && 0 <= g < 8 && |ts| == 3 && |us| == 3
    requires forall k :: 0 <= k < 3 ==> 0 <= ts[k] < us[k] < 9
    requires forall k :: 0 <= k < 3 ==> Box(puzzle, GroupBoxes(g)[k])[ts[k]] != 0
    requires forall k :: 0 <= k < 3 ==> Box(puzzle, GroupBoxes(g)[k])[us[k]] != 0
    requires forall q :: 0 <= q < 81 && puzzle[q] != 0 ==> s[q] == puzzle[q]
    ensures GroupSwaps(g, ts, us) in Actions(BlankPositions(puzzle))
    ensures var m := GroupSwaps(g, ts, us);
      InBounds(m) && Result(s, m)[m[0].x] == puzzle[m[0].y] &&
      (puzzle[m[0].x] != puzzle[m[0].y] ==> Result(s, m)[m[0].x] != puzzle[m[0].x])
  {
    var frozen, bs, m := BlankPositions(puzzle), GroupBoxes(g), GroupSwaps(g, ts, us);
    forall k | 0 <= k < 3 ensures BoxCell(bs[k], ts[k]) !in frozen && BoxCell(bs[k], us[k]) !in frozen {
      BoxCellInverse(bs[k], ts[k]);
      BoxCellInverse(bs[k], us[k]);
    }
    GroupSwapsIsMove(frozen, g, ts, us);
    MoveFacts(frozen, m);
    BoxCellInverse(bs[0], us[0]);
  }

  /** With the givens frozen, a move never changes a given cell. */
  lemma RepairKeepsGivens(puzzle: seq<int>, s: seq<int>, m: seq<Pair>)
    requires |puzzle| == 81 && |s| == 81 && m in Actions(GivenPositions(puzzle))
    ensures InBounds(m)
    ensures forall q :: 0 <= q < 81 && puzzle[q] != 0 ==> Result(s, m)[q] == s[q]
  {
    MoveFacts(GivenPositions(puzzle), m);
  }
}
