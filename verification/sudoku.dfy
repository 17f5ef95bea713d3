/**
 The digit-assignment formulation (`Sudoku` and `RandomizedSudoku` in sudoku.py): a state
 is an 81-tuple of digits with 0 for blank, an action writes one legal digit into one
 blank cell, and the goal is a grid without blanks.
 */
module Sudoku {
  import opened Seqs
  import opened Grid
  import opened Utils

  /** The action `(i, j, k)`: write digit k into cell (i, j). */
  datatype Assign = Assign(i: int, j: int, k: int)

  predicate InRange(a: Assign) { 0 <= a.i < 9 && 0 <= a.j < 9 }

  function Cell(a: Assign): int { Idx(a.i, a.j) }

  /** Row-major cell first, then digit: the enumeration order of `actions`. */
  function Key(a: Assign): int { 10 * Cell(a) + a.k }

  predicate Sorted(acts: seq<Assign>)
  {
    forall x, y :: 0 <= x < y < |acts| ==> Key(acts[x]) < Key(acts[y])
  }

  /** Digit `d` may be written into flat cell `p`: the cell is blank and `d` is absent from
      its row, its column and its square. */
  predicate CellLegal(s: seq<int>, p: int, d: int)
    requires |s| == 81 && 0 <= p < 81
  {
    s[p] == 0 && 1 <= d <= 9 && Legal(s, p / 9, p % 9, d)
  }

  /** An action `actions` may yield. */
  predicate IsLegalAction(s: seq<int>, a: Assign)
    requires |s| == 81
  {
    InRange(a) && CellLegal(s, Cell(a), a.k)
  }

  /** The action writing digit `k` into flat cell `p`. */
  function At(p: int, k: int): (a: Assign)
    requires 0 <= p < 81
    ensures InRange(a) && Cell(a) == p && a.k == k
  {
    Assign(p / 9, p % 9, k)
  }

  /** An in-range action is determined by its flat cell and its digit. */
  lemma AtCell(a: Assign)
    requires InRange(a)
    ensures 0 <= Cell(a) < 81 && a == At(Cell(a), a.k)
  {
  }

  /** Number of digits among k..9 that satisfy `ok`. */
  function CountFrom(k: int, ok: int -> bool): (r: nat)
    requires 1 <= k <= 10
    decreases 10 - k
  {
    if k == 10 then 0 else (if ok(k) then 1 else 0) + CountFrom(k + 1, ok)
  }

  /** The actions writing into cell `p` the digits of k..9 that satisfy `ok`, ascending. */
  function DigitActions(p: int, k: int, ok: int -> bool): (r: seq<Assign>)
    requires 0 <= p < 81 && 1 <= k <= 10
    ensures forall x :: 0 <= x < |r| ==> r[x] == At(p, r[x].k) && k <= r[x].k <= 9 && ok(r[x].k)
    ensures forall x, y :: 0 <= x < y < |r| ==> r[x].k < r[y].k
    ensures |r| == CountFrom(k, ok)
    decreases 10 - k
  {
    if k == 10 then []
    else
      var rest := DigitActions(p, k + 1, ok);
      if ok(k) then
        var r := [At(p, k)] + rest;
        assert forall y :: 1 <= y < |r| ==> r[y] == rest[y - 1];
        r
      else rest
  }

  /** Every digit of k..9 that satisfies `ok` has its action listed. */
  lemma {:induction false} DigitActionsComplete(p: int, k: int, ok: int -> bool, d: int)
    requires 0 <= p < 81 && 1 <= k <= d <= 9 && ok(d)
    ensures At(p, d) in DigitActions(p, k, ok)
    decreases 10 - k
  {
    var rest := DigitActions(p, k + 1, ok);
    assert DigitActions(p, k, ok) == if ok(k) then [At(p, k)] + rest else rest;
    if d == k {
      assert At(p, d) == ([At(p, k)] + rest)[0];
    } else {
      DigitActionsComplete(p, k + 1, ok, d);
    }
  }

  /** Counting the legal digits of a cell one digit at a time. */
  lemma {:induction false} CountLegalFromCell(s: seq<int>, p: int, k: int)
    requires |s| == 81 && 0 <= p < 81 && 1 <= k <= 10
    ensures CountFrom(k, d => CellLegal(s, p, d)) == if s[p] == 0 then CountLegalFrom(s, p / 9, p % 9, k) else 0
    decreases 10 - k
  {
    if k < 10 {
      CountLegalFromCell(s, p, k + 1);
    }
  }

  /** The inner `for k in xrange(1, 10)` for cell `p`: exactly its legal digits, ascending, as
      many as `count_possibilities` counts for a blank cell. */
  function CellActions(s: seq<int>, p: int): (r: seq<Assign>)
    requires |s| == 81 && 0 <= p < 81
    ensures forall x :: 0 <= x < |r| ==> r[x] == At(p, r[x].k) && CellLegal(s, p, r[x].k)
    ensures forall d :: CellLegal(s, p, d) ==> At(p, d) in r
    ensures forall x, y :: 0 <= x < y < |r| ==> r[x].k < r[y].k
    ensures |r| == if s[p] == 0 then CountLegalFrom(s, p / 9, p % 9, 1) else 0
  {
    var ok := d => CellLegal(s, p, d);
    var r := DigitActions(p, 1, ok);
    forall d | CellLegal(s, p, d) ensures At(p, d) in r {
      DigitActionsComplete(p, 1, ok, d);
    }
    CountLegalFromCell(s, p, 1);
    r
  }

  /** Per-cell legal-digit counts of the blank cells (0 for filled cells): the terms
      summed by `value` and by `remaining_possibilities`. */
  function PossibilityTerms(s: seq<int>): (r: seq<int>)
    requires |s| == 81
    ensures |r| == 81
    ensures forall p :: 0 <= p < 81 ==> 0 <= r[p] <= 9
    ensures forall p :: 0 <= p < 81 && s[p] != 0 ==> r[p] == 0
  {
    seq(81, p requires 0 <= p < 81 => if s[p] == 0 then CountPossibilities(s, p / 9, p % 9) else 0)
  }

  /** Two sorted runs, every key of the first below every key of the second, join sorted. */
  lemma SortedConcat(h: seq<Assign>, t: seq<Assign>)
    requires Sorted(h) && Sorted(t)
    requires forall x, y :: 0 <= x < |h| && 0 <= y < |t| ==> Key(h[x]) < Key(t[y])
    ensures Sorted(h + t)
  {
    var r := h + t;
    forall x, y | 0 <= x < y < |r| ensures Key(r[x]) < Key(r[y]) {
      if y < |h| {
        assert r[x] == h[x] && r[y] == h[y];
      } else if x < |h| {
        assert r[x] == h[x] && r[y] == t[y - |h|];
      } else {
        assert r[x] == t[x - |h|] && r[y] == t[y - |h|];
      }
    }
  }

  /** The actions of one cell are legal, for that cell, and sorted. */
  lemma CellActionsSorted(s: seq<int>, p: int)
    requires |s| == 81 && 0 <= p < 81
    ensures forall x :: 0 <= x < |CellActions(s, p)| ==>
      Cell(CellActions(s, p)[x]) == p && 1 <= CellActions(s, p)[x].k <= 9 && IsLegalAction(s, CellActions(s, p)[x])
    ensures Sorted(CellActions(s, p))
  {
    var here := CellActions(s, p);
    forall x | 0 <= x < |here| ensures Cell(here[x]) == p && 1 <= here[x].k <= 9 && IsLegalAction(s, here[x]) {
      assert here[x] == At(p, here[x].k);
    }
    forall x, y | 0 <= x < y < |here| ensures Key(here[x]) < Key(here[y]) {
      assert here[x] == At(p, here[x].k) && here[y] == At(p, here[y].k);
    }
  }

  /** The actions of cell `p` followed by those of the later cells stay legal and sorted. */
  lemma JoinCells(s: seq<int>, p: int, here: seq<Assign>, rest: seq<Assign>)
    requires |s| == 81 && 0 <= p < 81
    requires forall x :: 0 <= x < |here| ==> Cell(here[x]) == p && 1 <= here[x].k <= 9 && IsLegalAction(s, here[x])
    requires forall x :: 0 <= x < |rest| ==> p + 1 <= Cell(rest[x]) && IsLegalAction(s, rest[x])
    requires Sorted(here) && Sorted(rest)
    ensures forall x :: 0 <= x < |here + rest| ==> p <= Cell((here + rest)[x]) && IsLegalAction(s, (here + rest)[x])
    ensures Sorted(here + rest)
  {
    forall x, y | 0 <= x < |here| && 0 <= y < |rest| ensures Key(here[x]) < Key(rest[y]) {
      assert Cell(here[x]) == p && here[x].k <= 9 && p + 1 <= Cell(rest[y]);
    }
    SortedConcat(here, rest);
    var r := here + rest;
    forall x | 0 <= x < |r| ensures p <= Cell(r[x]) && IsLegalAction(s, r[x]) {
      if x < |here| {
        assert r[x] == here[x];
      } else {
        assert r[x] == rest[x - |here|];
      }
    }
  }

  /** The actions of each of the 81 cells. */
  function CellLists(s: seq<int>): (r: seq<seq<Assign>>)
    requires |s| == 81
    ensures |r| == 81 && forall p :: 0 <= p < 81 ==> r[p] == CellActions(s, p)
  {
    seq(81, p requires 0 <= p < 81 => CellActions(s, p))
  }

  /** The actions of cells p..80, row-major. */
  function ActionsFrom(s: seq<int>, p: int): seq<Assign>
    requires |s| == 81 && 0 <= p <= 81
  {
    Flatten(CellLists(s)[p..])
  }

  /** The actions from cell `p` on are legal actions of cells `p..80`, sorted, one per legal
      digit of each of those blank cells. */
  lemma {:induction false} ActionsFromFacts(s: seq<int>, p: int)
    requires |s| == 81 && 0 <= p <= 81
    ensures forall x :: 0 <= x < |ActionsFrom(s, p)| ==> p <= Cell(ActionsFrom(s, p)[x]) && IsLegalAction(s, ActionsFrom(s, p)[x])
    ensures Sorted(ActionsFrom(s, p))
    ensures |ActionsFrom(s, p)| == Sum(PossibilityTerms(s)[p..])
    decreases 81 - p
  {
    if p < 81 {
      var here, rest := CellActions(s, p), ActionsFrom(s, p + 1);
      ActionsFromFacts(s, p + 1);
      var terms, lists := PossibilityTerms(s), CellLists(s);
      assert terms[p..][1..] == terms[p + 1..];
      assert lists[p..][0] == here && lists[p..][1..] == lists[p + 1..];
      CellActionsSorted(s, p);
      JoinCells(s, p, here, rest);
      assert ActionsFrom(s, p) == here + rest;
    }
  }

  /** `Sudoku.actions`: exactly the legal digits of the blank cells, in row-major cell order
      and ascending digit order. */
  function Actions(s: seq<int>): (r: seq<Assign>)
    requires |s| == 81
    ensures forall a :: a in r <==> IsLegalAction(s, a)
    ensures Sorted(r)
    ensures |r| == Sum(PossibilityTerms(s))
  {
    var r := ActionsFrom(s, 0);
    ActionsFromFacts(s, 0);
    assert PossibilityTerms(s)[0..] == PossibilityTerms(s);
    forall a | a in r ensures IsLegalAction(s, a) {
      var x :| 0 <= x < |r| && r[x] == a;
    }
    forall a | IsLegalAction(s, a) ensures a in r {
      AtCell(a);
      assert a in CellActions(s, Cell(a));
      assert CellLists(s)[0..] == CellLists(s);
      FlattenMember(CellLists(s), Cell(a), a);
    }
    r
  }

  /** `Sudoku.result`: a copy of the state with one cell written. */
  function Result(s: seq<int>, a: Assign): (r: seq<int>)
    requires |s| == 81 && InRange(a)
    ensures |r| == 81 && r[Cell(a)] == a.k
    ensures forall q :: 0 <= q < 81 && q != Cell(a) ==> r[q] == s[q]
  {
    s[Cell(a) := a.k]
  }

  /** `Sudoku.goal_test`: no blank is left (validity is trusted to `actions`). */
  predicate GoalTest(s: seq<int>)
  {
    0 !in s
  }

  /** `Sudoku.value`: 729 minus the remaining legal digits of all blank cells. */
  function Value(s: seq<int>): (r: int)
    requires |s| == 81
    ensures 0 <= r <= 729
    ensures GoalTest(s) ==> r == 729
    ensures r == 729 - |Actions(s)|
  {
    var terms := PossibilityTerms(s);
    var nines := seq(81, p requires 0 <= p < 81 => 9);
    SumLe(terms, nines);
    SumConst(nines, 9);
    SumZeroIff(terms);
    assert GoalTest(s) ==> forall p :: 0 <= p < 81 ==> s[p] != 0;
    729 - Sum(terms)
  }

  /** A digit legal for cell `w` differs from every digit in the row, column and box of `w`. */
  lemma LegalAvoidsUnit(s: seq<int>, w: int, k: int, q: int)
    requires |s| == 81 && 0 <= w < 81 && 0 <= q < 81
    requires Legal(s, w / 9, w % 9, k) && InUnit(w, q)
    ensures s[q] != k
  {
    CellInUnits(s, q);
    if SameBox(w, q) {
      assert Square(s, w / 9, w % 9) == Square(s, q / 9, q % 9);
    }
  }

  /** Writing a legal digit keeps one pair of cells apart. */
  lemma WriteKeepsPeers(s: seq<int>, w: int, k: int, p: int, q: int)
    requires |s| == 81 && 0 <= w < 81 && 0 <= p < 81 && 0 <= q < 81
    requires Consistent(s) && CellLegal(s, w, k)
    ensures PeersDiffer(s[w := k], p, q)
  {
    var r := s[w := k];
    if p != q && InUnit(p, q) && r[p] != 0 {
      if p == w {
        LegalAvoidsUnit(s, w, k, q);
      } else if q == w {
        assert InUnit(q, p);
        LegalAvoidsUnit(s, w, k, p);
      } else {
        assert PeersDiffer(s, p, q);
      }
    }
  }

  /** Applying a yielded action never puts a repeated digit into a row, column or box. */
  lemma ResultKeepsConsistent(s: seq<int>, a: Assign)
    requires |s| == 81 && Consistent(s) && a in Actions(s)
    ensures Consistent(Result(s, a))
  {
    assert IsLegalAction(s, a);
    forall p, q | 0 <= p < 81 && 0 <= q < 81 ensures PeersDiffer(Result(s, a), p, q) {
      WriteKeepsPeers(s, Cell(a), a.k, p, q);
    }
  }

  /** Python's `random.shuffle`: for i from the end down to 1, swap entry i with entry j,
      where j is the i-th random draw reduced into 0..i. */
  method Shuffle<T>(a: seq<T>, draw: nat -> nat) returns (r: seq<T>)
    ensures |r| == |a| && multiset(r) == multiset(a)
  {
    r := a;
    var i := |r| - 1;
    while i >= 1
      invariant |r| == |a| && i < |r|
      invariant multiset(r) == multiset(a)
      decreases i
    {
      var j := draw(i) % (i + 1);
      r := r[i := r[j]][j := r[i]];
      i := i - 1;
    }
  }

  /** `RandomizedSudoku.actions`: the same actions as `Sudoku.actions`, each exactly once,
      in an order chosen by the random source. */
  method RandomizedActions(s: seq<int>, draw: nat -> nat) returns (r: seq<Assign>)
    requires |s| == 81
    ensures multiset(r) == multiset(Actions(s))
    ensures forall a :: a in r <==> IsLegalAction(s, a)
  {
    r := Shuffle(Actions(s), draw);
    assert forall a :: a in r <==> a in multiset(r);
  }
}
