/**
 Candidate-set propagation (`normalize_state`, a verbatim copy in utils.py and sudoku.py).
 A state is 81 candidate sets, row-major. Every singleton `{v}` removes `v` from each row,
 column and box peer that strictly contains it; passes over the singletons found at the start
 of the pass repeat until a pass adds no singleton.
 */
module Propagation {
  import opened Seqs
  import opened Grid
  import Utils

  /** The update a singleton `v` applies to a peer `x`: `if value < x: x = x - value`, where `<`
      on frozensets is strict inclusion. */
  function Reduce(v: set<int>, x: set<int>): set<int>
  {
    if v < x then x - v else x
  }

  /** A proper subset is strictly smaller. */
  lemma ProperSubsetCard(v: set<int>, x: set<int>)
    requires v < x
    ensures |v| < |x| && x - v != {}
  {
    assert x == v + (x - v) && v * (x - v) == {};
  }

  /** Reducing only removes candidates, never touches a singleton, never empties a set, is
      idempotent, and leaves a singleton `v` no longer strictly inside its peer. */
  lemma ReduceFacts(v: set<int>, x: set<int>)
    ensures Reduce(v, x) <= x
    ensures |x| == 1 ==> Reduce(v, x) == x
    ensures x != {} ==> Reduce(v, x) != {}
    ensures Reduce(v, Reduce(v, x)) == Reduce(v, x)
    ensures |v| == 1 ==> !(v < Reduce(v, x))
  {
    if v < x {
      ProperSubsetCard(v, x);
      if |x| == 1 {
        assert v == {};
      }
      assert v * (x - v) == {};
      if v <= x - v {
        assert v == v * (x - v);
      }
    }
  }

  /** Strict inclusion of a singleton: `{w} < x` exactly when `w` is in `x` and `x` is not `{w}`. */
  lemma SingletonInsideIff(v: set<int>, x: set<int>)
    requires |v| == 1
    ensures !(v < x) <==> v !! x || x == v
  {
    if !(v <= x) {
      assert v * x <= v && v * x != v;
      ProperSubsetCard(v * x, v);
    }
    if v !! x {
      assert v * x == {} && v != {};
      assert v * x != v;
    }
  }

  /** One of the three `for ... in enumerate(...)` reductions: the cells of `cells`, in order,
      each reduced by `v`. Because reducing is idempotent, the fold is a pointwise map. */
  function ReduceCells(s: seq<set<int>>, v: set<int>, cells: seq<int>): (r: seq<set<int>>)
    requires forall c :: c in cells ==> 0 <= c < |s|
    ensures |r| == |s|
    ensures forall q :: 0 <= q < |s| ==> r[q] == if q in cells then Reduce(v, s[q]) else s[q]
    decreases |cells|
  {
    if cells == [] then s
    else
      var c := cells[0];
      assert c in cells;
      assert forall q :: q in cells[1..] ==> q in cells;
      var next := s[c := Reduce(v, s[c])];
      var r := ReduceCells(next, v, cells[1..]);
      assert forall q :: q in cells <==> q == c || q in cells[1..];
      ReduceFacts(v, s[c]);
      r
  }

  /** Reducing by the same singleton once, twice or three times has the same effect. */
  lemma ReduceRepeated(v: set<int>, x: set<int>, a: bool, b: bool, c: bool)
    ensures var x1 := if a then Reduce(v, x) else x;
            var x2 := if b then Reduce(v, x1) else x1;
            (if c then Reduce(v, x2) else x2) == if a || b || c then Reduce(v, x) else x
  {
    ReduceFacts(v, x);
  }

  /** The reductions of one singleton cell `p`: its row, its column, then its square, all with
      the value `s[p]` read before the three loops. */
  function Eliminate(s: seq<set<int>>, p: int): (r: seq<set<int>>)
    requires |s| == 81 && 0 <= p < 81
    ensures |r| == 81
    ensures forall q :: 0 <= q < 81 ==> r[q] == if InUnit(p, q) then Reduce(s[p], s[q]) else s[q]
  {
    var v := s[p];
    var row, col, box := RowCells(p / 9), ColCells(p % 9), BoxCells(BoxOf(p));
    RowCellsMembers(p / 9);
    ColCellsMembers(p % 9);
    BoxCellOf(p);
    BoxCellsMembers(BoxOf(p));
    var afterRow := ReduceCells(s, v, row);
    var afterCol := ReduceCells(afterRow, v, col);
    var r := ReduceCells(afterCol, v, box);
    forall q | 0 <= q < 81 ensures r[q] == if InUnit(p, q) then Reduce(v, s[q]) else s[q] {
      assert (q in row <==> SameRow(p, q)) && (q in col <==> SameCol(p, q)) && (q in box <==> SameBox(p, q));
      ReduceRepeated(v, s[q], q in row, q in col, q in box);
    }
    r
  }

  /** Cell `b` refines cell `a`: it lost candidates only, kept a singleton, and stayed non-empty. */
  predicate CellRefines(a: set<int>, b: set<int>)
  {
    b <= a && (|a| == 1 ==> b == a) && (a != {} ==> b != {})
  }

  predicate Refines(s: seq<set<int>>, r: seq<set<int>>)
  {
    |r| == |s| && forall q :: 0 <= q < |s| ==> CellRefines(s[q], r[q])
  }

  lemma RefinesTrans(a: seq<set<int>>, b: seq<set<int>>, c: seq<set<int>>)
    requires Refines(a, b) && Refines(b, c)
    ensures Refines(a, c)
  {
    forall q | 0 <= q < |a| ensures CellRefines(a[q], c[q]) {
      assert CellRefines(a[q], b[q]) && CellRefines(b[q], c[q]);
    }
  }

  lemma EliminateRefines(s: seq<set<int>>, p: int)
    requires |s| == 81 && 0 <= p < 81
    ensures Refines(s, Eliminate(s, p))
  {
    forall q | 0 <= q < 81 ensures CellRefines(s[q], Eliminate(s, p)[q]) {
      ReduceFacts(s[p], s[q]);
    }
  }

  /** `zip(*np.where(vlen(state) == 1))`: the singleton cells, row-major. */
  function SingletonPositions(s: seq<set<int>>): (r: seq<int>)
    requires |s| == 81
    ensures forall q :: q in r <==> 0 <= q < 81 && |s[q]| == 1
  {
    AllCellsFacts();
    Select(AllCells(), q => 0 <= q < 81 && |s[q]| == 1)
  }

  /** `state[vlen(state) == 1].size`: the number of singleton cells. */
  function SingletonCount(s: seq<set<int>>): (r: int)
    requires |s| == 81
    ensures 0 <= r <= 81
  {
    var ind := SingletonIndicator(s);
    var ones := seq(81, q requires 0 <= q < 81 => 1);
    SumLe(ind, ones);
    SumConst(ones, 1);
    SumZeroIff(ind);
    Sum(ind)
  }

  function SingletonIndicator(s: seq<set<int>>): (r: seq<int>)
    requires |s| == 81
    ensures |r| == 81 && forall q :: 0 <= q < 81 ==> r[q] == if |s[q]| == 1 then 1 else 0
  {
    seq(81, q requires 0 <= q < 81 => if |s[q]| == 1 then 1 else 0)
  }

  /** A refinement never loses a singleton, so the count can only grow; when it does not grow,
      the refinement has exactly the same singleton cells. */
  lemma SingletonCountGrows(s: seq<set<int>>, r: seq<set<int>>)
    requires |s| == 81 && Refines(s, r)
    ensures SingletonCount(s) <= SingletonCount(r)
    ensures SingletonCount(s) == SingletonCount(r) ==> forall q :: 0 <= q < 81 ==> (|r[q]| == 1 <==> |s[q]| == 1)
  {
    var a, b := SingletonIndicator(s), SingletonIndicator(r);
    assert forall q :: 0 <= q < 81 ==> a[q] <= b[q] by {
      forall q | 0 <= q < 81 ensures a[q] <= b[q] {
        assert CellRefines(s[q], r[q]);
      }
    }
    SumLe(a, b);
    forall q | 0 <= q < 81 && |r[q]| == 1 && |s[q]| != 1 ensures SingletonCount(s) < SingletonCount(r) {
      SumLt(a, b, q);
    }
    forall q | 0 <= q < 81 && |s[q]| == 1 ensures |r[q]| == 1 {
      assert CellRefines(s[q], r[q]);
    }
  }

  /** One pass: `Eliminate` for each listed cell, in order, on the evolving state. */
  function Pass(s: seq<set<int>>, ps: seq<int>): (r: seq<set<int>>)
    requires |s| == 81 && forall p :: p in ps ==> 0 <= p < 81
    ensures Refines(s, r)
    decreases |ps|
  {
    if ps == [] then s
    else
      assert ps[0] in ps;
      assert forall p :: p in ps[1..] ==> p in ps;
      var next := Eliminate(s, ps[0]);
      EliminateRefines(s, ps[0]);
      var r := Pass(next, ps[1..]);
      RefinesTrans(s, next, r);
      r
  }

  /** Singleton `p` and peer `q` are settled: the singleton's digit is absent from the peer, or
      the peer is that same singleton. */
  predicate Settled(s: seq<set<int>>, p: int, q: int)
    requires |s| == 81 && 0 <= p < 81 && 0 <= q < 81
  {
    |s[p]| == 1 && InUnit(p, q) ==> s[p] !! s[q] || s[q] == s[p]
  }

  /** No singleton strictly lies inside a peer: propagation has nothing left to remove. */
  predicate Stable(s: seq<set<int>>)
    requires |s| == 81
  {
    forall p, q :: 0 <= p < 81 && 0 <= q < 81 ==> Settled(s, p, q)
  }

  /** A singleton that is not strictly inside a peer stays so while the peer is refined. */
  lemma NotInsideKept(v: set<int>, x: set<int>, y: set<int>)
    requires |v| == 1 && !(v < x) && CellRefines(x, y)
    ensures !(v < y)
  {
    SingletonInsideIff(v, x);
    SingletonInsideIff(v, y);
  }

  /** After a pass over `ps`, every listed singleton is settled with each of its peers. */
  lemma {:induction false} PassSettles(s: seq<set<int>>, ps: seq<int>, p: int, q: int)
    requires |s| == 81 && forall c :: c in ps ==> 0 <= c < 81
    requires p in ps && |s[p]| == 1 && 0 <= q < 81 && InUnit(p, q)
    ensures Pass(s, ps)[p] == s[p] && !(s[p] < Pass(s, ps)[q])
    decreases |ps|
  {
    assert ps[0] in ps && forall c :: c in ps[1..] ==> c in ps;
    var next := Eliminate(s, ps[0]);
    var r := Pass(next, ps[1..]);
    assert Pass(s, ps) == r;
    ReduceFacts(s[ps[0]], s[p]);
    assert next[p] == s[p];
    if ps[0] == p {
      ReduceFacts(s[p], s[q]);
      assert CellRefines(next[q], r[q]);
      NotInsideKept(s[p], next[q], r[q]);
      assert CellRefines(next[p], r[p]);
    } else {
      PassSettles(next, ps[1..], p, q);
    }
  }

  /** On a stable state a pass changes nothing. */
  lemma {:induction false} PassOnStable(s: seq<set<int>>, ps: seq<int>)
    requires |s| == 81 && Stable(s) && forall c :: c in ps ==> 0 <= c < 81 && |s[c]| == 1
    ensures Pass(s, ps) == s
    decreases |ps|
  {
    if ps != [] {
      var p := ps[0];
      assert p in ps && forall c :: c in ps[1..] ==> c in ps;
      forall q | 0 <= q < 81 ensures Eliminate(s, p)[q] == s[q] {
        assert Settled(s, p, q);
        SingletonInsideIff(s[p], s[q]);
      }
      assert Eliminate(s, p) == s;
      PassOnStable(s, ps[1..]);
    }
  }

  /** A pass that adds no singleton leaves a stable state. */
  lemma PassFixpoint(s: seq<set<int>>, r: seq<set<int>>)
    requires |s| == 81 && r == Pass(s, SingletonPositions(s))
    requires SingletonCount(r) == SingletonCount(s)
    ensures Stable(r)
  {
    var ps := SingletonPositions(s);
    SingletonCountGrows(s, r);
    forall p, q | 0 <= p < 81 && 0 <= q < 81 ensures Settled(r, p, q) {
      if |r[p]| == 1 && InUnit(p, q) {
        PassSettles(s, ps, p, q);
        SingletonInsideIff(r[p], r[q]);
      }
    }
  }

  // ---------------------------------------------------------------------------------------
  // Soundness: every removal is an inference from a singleton peer
  // ---------------------------------------------------------------------------------------

  /** `g` is a completed grid of digits 1..9 that repeats no digit in a row, column or box and
      picks one candidate from every cell of `s`. */
  predicate Solution(s: seq<set<int>>, g: seq<int>)
    requires |s| == 81
  {
    |g| == 81 && Utils.Consistent(g) && forall q :: 0 <= q < 81 ==> 1 <= g[q] <= 9 && g[q] in s[q]
  }

  /** Every candidate that a cell of `s` lost on the way to `r` is the digit of a singleton
      peer of that cell in `r`. */
  ghost predicate Justified(s: seq<set<int>>, r: seq<set<int>>)
    requires |s| == 81 && |r| == 81
  {
    forall q, v :: 0 <= q < 81 ==> JustifiedAt(s, r, q, v)
  }

  /** If cell `q` lost candidate `v`, some peer of `q` is the singleton `{v}` in `r`. */
  predicate JustifiedAt(s: seq<set<int>>, r: seq<set<int>>, q: int, v: int)
    requires |s| == 81 && |r| == 81 && 0 <= q < 81
  {
    v in s[q] && v !in r[q] ==> exists p :: 0 <= p < 81 && p != q && InUnit(p, q) && r[p] == {v}
  }

  /** A one-element set holding `e` is `{e}`. */
  lemma SingletonIs(x: set<int>, e: int)
    requires |x| == 1 && e in x
    ensures x == {e}
  {
    var rest := x - {e};
    assert x == {e} + rest && {e} * rest == {};
    assert |rest| == 0;
  }

  /** Justifications compose along refinements: a singleton peer that justified a removal stays
      that singleton. */
  lemma JustifiedTrans(a: seq<set<int>>, b: seq<set<int>>, c: seq<set<int>>)
    requires |a| == 81 && |b| == 81 && Refines(b, c) && Justified(a, b) && Justified(b, c)
    ensures Justified(a, c)
  {
    forall q, v | 0 <= q < 81 ensures JustifiedAt(a, c, q, v) {
      assert JustifiedAt(a, b, q, v) && JustifiedAt(b, c, q, v);
      if v in a[q] && v !in b[q] {
        var p :| 0 <= p < 81 && p != q && InUnit(p, q) && b[p] == {v};
        assert CellRefines(b[p], c[p]);
      }
    }
  }

  /** The reductions of a singleton cell remove only its digit, and only from its peers, and
      every completed grid the state admits is still admitted. */
  lemma EliminateSound(s: seq<set<int>>, p: int)
    requires |s| == 81 && 0 <= p < 81 && |s[p]| == 1
    ensures Justified(s, Eliminate(s, p))
    ensures forall g :: Solution(s, g) ==> Solution(Eliminate(s, p), g)
  {
    var r := Eliminate(s, p);
    assert SameRow(p, p);
    ReduceFacts(s[p], s[p]);
    assert r[p] == s[p];
    forall q, v | 0 <= q < 81 ensures JustifiedAt(s, r, q, v) {
      if v in s[q] && v !in r[q] {
        assert InUnit(p, q) && s[p] < s[q] && r[q] == s[q] - s[p];
        SingletonIs(s[p], v);
        assert p != q && InUnit(p, q) && r[p] == {v};
      }
    }
    forall g | Solution(s, g) ensures Solution(r, g) {
      forall q | 0 <= q < 81 ensures g[q] in r[q] {
        if InUnit(p, q) && s[p] < s[q] {
          SingletonIs(s[p], g[p]);
          assert Utils.PeersDiffer(g, p, q);
        }
      }
    }
  }

  /** A pass over singleton cells removes only justified candidates and keeps every completed
      grid the state admits. */
  lemma {:induction false} PassSound(s: seq<set<int>>, ps: seq<int>)
    requires |s| == 81 && forall c :: c in ps ==> 0 <= c < 81 && |s[c]| == 1
    ensures Justified(s, Pass(s, ps))
    ensures forall g :: Solution(s, g) ==> Solution(Pass(s, ps), g)
    decreases |ps|
  {
    if ps != [] {
      assert ps[0] in ps;
      var next := Eliminate(s, ps[0]);
      EliminateSound(s, ps[0]);
      EliminateRefines(s, ps[0]);
      forall c | c in ps[1..] ensures 0 <= c < 81 && |next[c]| == 1 {
        assert c in ps;
        assert CellRefines(s[c], next[c]);
      }
      PassSound(next, ps[1..]);
      assert Pass(s, ps) == Pass(next, ps[1..]);
      JustifiedTrans(s, next, Pass(next, ps[1..]));
    }
  }

  /** `normalize_state`: passes over the current singletons until the singleton count stops
      growing; the state after the last pass is returned. The result refines the input (cells
      only shrink, singletons stay, non-empty cells stay non-empty), it is stable, and a stable
      input comes back unchanged, so normalizing twice is normalizing once. It never fails:
      there is no `None` result. Every removed candidate is the digit of a singleton peer in the
      result, and every completed grid the input admits is still admitted: propagation is
      sound inference. */
  method Normalize(s: seq<set<int>>) returns (r: seq<set<int>>)
    requires |s| == 81
    ensures Refines(s, r)
    ensures Stable(r)
    ensures Stable(s) ==> r == s
    ensures Justified(s, r)
    ensures forall g :: Solution(s, g) ==> Solution(r, g)
  {
    r := s;
    while true
      invariant Refines(s, r)
      invariant Stable(s) ==> r == s
      invariant Justified(s, r)
      invariant forall g :: Solution(s, g) ==> Solution(r, g)
      decreases 81 - SingletonCount(r)
    {
      var toNormalize := SingletonCount(r);
      var next := Pass(r, SingletonPositions(r));
      PassSound(r, SingletonPositions(r));
      JustifiedTrans(s, r, next);
      RefinesTrans(s, r, next);
      SingletonCountGrows(r, next);
      if Stable(s) {
        PassOnStable(r, SingletonPositions(r));
      }
      if SingletonCount(next) == toNormalize {
        PassFixpoint(r, next);
        r := next;
        return;
      }
      r := next;
    }
  }
}
