/**
 Geometry of the 9x9 grid stored as a flat 81-cell sequence in row-major order:
 cell (i, j) lives at index 9*i + j, and box b (numbered 3*boxRow + boxCol) holds the
 nine cells of a 3x3 square. Rows, columns and boxes are the three peer groups.
 */
module Grid {
  import opened Seqs

  function Idx(i: int, j: int): int { 9 * i + j }

  /** Box number of cell (i, j): the `i//3*3 : i//3*3+3, j//3*3 : j//3*3+3` slice. */
  function BoxNumber(i: int, j: int): int { 3 * (i / 3) + j / 3 }

  function BoxOf(p: int): int { BoxNumber(p / 9, p % 9) }

  /** Position of cell `p` inside its box, reading the box row by row. */
  function BoxIndex(p: int): int { 3 * ((p / 9) % 3) + (p % 9) % 3 }

  /** The `t`-th cell of box `b`, reading the box row by row. */
  function BoxCell(b: int, t: int): int { Idx(3 * (b / 3) + t / 3, 3 * (b % 3) + t % 3) }

  predicate SameRow(p: int, q: int) { p / 9 == q / 9 }
  predicate SameCol(p: int, q: int) { p % 9 == q % 9 }
  predicate SameBox(p: int, q: int) { BoxOf(p) == BoxOf(q) }

  /** `q` lies in the row, the column or the box of `p` (including `p` itself). */
  predicate InUnit(p: int, q: int) { SameRow(p, q) || SameCol(p, q) || SameBox(p, q) }

  /** Box cells and box positions are two coordinates for the same 81 cells. */
  lemma BoxCellInverse(b: int, t: int)
    requires 0 <= b < 9 && 0 <= t < 9
    ensures 0 <= BoxCell(b, t) < 81
    ensures BoxOf(BoxCell(b, t)) == b && BoxIndex(BoxCell(b, t)) == t
  {
    var br, bc, tr, tc := b / 3, b % 3, t / 3, t % 3;
    var i, j := 3 * br + tr, 3 * bc + tc;
    assert 0 <= i < 9 && 0 <= j < 9;
    assert BoxCell(b, t) == 9 * i + j;
    assert (9 * i + j) / 9 == i && (9 * i + j) % 9 == j;
    assert i / 3 == br && i % 3 == tr && j / 3 == bc && j % 3 == tc;
  }

  lemma BoxCellOf(p: int)
    requires 0 <= p < 81
    ensures 0 <= BoxOf(p) < 9 && 0 <= BoxIndex(p) < 9
    ensures BoxCell(BoxOf(p), BoxIndex(p)) == p
  {
    var i, j := p / 9, p % 9;
    assert p == 9 * i + j && 0 <= i < 9 && 0 <= j < 9;
    var b, t := 3 * (i / 3) + j / 3, 3 * (i % 3) + j % 3;
    assert BoxOf(p) == b && BoxIndex(p) == t;
    assert 0 <= i / 3 < 3 && 0 <= j / 3 < 3 && 0 <= i % 3 < 3 && 0 <= j % 3 < 3;
    assert b / 3 == i / 3 && b % 3 == j / 3;
    assert t / 3 == i % 3 && t % 3 == j % 3;
    assert 3 * (i / 3) + i % 3 == i && 3 * (j / 3) + j % 3 == j;
  }

  /** Cell indices 0..80 in row-major order. */
  function AllCells(): seq<int> { seq(81, q requires 0 <= q < 81 => q) }

  lemma AllCellsFacts()
    ensures forall q :: q in AllCells() <==> 0 <= q < 81
    ensures Increasing(AllCells())
  {
    var c := AllCells();
    assert |c| == 81 && forall q :: 0 <= q < 81 ==> c[q] == q;
    forall q | q in c ensures 0 <= q < 81 {
      var t :| 0 <= t < 81 && c[t] == q;
    }
    forall q | 0 <= q < 81 ensures q in c {
      assert c[q] == q;
    }
  }

  function RowCells(i: int): seq<int> { seq(9, c requires 0 <= c < 9 => Idx(i, c)) }
  function ColCells(j: int): seq<int> { seq(9, r requires 0 <= r < 9 => Idx(r, j)) }
  function BoxCells(b: int): seq<int> { seq(9, t requires 0 <= t < 9 => BoxCell(b, t)) }

  lemma RowCellsMembers(i: int)
    requires 0 <= i < 9
    ensures forall q :: q in RowCells(i) <==> 0 <= q < 81 && q / 9 == i
  {
    forall q | 0 <= q < 81 && q / 9 == i ensures q in RowCells(i) {
      assert RowCells(i)[q % 9] == q;
    }
  }

  lemma ColCellsMembers(j: int)
    requires 0 <= j < 9
    ensures forall q :: q in ColCells(j) <==> 0 <= q < 81 && q % 9 == j
  {
    forall q | 0 <= q < 81 && q % 9 == j ensures q in ColCells(j) {
      assert ColCells(j)[q / 9] == q;
    }
  }

  /** Reading a box row by row visits its cells in increasing order. */
  lemma BoxCellOrder(b: int, t: int, u: int)
    requires 0 <= b < 9 && 0 <= t < u < 9
    ensures BoxCell(b, t) < BoxCell(b, u)
  {
    assert t / 3 <= u / 3;
    if t / 3 == u / 3 {
      assert t % 3 < u % 3;
    } else {
      assert 9 * (t / 3) + 9 <= 9 * (u / 3);
    }
  }

  lemma BoxCellsMembers(b: int)
    requires 0 <= b < 9
    ensures forall q :: q in BoxCells(b) <==> 0 <= q < 81 && BoxOf(q) == b
    ensures Increasing(BoxCells(b))
  {
    forall t, u | 0 <= t < u < 9 ensures BoxCells(b)[t] < BoxCells(b)[u] {
      BoxCellOrder(b, t, u);
    }
    forall q | q in BoxCells(b) ensures 0 <= q < 81 && BoxOf(q) == b {
      var t :| 0 <= t < 9 && BoxCells(b)[t] == q;
      BoxCellInverse(b, t);
    }
    forall q | 0 <= q < 81 && BoxOf(q) == b ensures q in BoxCells(b) {
      BoxCellOf(q);
      assert BoxCells(b)[BoxIndex(q)] == q;
    }
  }

  /** The values held by the listed cells. */
  function Gather<T>(s: seq<T>, cells: seq<int>): (r: seq<T>)
    requires forall c :: c in cells ==> 0 <= c < |s|
    ensures |r| == |cells|
  {
    seq(|cells|, t requires 0 <= t < |cells| => assert cells[t] in cells; s[cells[t]])
  }

  /** Row `i`, column `j` and box `b` of a grid, each as nine values. */
  function Row<T>(s: seq<T>, i: int): (r: seq<T>)
    requires |s| == 81 && 0 <= i < 9
    ensures |r| == 9 && forall c :: 0 <= c < 9 ==> r[c] == s[Idx(i, c)]
  {
    Gather(s, RowCells(i))
  }

  function Col<T>(s: seq<T>, j: int): (r: seq<T>)
    requires |s| == 81 && 0 <= j < 9
    ensures |r| == 9 && forall c :: 0 <= c < 9 ==> r[c] == s[Idx(c, j)]
  {
    Gather(s, ColCells(j))
  }

  function Box<T>(s: seq<T>, b: int): (r: seq<T>)
    requires |s| == 81 && 0 <= b < 9
    ensures |r| == 9 && forall t :: 0 <= t < 9 ==> r[t] == s[BoxCell(b, t)]
  {
    forall t | 0 <= t < 9 { BoxCellInverse(b, t); }
    Gather(s, BoxCells(b))
  }

  /** The 3x3 square containing cell (i, j), as numpy slices it. */
  function Square<T>(s: seq<T>, i: int, j: int): (r: seq<T>)
    requires |s| == 81 && 0 <= i < 9 && 0 <= j < 9
    ensures |r| == 9
  {
    Box(s, BoxNumber(i, j))
  }

  /** Every cell is found in its own row, column and square, at the expected slot. */
  lemma CellInUnits<T>(s: seq<T>, p: int)
    requires |s| == 81 && 0 <= p < 81
    ensures Row(s, p / 9)[p % 9] == s[p]
    ensures Col(s, p % 9)[p / 9] == s[p]
    ensures Square(s, p / 9, p % 9)[BoxIndex(p)] == s[p]
    ensures s[p] in Row(s, p / 9) && s[p] in Col(s, p % 9) && s[p] in Square(s, p / 9, p % 9)
  {
    BoxCellOf(p);
  }

  /** A value in a unit of `p` is held by some cell of that unit. */
  lemma UnitMember(s: seq<int>, p: int, v: int) returns (q: int)
    requires |s| == 81 && 0 <= p < 81
    requires v in Row(s, p / 9) || v in Col(s, p % 9) || v in Square(s, p / 9, p % 9)
    ensures 0 <= q < 81 && InUnit(p, q) && s[q] == v
  {
    if v in Row(s, p / 9) {
      var c :| 0 <= c < 9 && Row(s, p / 9)[c] == v;
      q := Idx(p / 9, c);
      assert q / 9 == p / 9 && SameRow(p, q);
    } else if v in Col(s, p % 9) {
      var r :| 0 <= r < 9 && Col(s, p % 9)[r] == v;
      q := Idx(r, p % 9);
      assert q % 9 == p % 9 && SameCol(p, q);
    } else {
      var t :| 0 <= t < 9 && Square(s, p / 9, p % 9)[t] == v;
      BoxCellOf(p);
      BoxCellInverse(BoxOf(p), t);
      q := BoxCell(BoxOf(p), t);
      assert SameBox(p, q);
    }
  }

  /** Writing one cell changes a box in exactly that cell's slot. */
  lemma BoxAfterWrite<T>(s: seq<T>, p: int, v: T, b: int)
    requires |s| == 81 && 0 <= p < 81 && 0 <= b < 9
    ensures b == BoxOf(p) ==> Box(s[p := v], b) == Box(s, b)[BoxIndex(p) := v]
    ensures b != BoxOf(p) ==> Box(s[p := v], b) == Box(s, b)
  {
    BoxCellOf(p);
    forall t | 0 <= t < 9 { BoxCellInverse(b, t); }
  }
}
