/**
 Helpers shared by the formulations (utils.py, with `validate_state` also duplicated in
 sudoku.py): the legal-digit test and count for one cell, grid validation, the compact
 81-character rendering of a state and the per-line parse of the puzzle loader.
 */
module Utils {
  import opened Seqs
  import opened Grid

  datatype Option<T> = None | Some(value: T)

  /** Every cell holds a digit 0..9, 0 meaning blank. */
  predicate IsDigitGrid(s: seq<int>)
  {
    |s| == 81 && forall p :: 0 <= p < 81 ==> 0 <= s[p] <= 9
  }

  /** No cell is negative (numpy's `bincount` rejects negative entries). */
  predicate NonNegative(s: seq<int>)
  {
    forall p :: 0 <= p < |s| ==> 0 <= s[p]
  }

  /** Digit `k` is absent from row i, column j and the square of (i, j). */
  predicate Legal(s: seq<int>, i: int, j: int, k: int)
    requires |s| == 81 && 0 <= i < 9 && 0 <= j < 9
  {
    k !in Row(s, i) && k !in Col(s, j) && k !in Square(s, i, j)
  }

  /** Number of legal digits among d..9. */
  function CountLegalFrom(s: seq<int>, i: int, j: int, d: int): (r: nat)
    requires |s| == 81 && 0 <= i < 9 && 0 <= j < 9 && 1 <= d <= 10
    ensures r <= 10 - d
    ensures r == 0 <==> forall e :: d <= e <= 9 ==> !Legal(s, i, j, e)
    decreases 10 - d
  {
    if d == 10 then 0
    else (if Legal(s, i, j, d) then 1 else 0) + CountLegalFrom(s, i, j, d + 1)
  }

  /** `count_possibilities`: how many digits 1..9 are missing from the row, the column and
      the square of (i, j) at once (`setdiff1d` of 1..9 against all three). */
  function CountPossibilities(s: seq<int>, i: int, j: int): (r: nat)
    requires |s| == 81 && 0 <= i < 9 && 0 <= j < 9
    ensures r <= 9
    ensures r == 0 <==> forall k :: 1 <= k <= 9 ==> !Legal(s, i, j, k)
  {
    CountLegalFrom(s, i, j, 1)
  }

  /** Row/column/box uniqueness of the filled cells: no two distinct cells of one unit hold
      the same non-zero digit. */
  predicate Consistent(s: seq<int>)
    requires |s| == 81
  {
    forall p, q :: 0 <= p < 81 && 0 <= q < 81 ==> PeersDiffer(s, p, q)
  }

  predicate PeersDiffer(s: seq<int>, p: int, q: int)
    requires |s| == 81 && 0 <= p < 81 && 0 <= q < 81
  {
    p != q && InUnit(p, q) && s[p] != 0 ==> s[p] != s[q]
  }

  /** Number of non-zero entries, `len(x[x.nonzero()])`. */
  function NonZeroCount(g: seq<int>): nat
    decreases |g|
  {
    if g == [] then 0 else (if g[0] != 0 then 1 else 0) + NonZeroCount(g[1..])
  }

  /** One group passes the check in `validate_state`: its non-zero entries are only
      `bincount`-ed when there are more than two of them. */
  predicate GroupAccepted(g: seq<int>)
  {
    NonZeroCount(g) > 2 ==> NoRepeatNonZero(g)
  }

  /** `validate_state` as written: for every filled cell, its row, column and square pass
      `GroupAccepted`. */
  predicate ValidateState(s: seq<int>)
    requires |s| == 81 && NonNegative(s)
  {
    forall p :: 0 <= p < 81 ==> CellAccepted(s, p)
  }

  predicate CellAccepted(s: seq<int>, p: int)
    requires |s| == 81 && 0 <= p < 81
  {
    s[p] > 0 ==>
      GroupAccepted(Row(s, p / 9)) && GroupAccepted(Col(s, p % 9)) && GroupAccepted(Square(s, p / 9, p % 9))
  }

  /** `validate_state` with the guard `len(x) > 0`, which only avoids `bincount` of an
      empty array: every group of a filled cell must be free of repeated digits. */
  predicate ValidateStrict(s: seq<int>)
    requires |s| == 81 && NonNegative(s)
  {
    forall p :: 0 <= p < 81 ==> CellSound(s, p)
  }

  predicate CellSound(s: seq<int>, p: int)
    requires |s| == 81 && 0 <= p < 81
  {
    s[p] > 0 ==>
      NoRepeatNonZero(Row(s, p / 9)) && NoRepeatNonZero(Col(s, p % 9)) && NoRepeatNonZero(Square(s, p / 9, p % 9))
  }

  /** A group with a non-zero entry has a cell holding it. */
  lemma {:induction false} NonZeroWitness(g: seq<int>) returns (c: int)
    requires NonZeroCount(g) > 0
    ensures 0 <= c < |g| && g[c] != 0
    decreases |g|
  {
    if g[0] != 0 {
      c := 0;
    } else {
      var c' := NonZeroWitness(g[1..]);
      c := c' + 1;
    }
  }

  /** A group whose entries past the second are all zero has at most two non-zero entries. */
  lemma {:induction false} AtMostTwoNonZero(g: seq<int>)
    requires |g| >= 2 && forall a :: 2 <= a < |g| ==> g[a] == 0
    ensures NonZeroCount(g) <= 2
  {
    AllZeroCount(g[2..]);
    assert g[1..][1..] == g[2..];
  }

  lemma {:induction false} AllZeroCount(g: seq<int>)
    requires forall a :: 0 <= a < |g| ==> g[a] == 0
    ensures NonZeroCount(g) == 0
    decreases |g|
  {
    if g != [] {
      AllZeroCount(g[1..]);
    }
  }

  /** `validate_state` read group by group: the grid is accepted exactly when every row,
      every column and every box with more than two filled cells repeats no digit. */
  lemma ValidateStateByGroups(s: seq<int>)
    requires |s| == 81 && NonNegative(s)
    ensures ValidateState(s) <==>
      (forall i :: 0 <= i < 9 ==> GroupAccepted(Row(s, i))) &&
      (forall j :: 0 <= j < 9 ==> GroupAccepted(Col(s, j))) &&
      (forall b :: 0 <= b < 9 ==> GroupAccepted(Box(s, b)))
  {
    if ValidateState(s) {
      AcceptedGroups(s);
    } else {
      var p :| 0 <= p < 81 && !CellAccepted(s, p);
      RejectedCellGroup(s, p);
    }
  }

  /** A filled cell that fails the check names a row, a column or a box that fails it. */
  lemma RejectedCellGroup(s: seq<int>, p: int)
    requires |s| == 81 && 0 <= p < 81 && !CellAccepted(s, p)
    ensures (exists i :: 0 <= i < 9 && !GroupAccepted(Row(s, i))) ||
      (exists j :: 0 <= j < 9 && !GroupAccepted(Col(s, j))) ||
      (exists b :: 0 <= b < 9 && !GroupAccepted(Box(s, b)))
  {
    var i, j := p / 9, p % 9;
    assert 0 <= i < 9 && 0 <= j < 9;
    var b := BoxNumber(i, j);
    assert 0 <= b < 9;
    assert Square(s, i, j) == Box(s, b);
    if !GroupAccepted(Row(s, i)) {
    } else if !GroupAccepted(Col(s, j)) {
    } else {
      assert !GroupAccepted(Box(s, b));
    }
  }

  /** Every row, column and box of an accepted grid passes the group check. */
  lemma AcceptedGroups(s: seq<int>)
    requires |s| == 81 && NonNegative(s) && ValidateState(s)
    ensures forall i :: 0 <= i < 9 ==> GroupAccepted(Row(s, i))
    ensures forall j :: 0 <= j < 9 ==> GroupAccepted(Col(s, j))
    ensures forall b :: 0 <= b < 9 ==> GroupAccepted(Box(s, b))
  {
    forall i | 0 <= i < 9 ensures GroupAccepted(Row(s, i)) {
      if NonZeroCount(Row(s, i)) > 2 {
        var c := NonZeroWitness(Row(s, i));
        assert CellAccepted(s, Idx(i, c)) && s[Idx(i, c)] > 0 && Idx(i, c) / 9 == i;
      }
    }
    forall j | 0 <= j < 9 ensures GroupAccepted(Col(s, j)) {
      if NonZeroCount(Col(s, j)) > 2 {
        var c := NonZeroWitness(Col(s, j));
        assert CellAccepted(s, Idx(c, j)) && s[Idx(c, j)] > 0 && Idx(c, j) % 9 == j;
      }
    }
    forall b | 0 <= b < 9 ensures GroupAccepted(Box(s, b)) {
      if NonZeroCount(Box(s, b)) > 2 {
        var t := NonZeroWitness(Box(s, b));
        BoxCellInverse(b, t);
        var p := BoxCell(b, t);
        assert CellAccepted(s, p) && s[p] > 0 && Square(s, p / 9, p % 9) == Box(s, b);
      }
    }
  }

  /** The corrected check accepts exactly the consistent grids. */
  lemma ValidateStrictIffConsistent(s: seq<int>)
    requires |s| == 81 && NonNegative(s)
    ensures ValidateStrict(s) <==> Consistent(s)
  {
    if ValidateStrict(s) {
      forall p, q | 0 <= p < 81 && 0 <= q < 81 ensures PeersDiffer(s, p, q) {
        if p != q && InUnit(p, q) && s[p] != 0 && s[p] == s[q] {
          RepeatedInUnit(s, p, q);
        }
      }
    }
    if Consistent(s) {
      forall p | 0 <= p < 81 ensures CellSound(s, p) {
        ConsistentUnitsSound(s, p);
      }
    }
  }

  lemma ConsistentUnitsSound(s: seq<int>, p: int)
    requires |s| == 81 && Consistent(s) && 0 <= p < 81
    ensures CellSound(s, p)
  {
    ConsistentRowSound(s, p / 9);
    ConsistentColSound(s, p % 9);
    ConsistentBoxSound(s, BoxOf(p));
  }

  lemma ConsistentRowSound(s: seq<int>, i: int)
    requires |s| == 81 && Consistent(s) && 0 <= i < 9
    ensures NoRepeatNonZero(Row(s, i))
  {
    forall a, c | 0 <= a < c < 9 && Row(s, i)[a] != 0 ensures Row(s, i)[a] != Row(s, i)[c] {
      assert PeersDiffer(s, Idx(i, a), Idx(i, c)) && SameRow(Idx(i, a), Idx(i, c));
    }
  }

  lemma ConsistentColSound(s: seq<int>, j: int)
    requires |s| == 81 && Consistent(s) && 0 <= j < 9
    ensures NoRepeatNonZero(Col(s, j))
  {
    forall a, c | 0 <= a < c < 9 && Col(s, j)[a] != 0 ensures Col(s, j)[a] != Col(s, j)[c] {
      assert PeersDiffer(s, Idx(a, j), Idx(c, j)) && SameCol(Idx(a, j), Idx(c, j));
    }
  }

  lemma ConsistentBoxSound(s: seq<int>, b: int)
    requires |s| == 81 && Consistent(s) && 0 <= b < 9
    ensures NoRepeatNonZero(Box(s, b))
  {
    forall a, c | 0 <= a < c < 9 && Box(s, b)[a] != 0 ensures Box(s, b)[a] != Box(s, b)[c] {
      BoxCellInverse(b, a);
      BoxCellInverse(b, c);
      assert PeersDiffer(s, BoxCell(b, a), BoxCell(b, c)) && SameBox(BoxCell(b, a), BoxCell(b, c));
    }
  }

  /** Two distinct cells of one unit with the same non-zero digit break the strict check. */
  lemma RepeatedInUnit(s: seq<int>, p: int, q: int)
    requires |s| == 81 && NonNegative(s)
    requires 0 <= p < 81 && 0 <= q < 81 && p != q && InUnit(p, q) && s[p] != 0 && s[p] == s[q]
    ensures !ValidateStrict(s)
  {
    if SameRow(p, q) {
      RepeatInRow(s, p, q);
    } else if SameCol(p, q) {
      RepeatInCol(s, p, q);
    } else {
      RepeatInBox(s, p, q);
    }
    assert !CellSound(s, p);
  }

  lemma RepeatInRow(s: seq<int>, p: int, q: int)
    requires |s| == 81 && 0 <= p < 81 && 0 <= q < 81 && p != q && SameRow(p, q)
    requires s[p] != 0 && s[p] == s[q]
    ensures !NoRepeatNonZero(Row(s, p / 9))
  {
    var i, a, b := p / 9, p % 9, q % 9;
    assert p == Idx(i, a) && q == Idx(i, b);
    var r := Row(s, i);
    assert r[a] == s[p] && r[b] == s[q];
    RepeatAt(r, a, b);
  }

  lemma RepeatInCol(s: seq<int>, p: int, q: int)
    requires |s| == 81 && 0 <= p < 81 && 0 <= q < 81 && p != q && SameCol(p, q)
    requires s[p] != 0 && s[p] == s[q]
    ensures !NoRepeatNonZero(Col(s, p % 9))
  {
    var j, a, b := p % 9, p / 9, q / 9;
    assert p == Idx(a, j) && q == Idx(b, j);
    var r := Col(s, j);
    assert r[a] == s[p] && r[b] == s[q];
    RepeatAt(r, a, b);
  }

  lemma RepeatInBox(s: seq<int>, p: int, q: int)
    requires |s| == 81 && 0 <= p < 81 && 0 <= q < 81 && p != q && SameBox(p, q)
    requires s[p] != 0 && s[p] == s[q]
    ensures !NoRepeatNonZero(Square(s, p / 9, p % 9))
  {
    BoxCellOf(p);
    BoxCellOf(q);
    var bx, a, b := BoxOf(p), BoxIndex(p), BoxIndex(q);
    assert BoxCell(bx, a) == p && BoxCell(bx, b) == q;
    var r := Box(s, bx);
    assert r == Square(s, p / 9, p % 9);
    assert r[a] == s[p] && r[b] == s[q];
    RepeatAt(r, a, b);
  }

  /** The check as written accepts every consistent grid (it is never too strict). */
  lemma ConsistentIsAccepted(s: seq<int>)
    requires |s| == 81 && NonNegative(s)
    ensures Consistent(s) ==> ValidateState(s)
  {
    ValidateStrictIfConsistent(s);
    if Consistent(s) {
      forall p | 0 <= p < 81 ensures CellAccepted(s, p) {
        assert CellSound(s, p);
      }
    }
  }

  lemma ValidateStrictIfConsistent(s: seq<int>)
    requires |s| == 81 && NonNegative(s)
    ensures Consistent(s) ==> ValidateStrict(s)
  {
    ValidateStrictIffConsistent(s);
  }

  /** A grid whose first row starts with two 5s and is otherwise blank. */
  const TwoFives: seq<int> := [5, 5] + seq(79, _ => 0)

  /** The check as written lets a row with exactly two equal givens through. */
  lemma TwoEqualGivensAccepted()
    ensures |TwoFives| == 81 && NonNegative(TwoFives)
    ensures ValidateState(TwoFives)
    ensures !Consistent(TwoFives)
    ensures !ValidateStrict(TwoFives)
  {
    var s := TwoFives;
    TwoFivesCells();
    forall p | 0 <= p < 81 ensures CellAccepted(s, p) {
      if s[p] > 0 {
        TwoFivesGroups(p);
      }
    }
    assert SameRow(0, 1) && InUnit(0, 1);
    RepeatedInUnit(s, 0, 1);
    ValidateStrictIffConsistent(s);
  }

  lemma TwoFivesCells()
    ensures |TwoFives| == 81 && NonNegative(TwoFives)
    ensures TwoFives[0] == 5 && TwoFives[1] == 5
    ensures forall p :: 2 <= p < 81 ==> TwoFives[p] == 0
  {
  }

  /** The groups of the two 5s each hold them and blanks only. */
  lemma TwoFivesGroups(p: int)
    requires p == 0 || p == 1
    ensures GroupAccepted(Row(TwoFives, p / 9)) && GroupAccepted(Col(TwoFives, p % 9))
    ensures GroupAccepted(Square(TwoFives, p / 9, p % 9))
  {
    assert p / 9 == 0 && p % 9 == p && BoxNumber(0, p) == 0;
    TwoFivesRow();
    TwoFivesCol(p);
    TwoFivesBox();
  }

  lemma TwoFivesRow()
    ensures GroupAccepted(Row(TwoFives, 0))
  {
    TwoFivesCells();
    var g := Row(TwoFives, 0);
    forall c | 2 <= c < 9 ensures g[c] == 0 {
      assert Idx(0, c) == c;
    }
    AtMostTwoNonZero(g);
  }

  lemma TwoFivesCol(j: int)
    requires j == 0 || j == 1
    ensures GroupAccepted(Col(TwoFives, j))
  {
    TwoFivesCells();
    var g := Col(TwoFives, j);
    forall c | 2 <= c < 9 ensures g[c] == 0 {
      assert Idx(c, j) >= 18;
    }
    AtMostTwoNonZero(g);
  }

  lemma TwoFivesBox()
    ensures GroupAccepted(Box(TwoFives, 0))
  {
    TwoFivesCells();
    var g := Box(TwoFives, 0);
    forall t | 2 <= t < 9 ensures g[t] == 0 {
      if t < 3 {
        assert BoxCell(0, t) == 2;
      } else {
        assert t / 3 >= 1 && BoxCell(0, t) >= 9;
      }
    }
    AtMostTwoNonZero(g);
  }

  /** Character of a decimal digit. */
  function DigitChar(d: int): char
    requires 0 <= d <= 9
  {
    (48 + d) as char
  }

  /** Python's `str` of a non-negative int. */
  function NatStr(n: nat): string
    decreases n
  {
    if n < 10 then [DigitChar(n)] else NatStr(n / 10) + [DigitChar(n % 10)]
  }

  /** Python's `str` of an int. */
  function Str(n: int): (r: string)
    ensures 0 <= n <= 9 ==> r == [DigitChar(n)]
  {
    if n < 0 then "-" + NatStr(-n) else NatStr(n)
  }

  /** `''.join(map(str, state))`. */
  function Join(s: seq<int>): (r: string)
    ensures (forall q :: 0 <= q < |s| ==> 0 <= s[q] <= 9) ==>
      |r| == |s| && forall q :: 0 <= q < |s| ==> r[q] == DigitChar(s[q])
    decreases |s|
  {
    if s == [] then "" else Str(s[0]) + Join(s[1..])
  }

  /** `compact` on a digit state: one character per cell, `str` of its value. */
  function Compact(s: seq<int>): (r: string)
    requires |s| > 0
    ensures (forall q :: 0 <= q < |s| ==> 0 <= s[q] <= 9) ==>
      |r| == |s| && forall q :: 0 <= q < |s| ==> r[q] == DigitChar(s[q])
  {
    Join(s)
  }

  /** The value shown for a candidate set: its element when it is a singleton, else 0. */
  function Pretty(c: set<int>): int
  {
    if |c| == 1 then
      SingletonHasOneElement(c);
      var v :| v in c;
      v
    else 0
  }

  /** A set of size one has an element, and every element is that one. */
  lemma SingletonHasOneElement(c: set<int>)
    requires |c| == 1
    ensures exists v :: v in c
    ensures forall v :: v in c ==> c == {v}
  {
    if forall v :: v !in c { assert false; }
    forall v | v in c ensures c == {v} {
      assert |c - {v}| == 0;
      assert c - {v} == {};
    }
  }

  /** `compact` on a candidate-set state: singletons show their element, every other cell
      (ambiguous or empty) shows '0'. */
  function CompactSets(s: seq<set<int>>): (r: string)
    requires |s| > 0
    ensures (forall q, v :: 0 <= q < |s| && s[q] == {v} ==> 0 <= v <= 9) ==>
      |r| == |s| &&
      (forall q, v :: 0 <= q < |s| && s[q] == {v} ==> r[q] == DigitChar(v)) &&
      (forall q :: 0 <= q < |s| && |s[q]| != 1 ==> r[q] == '0')
  {
    var shown := seq(|s|, q requires 0 <= q < |s| => Pretty(s[q]));
    assert forall q :: 0 <= q < |s| && |s[q]| == 1 ==> s[q] == {shown[q]} by {
      forall q | 0 <= q < |s| && |s[q]| == 1 ensures s[q] == {shown[q]} {
        SingletonHasOneElement(s[q]);
      }
    }
    Compact(shown)
  }

  /** `int` of a one-character string: a decimal digit, anything else is a `ValueError`. */
  function DigitValue(c: char): Option<int>
  {
    if '0' <= c <= '9' then Some(c as int - 48) else None
  }

  /** `tuple(map(int, text))`. */
  function ParseDigits(text: string): (r: Option<seq<int>>)
    ensures r.Some? <==> forall q :: 0 <= q < |text| ==> '0' <= text[q] <= '9'
    ensures r.Some? ==> |r.value| == |text| && forall q :: 0 <= q < |text| ==> r.value[q] == text[q] as int - 48
    decreases |text|
  {
    if text == [] then Some([])
    else match (DigitValue(text[0]), ParseDigits(text[1..]))
      case (Some(d), Some(rest)) => Some([d] + rest)
      case _ => None
  }

  /** The per-line parse of `load_examples`: the last character (the newline) is cut off
      with `line[:-1]` and every remaining character must be a digit. */
  function ParseLine(line: string): Option<seq<int>>
  {
    if line == [] then ParseDigits([]) else ParseDigits(line[..|line| - 1])
  }

  /** Rendering a digit state and parsing the line back (with any terminator) returns it. */
  lemma CompactThenParse(s: seq<int>, terminator: char)
    requires |s| > 0 && forall q :: 0 <= q < |s| ==> 0 <= s[q] <= 9
    ensures ParseLine(Compact(s) + [terminator]) == Some(s)
  {
    var line := Compact(s) + [terminator];
    assert line[..|line| - 1] == Compact(s);
    var r := ParseDigits(Compact(s));
    assert r.Some?;
    assert r.value == s;
  }

  /** Conversely, a line that parses is the rendering of what it parses to, plus its last
      character. */
  lemma ParseThenCompact(line: string)
    requires ParseLine(line).Some? && |ParseLine(line).value| > 0
    ensures Compact(ParseLine(line).value) + [line[|line| - 1]] == line
  {
  }
}
