/**
 Generic sequence facts used by every formulation: sums of integer sequences,
 occurrence counts, repetition-freedom, order-preserving selection, and the
 small cardinality facts behind the pigeonhole arguments about 3x3 boxes.
 */
module Seqs {

  /** Sum of a sequence of integers. */
  function Sum(a: seq<int>): int
    decreases |a|
  {
    if a == [] then 0 else a[0] + Sum(a[1..])
  }

  /** Pointwise smaller terms give a smaller sum. */
  lemma {:induction false} SumLe(a: seq<int>, b: seq<int>)
    requires |a| == |b|
    requires forall i :: 0 <= i < |a| ==> a[i] <= b[i]
    ensures Sum(a) <= Sum(b)
    decreases |a|
  {
    if a != [] {
      SumLe(a[1..], b[1..]);
    }
  }

  /** Pointwise smaller terms, one of them strictly, give a strictly smaller sum. */
  lemma {:induction false} SumLt(a: seq<int>, b: seq<int>, k: int)
    requires |a| == |b| && 0 <= k < |a|
    requires forall i :: 0 <= i < |a| ==> a[i] <= b[i]
    requires a[k] < b[k]
    ensures Sum(a) < Sum(b)
    decreases |a|
  {
    if k == 0 {
      SumLe(a[1..], b[1..]);
    } else {
      SumLt(a[1..], b[1..], k - 1);
    }
  }

  /** A sum of non-negative terms is non-negative, and zero exactly when every term is. */
  lemma {:induction false} SumZeroIff(a: seq<int>)
    requires forall i :: 0 <= i < |a| ==> 0 <= a[i]
    ensures 0 <= Sum(a)
    ensures Sum(a) == 0 <==> forall i :: 0 <= i < |a| ==> a[i] == 0
    decreases |a|
  {
    if a != [] {
      SumZeroIff(a[1..]);
      if Sum(a) == 0 {
        forall i | 0 <= i < |a| ensures a[i] == 0 {
          if i > 0 {
            assert a[i] == a[1..][i - 1];
          }
        }
      }
    }
  }

  /** Multiplying every term by `c` multiplies the sum by `c`. */
  lemma {:induction false} SumScale(a: seq<int>, b: seq<int>, c: int)
    requires |a| == |b|
    requires forall i :: 0 <= i < |a| ==> b[i] == c * a[i]
    ensures Sum(b) == c * Sum(a)
    decreases |a|
  {
    if a != [] {
      SumScale(a[1..], b[1..], c);
      assert c * (a[0] + Sum(a[1..])) == c * a[0] + c * Sum(a[1..]);
    }
  }

  /** A sequence of `n` copies of `c` sums to `n * c`. */
  lemma {:induction false} SumConst(a: seq<int>, c: int)
    requires forall i :: 0 <= i < |a| ==> a[i] == c
    ensures Sum(a) == c * |a|
    decreases |a|
  {
    if a != [] {
      SumConst(a[1..], c);
    }
  }

  /** Number of occurrences of `v` in `x`. */
  function Occ<T(==)>(v: T, x: seq<T>): nat
    decreases |x|
  {
    if x == [] then 0 else (if x[0] == v then 1 else 0) + Occ(v, x[1..])
  }

  /** A value occurs at least once exactly when it is a member. */
  lemma {:induction false} OccMember<T>(v: T, x: seq<T>)
    ensures Occ(v, x) >= 1 <==> v in x
    decreases |x|
  {
    if x != [] {
      OccMember(v, x[1..]);
      assert x == [x[0]] + x[1..];
    }
  }

  /** Occ counts the positions holding `v`: it is the sum of an indicator sequence. */
  lemma {:induction false} OccIsIndicatorSum<T>(v: T, x: seq<T>, ind: seq<int>)
    requires |ind| == |x|
    requires forall i :: 0 <= i < |x| ==> ind[i] == (if x[i] == v then 1 else 0)
    ensures Occ(v, x) == Sum(ind)
    decreases |x|
  {
    if x != [] {
      OccIsIndicatorSum(v, x[1..], ind[1..]);
    }
  }

  /** No value appears twice. */
  predicate NoRepeat<T(==)>(x: seq<T>)
  {
    forall a, b :: 0 <= a < b < |x| ==> x[a] != x[b]
  }

  /** No non-zero value appears twice (zeros, the blanks, may repeat). */
  predicate NoRepeatNonZero(x: seq<int>)
  {
    forall a, b :: 0 <= a < b < |x| && x[a] != 0 ==> x[a] != x[b]
  }

  /** The concatenation of a sequence of sequences, in order. */
  function Flatten<T>(xs: seq<seq<T>>): seq<T>
    decreases |xs|
  {
    if xs == [] then [] else xs[0] + Flatten(xs[1..])
  }

  /** Every element of every part ends up in the concatenation. */
  lemma {:induction false} FlattenMember<T>(xs: seq<seq<T>>, i: int, v: T)
    requires 0 <= i < |xs| && v in xs[i]
    ensures v in Flatten(xs)
    decreases |xs|
  {
    assert Flatten(xs) == xs[0] + Flatten(xs[1..]);
    if i > 0 {
      assert xs[1..][i - 1] == xs[i];
      FlattenMember(xs[1..], i - 1, v);
    }
  }

  /** Two distinct slots holding the same non-zero value break `NoRepeatNonZero`. */
  lemma RepeatAt(x: seq<int>, a: int, b: int)
    requires 0 <= a < |x| && 0 <= b < |x| && a != b && x[a] != 0 && x[a] == x[b]
    ensures !NoRepeatNonZero(x)
  {
    if a < b {
      assert !(x[a] != 0 ==> x[a] != x[b]);
    } else {
      assert !(x[b] != 0 ==> x[b] != x[a]);
    }
  }

  /** Two equal entries at distinct positions make a value occur at least twice. */
  lemma {:induction false} OccOfRepeat<T>(x: seq<T>, a: int, b: int)
    requires 0 <= a < b < |x| && x[a] == x[b]
    ensures Occ(x[a], x) >= 2
    decreases |x|
  {
    if a == 0 {
      OccMember(x[a], x[1..]);
      assert x[1..][b - 1] == x[b];
    } else {
      OccOfRepeat(x[1..], a - 1, b - 1);
    }
  }

  /** A sequence is repetition-free exactly when each of its entries occurs once. */
  lemma {:induction false} NoRepeatIffOccOne<T>(x: seq<T>)
    ensures NoRepeat(x) <==> forall a :: 0 <= a < |x| ==> Occ(x[a], x) == 1
    decreases |x|
  {
    if x != [] {
      NoRepeatIffOccOne(x[1..]);
      if NoRepeat(x) {
        assert NoRepeat(x[1..]);
        forall a | 0 <= a < |x| ensures Occ(x[a], x) == 1 {
          if a == 0 {
            OccMember(x[0], x[1..]);
          } else {
            assert x[a] == x[1..][a - 1];
          }
        }
      }
      if !NoRepeat(x) {
        var a, b :| 0 <= a < b < |x| && x[a] == x[b];
        OccOfRepeat(x, a, b);
      }
    }
  }

  /** Occurrences in a concatenation add up. */
  lemma {:induction false} OccConcat<T>(v: T, a: seq<T>, b: seq<T>)
    ensures Occ(v, a + b) == Occ(v, a) + Occ(v, b)
    decreases |a|
  {
    if a != [] {
      assert (a + b)[1..] == a[1..] + b;
      OccConcat(v, a[1..], b);
    } else {
      assert a + b == b;
    }
  }

  /** In a repetition-free sequence a value occurs at most once. */
  lemma OccAtMostOne<T>(v: T, x: seq<T>)
    requires NoRepeat(x)
    ensures Occ(v, x) <= 1
  {
    NoRepeatIffOccOne(x);
    OccMember(v, x);
    if Occ(v, x) >= 1 {
      var a :| 0 <= a < |x| && x[a] == v;
    }
  }

  /** A nine-long sequence made of three repetition-free thirds holds a value at most three times. */
  lemma OccAtMostThree<T>(v: T, x: seq<T>)
    requires |x| == 9 && NoRepeat(x[..3]) && NoRepeat(x[3..6]) && NoRepeat(x[6..])
    ensures Occ(v, x) <= 3
  {
    assert x == x[..3] + x[3..6] + x[6..];
    OccConcat(v, x[..3] + x[3..6], x[6..]);
    OccConcat(v, x[..3], x[3..6]);
    OccAtMostOne(v, x[..3]);
    OccAtMostOne(v, x[3..6]);
    OccAtMostOne(v, x[6..]);
  }

  /** A sequence made only of `v` holds it once per position. */
  lemma {:induction false} OccAllSame<T>(v: T, x: seq<T>)
    requires forall a :: 0 <= a < |x| ==> x[a] == v
    ensures Occ(v, x) == |x|
    decreases |x|
  {
    if x != [] {
      OccAllSame(v, x[1..]);
    }
  }

  /** Occ is the multiplicity of `v` in the multiset of `x`. */
  lemma {:induction false} OccIsMultiplicity<T>(v: T, x: seq<T>)
    ensures Occ(v, x) == multiset(x)[v]
    decreases |x|
  {
    if x != [] {
      OccIsMultiplicity(v, x[1..]);
      assert x == [x[0]] + x[1..];
    }
  }

  /** Repetition-freedom depends only on the multiset of entries. */
  lemma NoRepeatMultiset<T>(x: seq<T>, y: seq<T>)
    requires multiset(x) == multiset(y) && NoRepeat(x)
    ensures NoRepeat(y)
  {
    NoRepeatIffOccOne(x);
    NoRepeatIffOccOne(y);
    forall a | 0 <= a < |y| ensures Occ(y[a], y) == 1 {
      OccIsMultiplicity(y[a], y);
      OccIsMultiplicity(y[a], x);
      OccMember(y[a], y);
      OccMember(y[a], x);
      var c :| 0 <= c < |x| && x[c] == y[a];
    }
  }

  /** Strictly increasing integer sequence. */
  predicate Increasing(x: seq<int>)
  {
    forall a, b :: 0 <= a < b < |x| ==> x[a] < x[b]
  }

  /** The entries of `cells` that satisfy `keep`, in their original order (numpy's `where`
      and a set difference both reduce to this on the index sequences used here). */
  function Select(cells: seq<int>, keep: int -> bool): (r: seq<int>)
    ensures forall q :: q in r <==> q in cells && keep(q)
    ensures Increasing(cells) ==> Increasing(r)
    ensures |r| <= |cells|
    decreases |cells|
  {
    if cells == [] then []
    else
      var rest := Select(cells[1..], keep);
      assert forall q :: q in cells <==> q == cells[0] || q in cells[1..];
      if keep(cells[0]) then
        var r := [cells[0]] + rest;
        assert Increasing(cells) ==> Increasing(r) by {
          if Increasing(cells) {
            assert Increasing(cells[1..]);
            forall b | 0 < b < |r| ensures cells[0] < r[b] {
              assert r[b] == rest[b - 1] && r[b] in cells[1..];
              var k :| 0 <= k < |cells[1..]| && cells[1..][k] == r[b];
              assert cells[k + 1] == r[b];
            }
          }
        }
        r
      else rest
  }

  /** The set of entries of a sequence. */
  function Elements(x: seq<int>): set<int>
  {
    set v | v in x
  }

  /** A subset is no larger than its superset. */
  lemma SubsetCard(a: set<int>, b: set<int>)
    requires a <= b
    ensures |a| <= |b|
  {
    assert b == a + (b - a);
    assert a * (b - a) == {};
  }

  /** A sequence has at most as many distinct entries as positions; exactly as many when
      it is repetition-free. */
  lemma {:induction false} ElementsCard(x: seq<int>)
    ensures |Elements(x)| <= |x|
    ensures NoRepeat(x) ==> |Elements(x)| == |x|
    decreases |x|
  {
    if x == [] {
      assert Elements(x) == {};
    } else {
      ElementsCard(x[1..]);
      assert Elements(x) == {x[0]} + Elements(x[1..]);
      if NoRepeat(x) {
        assert NoRepeat(x[1..]);
      }
    }
  }

  /** Nine cells holding a zero cannot also hold all nine digits: some digit is missing. */
  lemma DigitMissingBesideZero(x: seq<int>)
    requires |x| == 9 && 0 in x
    ensures exists d :: 1 <= d <= 9 && d !in x
  {
    if forall d :: 1 <= d <= 9 ==> d in x {
      var ten := {0, 1, 2, 3, 4, 5, 6, 7, 8, 9};
      assert ten <= Elements(x);
      SubsetCard(ten, Elements(x));
      ElementsCard(x);
      assert false;
    }
  }

  /** Nine distinct digits from 1..9 are all of them: a permutation of 1..9. */
  lemma DistinctDigitsCoverAll(x: seq<int>)
    requires |x| == 9 && NoRepeat(x)
    requires forall a :: 0 <= a < 9 ==> 1 <= x[a] <= 9
    ensures forall d :: 1 <= d <= 9 ==> d in x
  {
    forall d | 1 <= d <= 9 ensures d in x {
      if d !in x {
        var rest := {1, 2, 3, 4, 5, 6, 7, 8, 9} - {d};
        assert |rest| == 8;
        assert Elements(x) <= rest;
        SubsetCard(Elements(x), rest);
        ElementsCard(x);
        assert false;
      }
    }
  }
}
