/**
 * Reference definitions over finite sequences that the stream stages are
 * specified against, and the lemmas that say what those definitions mean.
 * Most of them are defined by recursion on the LAST element, which is the
 * order in which the source's for-each loops build their results.
 */
module Seqs {

  /** `f` applied to each element, in order. */
  function MapSeq<A, B>(f: A -> B, s: seq<A>): (r: seq<B>)
    ensures |r| == |s|
    ensures forall i :: 0 <= i < |s| ==> r[i] == f(s[i])
  {
    seq(|s|, i requires 0 <= i < |s| => f(s[i]))
  }

  // ---------------------------------------------------------------------
  // Filtering

  /** The elements of `s` that satisfy `p`, in their original order. */
  function Filter<T>(p: T -> bool, s: seq<T>): (r: seq<T>)
    ensures |r| <= |s|
  {
    if s == [] then []
    else Filter(p, s[..|s| - 1]) + (if p(s[|s| - 1]) then [s[|s| - 1]] else [])
  }

  /** `a` can be obtained from `b` by deleting elements. */
  ghost predicate IsSubsequence<T>(a: seq<T>, b: seq<T>)
    decreases |b|
  {
    || a == []
    || (&& b != []
        && (|| (a[|a| - 1] == b[|b| - 1] && IsSubsequence(a[..|a| - 1], b[..|b| - 1]))
            || IsSubsequence(a, b[..|b| - 1])))
  }

  /** Filtering only deletes elements: the relative order is kept. */
  lemma {:induction false} FilterIsSubsequence<T>(p: T -> bool, s: seq<T>)
    ensures IsSubsequence(Filter(p, s), s)
  {
    if s != [] {
      var t, x := s[..|s| - 1], s[|s| - 1];
      FilterIsSubsequence(p, t);
      assert s[..|s| - 1] == t;
      if p(x) {
        var r := Filter(p, s);
        assert r == Filter(p, t) + [x];
        assert r[|r| - 1] == x && r[..|r| - 1] == Filter(p, t);
      } else {
        assert Filter(p, s) == Filter(p, t);
      }
    }
  }

  /** Every occurrence of an element satisfying `p` is kept and every other one dropped. */
  lemma {:induction false} FilterCount<T>(p: T -> bool, s: seq<T>)
    ensures forall x :: multiset(Filter(p, s))[x] == if p(x) then multiset(s)[x] else 0
  {
    if s != [] {
      var t, x := s[..|s| - 1], s[|s| - 1];
      FilterCount(p, t);
      assert s == t + [x];
    }
  }

  /** `x` survives the filter exactly when it occurs in `s` and satisfies `p`. */
  lemma {:induction false} FilterMembership<T>(p: T -> bool, s: seq<T>, x: T)
    ensures x in Filter(p, s) <==> x in s && p(x)
  {
    FilterCount(p, s);
    assert x in Filter(p, s) <==> x in multiset(Filter(p, s));
    assert x in s <==> x in multiset(s);
  }

  /** Filtering a concatenation filters each part. */
  lemma {:induction false} FilterAppend<T>(p: T -> bool, a: seq<T>, b: seq<T>)
    ensures Filter(p, a + b) == Filter(p, a) + Filter(p, b)
  {
    if b == [] {
      assert a + b == a;
    } else {
      FilterAppend(p, a, b[..|b| - 1]);
      assert (a + b)[..|a + b| - 1] == a + b[..|b| - 1];
    }
  }

  /** The filter seen from the front of the sequence. */
  lemma {:induction false} FilterCons<T>(p: T -> bool, x: T, s: seq<T>)
    ensures Filter(p, [x] + s) == (if p(x) then [x] else []) + Filter(p, s)
  {
    assert Filter(p, [x]) == if p(x) then [x] else [] by {
      assert [x][..0] == [];
    }
    FilterAppend(p, [x], s);
  }

  /**
   * Two complementary filters split `s` in two: every element goes to exactly
   * one side, so the two results together hold each element as often as `s`.
   */
  lemma {:induction false} FilterPartition<T>(p: T -> bool, q: T -> bool, s: seq<T>)
    requires forall x :: q(x) == !p(x)
    ensures multiset(Filter(p, s)) + multiset(Filter(q, s)) == multiset(s)
    ensures |Filter(p, s)| + |Filter(q, s)| == |s|
  {
    if s != [] {
      var t, x := s[..|s| - 1], s[|s| - 1];
      FilterPartition(p, q, t);
      assert multiset(s) == multiset(t) + multiset{x} by {
        assert s == t + [x];
      }
      if p(x) {
        assert Filter(p, s) == Filter(p, t) + [x];
        assert Filter(q, s) == Filter(q, t);
        assert multiset(Filter(p, s)) == multiset(Filter(p, t)) + multiset{x};
      } else {
        assert Filter(p, s) == Filter(p, t);
        assert Filter(q, s) == Filter(q, t) + [x];
        assert multiset(Filter(q, s)) == multiset(Filter(q, t)) + multiset{x};
      }
    }
  }

  // ---------------------------------------------------------------------
  // Folding

  /** The left fold `f(...f(f(init, s[0]), s[1])..., s[n-1])`. */
  function FoldLeft<T, R>(f: (R, T) -> R, init: R, s: seq<T>): (r: R)
    ensures s == [] ==> r == init
    ensures |s| == 1 ==> r == f(init, s[0])
  {
    if s == [] then init else f(FoldLeft(f, init, s[..|s| - 1]), s[|s| - 1])
  }

  /** Folding a concatenation folds the second part starting from the first part's result. */
  lemma {:induction false} FoldLeftAppend<T, R>(f: (R, T) -> R, init: R, s: seq<T>, t: seq<T>)
    ensures FoldLeft(f, init, s + t) == FoldLeft(f, FoldLeft(f, init, s), t)
  {
    if t == [] {
      assert s + t == s;
    } else {
      FoldLeftAppend(f, init, s, t[..|t| - 1]);
      assert (s + t)[..|s + t| - 1] == s + t[..|t| - 1];
    }
  }

  /** The first element is combined with the initial value first. */
  lemma {:induction false} FoldLeftCons<T, R>(f: (R, T) -> R, init: R, x: T, s: seq<T>)
    ensures FoldLeft(f, init, [x] + s) == FoldLeft(f, f(init, x), s)
  {
    FoldLeftAppend(f, init, [x], s);
    assert [x][..0] == [];
  }

  // ---------------------------------------------------------------------
  // Concatenation of sub-sequences

  /** The sub-sequences of `ss` one after another. */
  function Flatten<T>(ss: seq<seq<T>>): (r: seq<T>)
    ensures forall i, x :: 0 <= i < |ss| && x in ss[i] ==> x in r
    ensures forall x :: x in r ==> exists i :: 0 <= i < |ss| && x in ss[i]
  {
    if ss == [] then [] else Flatten(ss[..|ss| - 1]) + ss[|ss| - 1]
  }

  function Sum(xs: seq<int>): (r: int)
  {
    if xs == [] then 0 else Sum(xs[..|xs| - 1]) + xs[|xs| - 1]
  }

  lemma {:induction false} FlattenAppend<T>(a: seq<seq<T>>, b: seq<seq<T>>)
    ensures Flatten(a + b) == Flatten(a) + Flatten(b)
  {
    if b == [] {
      assert a + b == a;
    } else {
      var c, z := b[..|b| - 1], b[|b| - 1];
      FlattenAppend(a, c);
      assert (a + b)[..|a + b| - 1] == a + c;
      assert Flatten(a + b) == Flatten(a + c) + z;
      assert Flatten(b) == Flatten(c) + z;
    }
  }

  /** The length of the concatenation is the sum of the parts' lengths. */
  lemma {:induction false} FlattenLength<T>(ss: seq<seq<T>>)
    ensures |Flatten(ss)| == Sum(MapSeq((s: seq<T>) => |s|, ss))
  {
    if ss != [] {
      FlattenLength(ss[..|ss| - 1]);
      var lengths := MapSeq((s: seq<T>) => |s|, ss);
      assert lengths[..|lengths| - 1] == MapSeq((s: seq<T>) => |s|, ss[..|ss| - 1]);
    }
  }

  // ---------------------------------------------------------------------
  // Sets and maps built from a sequence

  /** A sequence has at least as many positions as distinct elements. */
  lemma {:induction false} SetOfSeqSize<T>(s: seq<T>)
    ensures |set x | x in s| <= |s|
  {
    if s != [] {
      var t, y := s[..|s| - 1], s[|s| - 1];
      SetOfSeqSize(t);
      assert (set x | x in s) == (set x | x in t) + {y} by {
        assert s == t + [y];
      }
    }
  }

  /** The map that stores each element under its key, later elements overwriting earlier ones. */
  function Assoc<T, K>(key: T -> K, s: seq<T>): (r: map<K, T>)
    ensures forall k :: k in r ==> key(r[k]) == k && r[k] in s
  {
    if s == [] then map[] else Assoc(key, s[..|s| - 1])[key(s[|s| - 1]) := s[|s| - 1]]
  }

  /** No element after position `i` has the same key as `s[i]`. */
  ghost predicate LastWithKey<T, K>(key: T -> K, s: seq<T>, i: int)
    requires 0 <= i < |s|
  {
    forall j :: i < j < |s| ==> key(s[j]) != key(s[i])
  }

  /** The keys of the map are exactly the keys of the elements. */
  lemma {:induction false} AssocKeys<T, K>(key: T -> K, s: seq<T>)
    ensures Assoc(key, s).Keys == set x | x in s :: key(x)
  {
    if s != [] {
      var t, y := s[..|s| - 1], s[|s| - 1];
      AssocKeys(key, t);
      assert (set x | x in s :: key(x)) == (set x | x in t :: key(x)) + {key(y)} by {
        assert s == t + [y];
      }
    }
  }

  /** Last write wins: the last element with a given key is the one stored under it. */
  lemma {:induction false} AssocLastWins<T, K>(key: T -> K, s: seq<T>, i: int)
    requires 0 <= i < |s| && LastWithKey(key, s, i)
    ensures key(s[i]) in Assoc(key, s) && Assoc(key, s)[key(s[i])] == s[i]
  {
    if i < |s| - 1 {
      var t := s[..|s| - 1];
      assert LastWithKey(key, t, i) by {
        forall j | i < j < |t| ensures key(t[j]) != key(t[i]) {
          assert t[j] == s[j];
        }
      }
      AssocLastWins(key, t, i);
    }
  }

  /** Every stored value is the last element of `s` with its key. */
  lemma {:induction false} AssocValue<T, K>(key: T -> K, s: seq<T>, k: K)
    requires k in Assoc(key, s)
    ensures exists i :: 0 <= i < |s| && key(s[i]) == k && LastWithKey(key, s, i) && Assoc(key, s)[k] == s[i]
  {
    var n := |s| - 1;
    if key(s[n]) == k {
      assert LastWithKey(key, s, n);
    } else {
      var t := s[..n];
      AssocValue(key, t, k);
      var i :| 0 <= i < |t| && key(t[i]) == k && LastWithKey(key, t, i) && Assoc(key, t)[k] == t[i];
      assert LastWithKey(key, s, i);
    }
  }

  // ---------------------------------------------------------------------
  // Sorting by a comparator

  /**
   * The comparator keeps Java's `Comparator` contract on the elements of
   * `dom`: the sign of `cmp(a, b)` is the opposite of the sign of
   * `cmp(b, a)`, and the order it induces is a total preorder.
   */
  ghost predicate ComparatorContractOn<T>(cmp: (T, T) -> int, dom: set<T>)
  {
    && (forall a, b | a in dom && b in dom :: cmp(a, b) < 0 <==> cmp(b, a) > 0)
    && TotalPreorderOn(cmp, dom)
  }

  /**
   * `cmp(a, b) <= 0` ("a sorts no later than b") is total and transitive on
   * the elements of `dom`. This is all the sorting proofs use.
   */
  ghost predicate TotalPreorderOn<T>(cmp: (T, T) -> int, dom: set<T>)
  {
    && (forall a, b | a in dom && b in dom :: cmp(a, b) <= 0 || cmp(b, a) <= 0)
    && (forall a, b, c | a in dom && b in dom && c in dom :: cmp(a, b) <= 0 && cmp(b, c) <= 0 ==> cmp(a, c) <= 0)
  }

  ghost predicate SortedBy<T>(cmp: (T, T) -> int, s: seq<T>)
  {
    forall i, j :: 0 <= i < j < |s| ==> cmp(s[i], s[j]) <= 0
  }

  /** The elements the comparator cannot tell apart from `e`. */
  function EquivalentTo<T>(cmp: (T, T) -> int, e: T): (r: T -> bool)
  {
    y => cmp(e, y) <= 0 && cmp(y, e) <= 0
  }

  /** `x` placed in front of the first element of `s` that does not sort before it. */
  function Insert<T>(cmp: (T, T) -> int, x: T, s: seq<T>): (r: seq<T>)
    ensures |r| == |s| + 1
    ensures x in r && forall y :: y in s ==> y in r
  {
    if s == [] || cmp(x, s[0]) <= 0 then [x] + s else [s[0]] + Insert(cmp, x, s[1..])
  }

  /** A stable sort: elements that compare equal keep their order. */
  function InsertionSort<T>(cmp: (T, T) -> int, s: seq<T>): (r: seq<T>)
    ensures |r| == |s|
    ensures forall y :: y in s ==> y in r
  {
    if s == [] then [] else Insert(cmp, s[0], InsertionSort(cmp, s[1..]))
  }

  lemma {:induction false} InsertMultiset<T>(cmp: (T, T) -> int, x: T, s: seq<T>)
    ensures multiset(Insert(cmp, x, s)) == multiset(s) + multiset{x}
  {
    if s != [] && cmp(x, s[0]) > 0 {
      InsertMultiset(cmp, x, s[1..]);
      assert s == [s[0]] + s[1..];
    }
  }

  /** Sorting only reorders: the result is a permutation of the input. */
  lemma {:induction false} SortPermutation<T>(cmp: (T, T) -> int, s: seq<T>)
    ensures multiset(InsertionSort(cmp, s)) == multiset(s)
  {
    if s != [] {
      SortPermutation(cmp, s[1..]);
      InsertMultiset(cmp, s[0], InsertionSort(cmp, s[1..]));
      assert s == [s[0]] + s[1..];
    }
  }

  /** An element that sorts no later than every element of a sorted sequence can go in front. */
  lemma {:induction false} SortedPrepend<T>(cmp: (T, T) -> int, x: T, s: seq<T>)
    requires SortedBy(cmp, s)
    requires forall k :: 0 <= k < |s| ==> cmp(x, s[k]) <= 0
    ensures SortedBy(cmp, [x] + s)
  {
    var r := [x] + s;
    forall i, j | 0 <= i < j < |r| ensures cmp(r[i], r[j]) <= 0 {
      assert r[j] == s[j - 1];
      if i > 0 {
        assert r[i] == s[i - 1];
      }
    }
  }

  lemma {:induction false} InsertSorted<T>(cmp: (T, T) -> int, dom: set<T>, x: T, s: seq<T>)
    requires TotalPreorderOn(cmp, dom)
    requires x in dom && forall y :: y in s ==> y in dom
    requires SortedBy(cmp, s)
    ensures SortedBy(cmp, Insert(cmp, x, s))
  {
    if s == [] {
      assert Insert(cmp, x, s) == [x];
    } else if cmp(x, s[0]) <= 0 {
      forall k | 0 <= k < |s| ensures cmp(x, s[k]) <= 0 {
        if k > 0 {
          assert s[0] in dom && s[k] in dom;
          assert cmp(s[0], s[k]) <= 0;
        }
      }
      SortedPrepend(cmp, x, s);
    } else {
      var y, u := s[0], s[1..];
      var rest := Insert(cmp, x, u);
      assert y in dom;
      assert forall z :: z in u ==> z in s;
      assert SortedBy(cmp, u) by {
        forall i, j | 0 <= i < j < |u| ensures cmp(u[i], u[j]) <= 0 {
          assert u[i] == s[i + 1] && u[j] == s[j + 1];
        }
      }
      InsertSorted(cmp, dom, x, u);
      InsertMultiset(cmp, x, u);
      forall k | 0 <= k < |rest| ensures cmp(y, rest[k]) <= 0 {
        assert rest[k] in multiset(u) + multiset{x};
        if rest[k] != x {
          assert rest[k] in u;
          var j :| 0 <= j < |u| && u[j] == rest[k];
          assert s[j + 1] == rest[k];
        }
      }
      SortedPrepend(cmp, y, rest);
    }
  }

  /** The sort puts the elements in comparator order. */
  lemma {:induction false} SortSorted<T>(cmp: (T, T) -> int, s: seq<T>)
    requires TotalPreorderOn(cmp, set x | x in s)
    ensures SortedBy(cmp, InsertionSort(cmp, s))
  {
    if s != [] {
      var dom := set x | x in s;
      var sorted := InsertionSort(cmp, s[1..]);
      assert TotalPreorderOn(cmp, set x | x in s[1..]);
      SortSorted(cmp, s[1..]);
      SortPermutation(cmp, s[1..]);
      forall y | y in sorted ensures y in dom {
        assert y in multiset(sorted);
      }
      InsertSorted(cmp, dom, s[0], sorted);
    }
  }

  /** Two elements equivalent to the same `e` compare as equal. */
  lemma {:induction false} EquivalentsCompareEqual<T>(cmp: (T, T) -> int, dom: set<T>, e: T, x: T, y: T)
    requires TotalPreorderOn(cmp, dom)
    requires e in dom && x in dom && y in dom
    requires EquivalentTo(cmp, e)(x) && EquivalentTo(cmp, e)(y)
    ensures cmp(x, y) <= 0
  {
    assert cmp(x, e) <= 0 && cmp(e, y) <= 0;
  }

  /** Inserting `x` keeps the elements equivalent to `e` in their order, with `x` first among them. */
  lemma {:induction false} InsertKeepsEquivalents<T>(cmp: (T, T) -> int, dom: set<T>, e: T, x: T, s: seq<T>)
    requires TotalPreorderOn(cmp, dom)
    requires e in dom && x in dom && forall y :: y in s ==> y in dom
    ensures Filter(EquivalentTo(cmp, e), Insert(cmp, x, s))
         == Filter(EquivalentTo(cmp, e), [x]) + Filter(EquivalentTo(cmp, e), s)
  {
    var p := EquivalentTo(cmp, e);
    var fx := Filter(p, [x]);
    assert fx == if p(x) then [x] else [] by {
      FilterCons(p, x, []);
      assert [x] + [] == [x];
    }
    if s == [] || cmp(x, s[0]) <= 0 {
      FilterCons(p, x, s);
    } else {
      var y, u := s[0], s[1..];
      var fy := if p(y) then [y] else [];
      assert Filter(p, Insert(cmp, x, s)) == fy + (fx + Filter(p, u)) by {
        assert Insert(cmp, x, s) == [y] + Insert(cmp, x, u);
        InsertKeepsEquivalents(cmp, dom, e, x, u);
        FilterCons(p, y, Insert(cmp, x, u));
      }
      assert Filter(p, s) == fy + Filter(p, u) by {
        assert s == [y] + u;
        FilterCons(p, y, u);
      }
      assert fx == [] || fy == [] by {
        if p(x) && p(y) {
          EquivalentsCompareEqual(cmp, dom, e, x, y);
        }
      }
      assert fy + (fx + Filter(p, u)) == fx + (fy + Filter(p, u)) by {
        if fx == [] {
          assert fx + Filter(p, u) == Filter(p, u);
          assert fx + (fy + Filter(p, u)) == fy + Filter(p, u);
        } else {
          assert fy + (fx + Filter(p, u)) == fx + Filter(p, u);
          assert fy + Filter(p, u) == Filter(p, u);
        }
      }
    }
  }

  /** Stability: the elements equivalent to `e` appear in the same order before and after sorting. */
  lemma {:induction false} SortStable<T>(cmp: (T, T) -> int, s: seq<T>, e: T)
    requires TotalPreorderOn(cmp, set x | x in s) && e in s
    ensures Filter(EquivalentTo(cmp, e), InsertionSort(cmp, s)) == Filter(EquivalentTo(cmp, e), s)
  {
    SortStableFrom(cmp, (set x | x in s), s, e);
  }

  /** The stability argument for a suffix whose elements lie in a domain where the comparator is consistent. */
  lemma {:induction false} SortStableFrom<T>(cmp: (T, T) -> int, dom: set<T>, s: seq<T>, e: T)
    requires TotalPreorderOn(cmp, dom) && e in dom && forall y :: y in s ==> y in dom
    ensures Filter(EquivalentTo(cmp, e), InsertionSort(cmp, s)) == Filter(EquivalentTo(cmp, e), s)
  {
    var p := EquivalentTo(cmp, e);
    if s != [] {
      var sorted := InsertionSort(cmp, s[1..]);
      SortPermutation(cmp, s[1..]);
      forall y | y in sorted ensures y in dom {
        assert y in multiset(sorted);
      }
      InsertKeepsEquivalents(cmp, dom, e, s[0], sorted);
      SortStableFrom(cmp, dom, s[1..], e);
      FilterCons(p, s[0], s[1..]);
      FilterCons(p, s[0], []);
      assert [s[0]] + [] == [s[0]];
      assert s == [s[0]] + s[1..];
    }
  }
}
