/**
 * The fluent collection wrapper `Stream<T>`: one ordered backing collection
 * and the stages and materialisations built on it.
 *
 * The backing collection is the field `data`; the stages that build a new
 * collection return a fresh `Stream` and leave the receiver alone (they have
 * no `modifies` clause), while `Merge` appends to the receiver's own `data`.
 * Caller-supplied callbacks are Dafny functions.
 */
module Streams {
  import opened Wrappers
  import opened Seqs
  import opened Strings

  class Stream<T(==)> {
    /** The backing collection, in iteration order. */
    var data: seq<T>

    /** A `null` collection becomes the empty one. */
    constructor (d: Option<seq<T>>)
      ensures data == d.GetOr([])
    {
      data := d.GetOr([]);
    }

    /** `Stream.of(Collection)`. */
    static method OfCollection(d: Option<seq<T>>) returns (s: Stream<T>)
      ensures fresh(s) && s.data == d.GetOr([])
    {
      s := new Stream(d);
    }

    /** `Stream.of(T...)`: the arguments, in order. */
    static method OfElements(elements: seq<T>) returns (s: Stream<T>)
      ensures fresh(s) && s.data == elements
    {
      s := new Stream(Some(elements));
    }

    // -------------------------------------------------------------------
    // Materialisations

    /** A list with the elements in iteration order. */
    function AsList(): (r: seq<T>)
      reads this
      ensures |r| == |data|
      ensures forall i :: 0 <= i < |r| ==> r[i] == data[i]
    {
      data
    }

    /** The distinct elements: duplicates collapse, so there are never more than `Size()`. */
    function AsSet(): (r: set<T>)
      reads this
      ensures forall x :: x in r ==> x in data
      ensures forall x :: x in data ==> x in r
      ensures |r| <= |data|
    {
      SetOfSeqSize(data);
      set x | x in data
    }

    /**
     * Each element stored under its key, later elements overwriting earlier
     * ones: the keys are the keys of the elements, and each key holds the
     * last element that has it.
     */
    method AsMap<K(==)>(key: T -> K) returns (m: map<K, T>)
      ensures m.Keys == set x | x in data :: key(x)
      ensures forall i :: 0 <= i < |data| && LastWithKey(key, data, i) ==> m[key(data[i])] == data[i]
      ensures m == Assoc(key, data)
    {
      m := map[];
      for i := 0 to |data|
        invariant m == Assoc(key, data[..i])
      {
        assert data[..i + 1][..i] == data[..i];
        m := m[key(data[i]) := data[i]];
      }
      assert data[..|data|] == data;
      AssocKeys(key, data);
      forall i | 0 <= i < |data| && LastWithKey(key, data, i)
        ensures m[key(data[i])] == data[i]
      {
        AssocLastWins(key, data, i);
      }
    }

    /** The number of elements; zero exactly when the stream is empty. */
    function Size(): (n: nat)
      reads this
      ensures n == |data|
      ensures n == 0 <==> First().None?
    {
      |data|
    }

    /** The first element in iteration order, or `None` (Java's `null`) when empty. */
    function First(): (r: Option<T>)
      reads this
      ensures r.Some? <==> data != []
      ensures r.Some? ==> r.value == data[0]
    {
      if data == [] then None else Some(data[0])
    }

    /** The first element in iteration order, or `defaultValue` when empty. */
    function FirstOr(defaultValue: T): (r: T)
      reads this
      ensures data != [] ==> r == data[0]
      ensures data == [] ==> r == defaultValue
    {
      First().GetOr(defaultValue)
    }

    // -------------------------------------------------------------------
    // In-place stages

    /**
     * Runs `consumer` once per element, in iteration order, and returns the
     * receiver itself with its contents unchanged. The consumer's side effect
     * is modelled as the value it returns; `effects` lists them in call order.
     */
    method Apply<E>(consumer: T -> E) returns (self: Stream<T>, effects: seq<E>)
      ensures self == this
      ensures |effects| == |data|
      ensures forall i :: 0 <= i < |data| ==> effects[i] == consumer(data[i])
    {
      effects := [];
      for i := 0 to |data|
        invariant |effects| == i
        invariant forall k :: 0 <= k < i ==> effects[k] == consumer(data[k])
      {
        effects := effects + [consumer(data[i])];
      }
      self := this;
    }

    /**
     * Appends the other stream's elements to this stream's own backing
     * collection and returns this stream. Merging a stream into itself
     * doubles it, as `addAll` of a collection to itself does.
     */
    method Merge(another: Stream<T>) returns (self: Stream<T>)
      modifies this
      ensures self == this
      ensures data == old(data) + old(another.data)
    {
      data := data + another.data;
      self := this;
    }

    // -------------------------------------------------------------------
    // Stages that build a new stream

    /** One mapped element per element, in the same order. */
    method Map<R(==)>(mapper: T -> R) returns (r: Stream<R>)
      ensures fresh(r)
      ensures |r.data| == |data|
      ensures forall i :: 0 <= i < |data| ==> r.data[i] == mapper(data[i])
    {
      var result := [];
      for i := 0 to |data|
        invariant |result| == i
        invariant forall k :: 0 <= k < i ==> result[k] == mapper(data[k])
      {
        result := result + [mapper(data[i])];
      }
      r := Stream<R>.OfCollection(Some(result));
    }

    /**
     * The contents of the sub-stream `mapper` produces for each element,
     * concatenated in element order. A sub-stream is given by its contents.
     */
    method FlatMap<R(==)>(mapper: T -> seq<R>) returns (r: Stream<R>)
      ensures fresh(r)
      ensures r.data == Flatten(MapSeq(mapper, data))
    {
      var result := [];
      for i := 0 to |data|
        invariant result == Flatten(MapSeq(mapper, data[..i]))
      {
        var mapped := MapSeq(mapper, data[..i + 1]);
        assert mapped[..i] == MapSeq(mapper, data[..i]);
        result := result + mapper(data[i]);
      }
      assert data[..|data|] == data;
      r := Stream<R>.OfCollection(Some(result));
    }

    /** The elements that satisfy `condition`, in their original order. */
    method Filter(condition: T -> bool) returns (r: Stream<T>)
      ensures fresh(r)
      ensures r.data == Seqs.Filter(condition, data)
    {
      var result := [];
      for i := 0 to |data|
        invariant result == Seqs.Filter(condition, data[..i])
      {
        assert data[..i + 1][..i] == data[..i];
        if condition(data[i]) {
          result := result + [data[i]];
        }
      }
      assert data[..|data|] == data;
      r := new Stream(Some(result));
    }

    /** The left fold of `reducer` over the elements, starting from `initializer`. */
    method Reduce<R>(reducer: (R, T) -> R, initializer: R) returns (result: R)
      ensures result == FoldLeft(reducer, initializer, data)
      ensures data == [] ==> result == initializer
    {
      result := initializer;
      for i := 0 to |data|
        invariant result == FoldLeft(reducer, initializer, data[..i])
      {
        assert data[..i + 1][..i] == data[..i];
        result := reducer(result, data[i]);
      }
      assert data[..|data|] == data;
    }

    /** `reduce(reducer)`: the fold starts from an absent (`null`) accumulator. */
    method ReduceFromNull<R>(reducer: (Option<R>, T) -> Option<R>) returns (result: Option<R>)
      ensures result == FoldLeft(reducer, None, data)
      ensures data == [] ==> result == None
    {
      result := Reduce(reducer, None);
    }

    /**
     * A sorted copy: ordered by `comparator`, a permutation of the elements,
     * and stable (elements the comparator cannot tell apart keep their order).
     */
    method Sort(comparator: (T, T) -> int) returns (r: Stream<T>)
      requires ComparatorContractOn(comparator, set x | x in data)
      ensures fresh(r)
      ensures r.data == InsertionSort(comparator, data)
      ensures SortedBy(comparator, r.data)
      ensures multiset(r.data) == multiset(data)
      ensures forall e | e in data ::
        Seqs.Filter(EquivalentTo(comparator, e), r.data) == Seqs.Filter(EquivalentTo(comparator, e), data)
    {
      var list := data;
      list := InsertionSort(comparator, list);
      SortSorted(comparator, data);
      SortPermutation(comparator, data);
      forall e | e in data
        ensures Seqs.Filter(EquivalentTo(comparator, e), list) == Seqs.Filter(EquivalentTo(comparator, e), data)
      {
        SortStable(comparator, data, e);
      }
      r := Stream<T>.OfCollection(Some(list));
    }

    /** A new stream over an independent collection with the same elements. */
    method Copy() returns (r: Stream<T>)
      ensures fresh(r)
      ensures r.data == data
    {
      r := new Stream(Some(data));
    }

    /** The elements that also occur in `another`, in this stream's order. */
    method Intersect(another: Stream<T>) returns (r: Stream<T>)
      ensures fresh(r)
      ensures var inAnother := another.AsSet(); r.data == Seqs.Filter(x => x in inAnother, data)
    {
      var anotherSet := another.AsSet();
      r := Filter(x => x in anotherSet);
    }

    /** The elements that do not occur in `another`, in this stream's order. */
    method Except(another: Stream<T>) returns (r: Stream<T>)
      ensures fresh(r)
      ensures var inAnother := another.AsSet(); r.data == Seqs.Filter(x => x !in inAnother, data)
    {
      var anotherSet := another.AsSet();
      r := Filter(x => x !in anotherSet);
    }

    /**
     * The string forms of the elements separated by `delimiter`. The loop
     * writes the delimiter before every element and then drops the first
     * `|delimiter|` characters.
     */
    method Join(delimiter: string, toString: T -> string) returns (s: string)
      ensures s == Interleave(delimiter, MapSeq(toString, data))
      ensures data == [] ==> s == ""
      ensures |data| == 1 ==> s == toString(data[0])
    {
      var sb := "";
      for i := 0 to |data|
        invariant sb == Prefixed(delimiter, MapSeq(toString, data[..i]))
      {
        var strs := MapSeq(toString, data[..i + 1]);
        assert strs[..i] == MapSeq(toString, data[..i]);
        sb := sb + delimiter + toString(data[i]);
      }
      assert data[..|data|] == data;
      if data != [] {
        PrefixedIsDelimiterThenInterleave(delimiter, MapSeq(toString, data));
      }
      s := if |sb| > 0 then sb[|delimiter|..] else "";
    }
  }

  /**
   * `intersect` and `except` against the same other stream split this
   * stream's elements in two: each element goes to exactly one side,
   * according to whether it occurs in the other stream.
   */
  lemma {:induction false} IntersectExceptPartition<T>(s: seq<T>, inAnother: set<T>)
    ensures multiset(Filter(x => x in inAnother, s)) + multiset(Filter(x => x !in inAnother, s)) == multiset(s)
    ensures |Filter(x => x in inAnother, s)| + |Filter(x => x !in inAnother, s)| == |s|
    ensures forall y :: y in Filter(x => x in inAnother, s) <==> y in s && y in inAnother
    ensures forall y :: y in Filter(x => x !in inAnother, s) <==> y in s && y !in inAnother
  {
    var keep, drop := (x: T) => x in inAnother, (x: T) => x !in inAnother;
    FilterPartition(keep, drop, s);
    forall y ensures y in Filter(keep, s) <==> y in s && y in inAnother {
      FilterMembership(keep, s, y);
    }
    forall y ensures y in Filter(drop, s) <==> y in s && y !in inAnother {
      FilterMembership(drop, s, y);
    }
  }
}
