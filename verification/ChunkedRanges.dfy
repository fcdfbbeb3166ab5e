/** Iterating a chunked vector of ranges: over the ranges, forwards and backwards, and over the single
    indices in them.  How the ranges are split into chunks cannot be observed. */
module ChunkedRanges {
  import opened Wrappers

  /** The indices from `first` up to but not including `second`. */
  datatype Range = Range(first: nat, second: nat)

  type Chunks = seq<seq<Range>>

  ghost predicate NonEmptyChunks(data: Chunks) {
    forall i :: 0 <= i < |data| ==> data[i] != []
  }

  ghost predicate NonEmptyRanges(ranges: seq<Range>) {
    forall i :: 0 <= i < |ranges| ==> ranges[i].first < ranges[i].second
  }

  /** How many ranges the first `n` chunks hold. */
  ghost function Before(data: Chunks, n: nat): nat
    requires n <= |data|
  {
    if n == 0 then 0 else Before(data, n - 1) + |data[n - 1]|
  }

  /** The ranges in order, without the chunking. */
  ghost function Flatten(data: Chunks): (r: seq<Range>)
    ensures |r| == Before(data, |data|)
    decreases |data|
  {
    if data == [] then []
    else
      BeforePrefix(data, |data| - 1);
      Flatten(data[..|data| - 1]) + data[|data| - 1]
  }

  lemma {:induction false} BeforePrefix(data: Chunks, n: nat)
    requires n <= |data|
    ensures forall k :: 0 <= k <= n ==> Before(data[..n], k) == Before(data, k)
  {
    forall k | 0 <= k <= n
      ensures Before(data[..n], k) == Before(data, k)
    {
      assert data[..n][..k] == data[..k];
      BeforeSame(data, data[..n], k);
    }
  }

  lemma {:induction false} BeforeSame(a: Chunks, b: Chunks, k: nat)
    requires k <= |a| && k <= |b| && a[..k] == b[..k]
    ensures Before(a, k) == Before(b, k)
    decreases k
  {
    if k > 0 {
      assert a[..k - 1] == a[..k][..k - 1] == b[..k - 1];
      assert a[k - 1] == a[..k][k - 1] == b[..k][k - 1];
      BeforeSame(a, b, k - 1);
    }
  }

  lemma {:induction false} BeforeGrows(data: Chunks, i: nat, j: nat)
    requires i < j <= |data|
    ensures Before(data, i) + |data[i]| <= Before(data, j)
    decreases j
  {
    if i < j - 1 {
      BeforeGrows(data, i, j - 1);
    }
  }

  /** Element `k` of chunk `i` is where the flat sequence says it is. */
  lemma {:induction false} FlattenAt(data: Chunks, i: nat, k: nat)
    requires i < |data| && k < |data[i]|
    ensures Before(data, i) + k < |Flatten(data)|
    ensures Flatten(data)[Before(data, i) + k] == data[i][k]
    decreases |data|
  {
    var n := |data| - 1;
    BeforePrefix(data, n);
    BeforeGrows(data, i, n + 1);
    if i < n {
      FlattenAt(data[..n], i, k);
    }
  }

  /** A position inside a chunk, or the end. */
  ghost predicate ValidPosition(data: Chunks, outer: nat, inner: Option<nat>) {
    && NonEmptyChunks(data)
    && outer <= |data|
    && (outer < |data| ==> inner.Some? && inner.value < |data[outer]|)
    && (outer == |data| ==> inner.None?)
  }

  ghost function Offset(inner: Option<nat>): nat {
    if inner.Some? then inner.value else 0
  }

  /** A flat position is reached in exactly one way. */
  lemma PositionIsUnique(data: Chunks, o1: nat, i1: Option<nat>, o2: nat, i2: Option<nat>)
    requires ValidPosition(data, o1, i1) && ValidPosition(data, o2, i2)
    requires Before(data, o1) + Offset(i1) == Before(data, o2) + Offset(i2)
    ensures o1 == o2 && i1 == i2
  {
    if o1 < o2 {
      BeforeGrows(data, o1, o2);
    } else if o2 < o1 {
      BeforeGrows(data, o2, o1);
    }
  }

  /** `ChunkedRangeVectorIterator`: an outer position and, unless at the end, an element of that chunk. */
  class RangeIterator {
    const data: Chunks
    var outer: nat
    var inner: Option<nat>

    ghost predicate Valid()
      reads this
    {
      ValidPosition(data, outer, inner)
    }

    /** How many ranges precede the iterator. */
    ghost function Position(): nat
      requires Valid()
      reads this
    {
      Before(data, outer) + Offset(inner)
    }

    /** `ChunkedRangeVector::begin` */
    constructor Begin(data: Chunks)
      requires NonEmptyChunks(data)
      ensures Valid() && this.data == data && Position() == 0
    {
      this.data := data;
      this.outer := 0;
      this.inner := if data == [] then None else Some(0);
    }

    /** `ChunkedRangeVector::end` */
    constructor End(data: Chunks)
      requires NonEmptyChunks(data)
      ensures Valid() && this.data == data && Position() == |Flatten(data)|
    {
      this.data := data;
      this.outer := |data|;
      this.inner := None;
    }

    /** `operator*` */
    method Current() returns (r: Range)
      requires Valid() && outer < |data|
      ensures Position() < |Flatten(data)| && r == Flatten(data)[Position()]
    {
      FlattenAt(data, outer, inner.value);
      r := data[outer][inner.value];
    }

    /** `operator==` */
    method Equals(other: RangeIterator) returns (same: bool)
      requires Valid() && other.Valid() && other.data == data
      ensures same <==> Position() == other.Position()
    {
      same := outer == other.outer && inner == other.inner;
      if Position() == other.Position() {
        PositionIsUnique(data, outer, inner, other.outer, other.inner);
      }
    }

    /** `next_chunk` */
    method NextChunk()
      requires outer < |data| && NonEmptyChunks(data)
      modifies this
      ensures Valid() && outer == old(outer) + 1 && Position() == Before(data, outer)
    {
      outer := outer + 1;
      inner := if outer != |data| then Some(0) else None;
    }

    /** `operator++` */
    method Increment()
      requires Valid() && outer < |data|
      modifies this
      ensures Valid() && Position() == old(Position()) + 1
    {
      inner := Some(inner.value + 1);
      if inner.value == |data[outer]| {
        NextChunk();
      }
    }

    /** `operator--` */
    method Decrement()
      requires Valid() && Position() > 0
      modifies this
      ensures Valid() && Position() == old(Position()) - 1 && outer < |data|
    {
      if inner.None? || inner.value == 0 {
        assert outer > 0;
        outer := outer - 1;
        inner := Some(|data[outer]| - 1);
      } else {
        inner := Some(inner.value - 1);
      }
    }
  }

  /** `++` then `--` comes back to the very same element, on every non-end position. */
  method ThereAndBack(it: RangeIterator)
    requires it.Valid() && it.outer < |it.data|
    modifies it
    ensures it.Valid() && it.outer == old(it.outer) && it.inner == old(it.inner)
  {
    it.Increment();
    it.Decrement();
    PositionIsUnique(it.data, it.outer, it.inner, old(it.outer), old(it.inner));
  }

  ghost function Reversed(ranges: seq<Range>): (r: seq<Range>)
    ensures |r| == |ranges|
    ensures forall k :: 0 <= k < |r| ==> r[k] == ranges[|ranges| - 1 - k]
  {
    if ranges == [] then [] else Reversed(ranges[1..]) + [ranges[0]]
  }

  /** Stepping back from the end visits the ranges in reverse order. */
  method WalkBack(data: Chunks) returns (visited: seq<Range>)
    requires NonEmptyChunks(data)
    ensures visited == Reversed(Flatten(data))
  {
    visited := [];
    var it := new RangeIterator.End(data);
    var begin := new RangeIterator.Begin(data);
    var done := it.Equals(begin);
    while !done
      invariant it.Valid() && it.data == data && begin.Valid() && begin.data == data && begin.Position() == 0
      invariant it.Position() + |visited| == |Flatten(data)|
      invariant visited == Reversed(Flatten(data))[..|visited|]
      invariant done <==> it.Position() == 0
      decreases it.Position()
    {
      var r;
      r, done := StepBack(it, begin);
      visited := visited + [r];
    }
  }

  /** The loop's body: step back, read, and compare with the beginning. */
  method StepBack(it: RangeIterator, begin: RangeIterator) returns (r: Range, done: bool)
    requires it.Valid() && begin.Valid() && it.data == begin.data && it != begin
    requires it.Position() > 0 && begin.Position() == 0
    modifies it
    ensures it.Valid() && it.Position() == old(it.Position()) - 1 && it.Position() < |Flatten(it.data)|
    ensures r == Flatten(it.data)[it.Position()] && (done <==> it.Position() == 0)
  {
    it.Decrement();
    r := it.Current();
    done := it.Equals(begin);
  }

  /** The indices of a range. */
  function Span(first: nat, second: nat): (r: seq<nat>)
    requires first <= second
    ensures |r| == second - first
    ensures forall k :: 0 <= k < |r| ==> r[k] == first + k
  {
    seq(second - first, k => first + k)
  }

  /** Every index of every range, in order. */
  ghost function Indices(ranges: seq<Range>): seq<nat>
    requires NonEmptyRanges(ranges)
  {
    if ranges == [] then [] else Span(ranges[0].first, ranges[0].second) + Indices(ranges[1..])
  }

  /** What is left from `offset` indices into the `p`-th range on. */
  ghost function Tail(ranges: seq<Range>, p: nat, offset: nat): seq<nat>
    requires NonEmptyRanges(ranges)
    requires p < |ranges| ==> ranges[p].first + offset < ranges[p].second
  {
    if p >= |ranges| then [] else Span(ranges[p].first + offset, ranges[p].second) + Indices(ranges[p + 1..])
  }

  lemma TailFromStart(ranges: seq<Range>, p: nat)
    requires NonEmptyRanges(ranges) && p <= |ranges|
    ensures Tail(ranges, p, 0) == Indices(ranges[p..])
  {
    if p < |ranges| {
      assert ranges[p..][0] == ranges[p] && ranges[p..][1..] == ranges[p + 1..];
    }
  }

  /** One index further: the next of this range, or the start of the next range. */
  lemma TailStep(ranges: seq<Range>, p: nat, offset: nat)
    requires NonEmptyRanges(ranges) && p < |ranges| && ranges[p].first + offset < ranges[p].second
    ensures Tail(ranges, p, offset) != [] && Tail(ranges, p, offset)[0] == ranges[p].first + offset
    ensures Tail(ranges, p, offset)[1..] ==
            if ranges[p].first + offset + 1 < ranges[p].second then Tail(ranges, p, offset + 1)
              else Tail(ranges, p + 1, 0)
  {
    var r, rest := ranges[p], Indices(ranges[p + 1..]);
    var span := Span(r.first + offset, r.second);
    assert (span + rest)[1..] == span[1..] + rest;
    if r.first + offset + 1 < r.second {
      assert span[1..] == Span(r.first + offset + 1, r.second);
    } else {
      assert span[1..] == [];
      TailFromStart(ranges, p + 1);
    }
  }

  /** `IndexSet::IndexIterator`: a range iterator and an offset into its range. */
  class IndexIterator {
    const it: RangeIterator
    var offset: nat

    ghost predicate Valid()
      reads this, it
    {
      && it.Valid()
      && NonEmptyRanges(Flatten(it.data))
      && (it.Position() == |Flatten(it.data)| ==> offset == 0)
      && (it.Position() < |Flatten(it.data)| ==>
            var r := Flatten(it.data)[it.Position()]; r.first + offset < r.second)
    }

    /** The indices not yet passed. */
    ghost function Remaining(): seq<nat>
      requires Valid()
      reads this, it
    {
      Tail(Flatten(it.data), it.Position(), offset)
    }

    constructor (it: RangeIterator)
      requires it.Valid() && NonEmptyRanges(Flatten(it.data)) && it.Position() <= |Flatten(it.data)|
      ensures Valid() && this.it == it && offset == 0
      ensures Remaining() == Indices(Flatten(it.data)[it.Position()..])
    {
      this.it := it;
      this.offset := 0;
      new;
      TailFromStart(Flatten(it.data), it.Position());
    }

    /** `operator*` */
    method Current() returns (index: nat)
      requires Valid() && it.outer < |it.data|
      ensures Remaining() != [] && index == Remaining()[0]
    {
      var r := it.Current();
      TailStep(Flatten(it.data), it.Position(), offset);
      index := r.first + offset;
    }

    /** `operator==`, which compares the range iterators and ignores the offsets. */
    method Equals(other: IndexIterator) returns (same: bool)
      requires Valid() && other.Valid() && other.it.data == it.data
      ensures same <==> it.Position() == other.it.Position()
    {
      same := it.Equals(other.it);
    }

    /** `operator++`: passes exactly one index. */
    method Increment()
      requires Valid() && it.outer < |it.data|
      modifies this, it
      ensures Valid()
      ensures |old(Remaining())| > 0 && Remaining() == old(Remaining())[1..]
    {
      ghost var ranges, p, k := Flatten(it.data), it.Position(), offset;
      var r := it.Current();
      TailStep(ranges, p, k);
      ghost var left := Tail(ranges, p, k);
      offset := offset + 1;
      if r.first + offset == r.second {
        it.Increment();
        offset := 0;
        assert left[1..] == Tail(ranges, p + 1, 0) && it.Position() == p + 1;
      } else {
        assert left[1..] == Tail(ranges, p, k + 1) && it.Position() == p;
      }
    }

    /** `operator++(int)`: passes one index and returns it. */
    method PostIncrement() returns (index: nat)
      requires Valid() && it.Position() != |Flatten(it.data)|
      modifies this, it
      ensures Valid()
      ensures |old(Remaining())| > 0 && index == old(Remaining())[0] && Remaining() == old(Remaining())[1..]
    {
      InsideIsBeforeEnd(it.data, it.outer, it.inner);
      index := Current();
      Increment();
    }
  }

  /** A loop up to an end iterator collects exactly what the iterator had left, and stops at the end. */
  method WalkTo(it: IndexIterator, end: IndexIterator) returns (visited: seq<nat>)
    requires it.Valid() && end.Valid() && it.it.data == end.it.data && it != end && it.it != end.it
    requires end.it.Position() == |Flatten(end.it.data)|
    modifies it, it.it
    ensures visited == old(it.Remaining())
    ensures it.Valid() && it.it.Position() == |Flatten(it.it.data)|
  {
    ghost var all := it.Remaining();
    visited := [];
    var done := it.Equals(end);
    while !done
      invariant it.Valid() && end.Valid()
      invariant end.it.Position() == |Flatten(end.it.data)|
      invariant all == visited + it.Remaining()
      invariant done <==> it.it.Position() == |Flatten(it.it.data)|
      decreases |it.Remaining()|
    {
      var index;
      index, done := StepTo(it, end);
      Regroup(visited, index, it.Remaining());
      visited := visited + [index];
    }
  }

  lemma Regroup(a: seq<nat>, x: nat, b: seq<nat>)
    ensures a + ([x] + b) == a + [x] + b
  {
  }

  /** The loop's body: pass one index and compare with the end. */
  method StepTo(it: IndexIterator, end: IndexIterator) returns (index: nat, done: bool)
    requires it.Valid() && end.Valid() && it.it.data == end.it.data && it != end && it.it != end.it
    requires end.it.Position() == |Flatten(end.it.data)| && it.it.Position() != |Flatten(it.it.data)|
    modifies it, it.it
    ensures it.Valid() && old(it.Remaining()) == [index] + it.Remaining()
    ensures |it.Remaining()| < |old(it.Remaining())|
    ensures done <==> it.it.Position() == |Flatten(it.it.data)|
  {
    index := it.PostIncrement();
    done := it.Equals(end);
  }

  /** Walking the indices from begin to end, as a loop over `as_indexes()` does, visits every index of
      every range once and in order; the chunking does not show. */
  method WalkIndices(data: Chunks) returns (visited: seq<nat>)
    requires NonEmptyChunks(data) && NonEmptyRanges(Flatten(data))
    ensures visited == Indices(Flatten(data))
  {
    var first := new RangeIterator.Begin(data);
    var last := new RangeIterator.End(data);
    assert Flatten(data)[0..] == Flatten(data);
    var it := new IndexIterator(first);
    var end := new IndexIterator(last);
    visited := WalkTo(it, end);
  }

  /** A position other than the end's lies in a chunk. */
  lemma InsideIsBeforeEnd(data: Chunks, outer: nat, inner: Option<nat>)
    requires ValidPosition(data, outer, inner)
    ensures outer < |data| <==> Before(data, outer) + Offset(inner) != |Flatten(data)|
  {
    if outer < |data| {
      FlattenAt(data, outer, inner.value);
    }
  }

  /** Sorted and disjoint, touching ranges allowed. */
  ghost predicate Ordered(ranges: seq<Range>) {
    NonEmptyRanges(ranges) && forall i :: 0 < i < |ranges| ==> ranges[i - 1].second <= ranges[i].first
  }

  lemma {:induction false} OrderedAfter(ranges: seq<Range>, i: nat)
    requires Ordered(ranges) && 0 < i < |ranges|
    ensures ranges[0].second <= ranges[i].first
    decreases i
  {
    if i > 1 {
      OrderedAfter(ranges, i - 1);
    }
  }

  /** The indices are exactly the members of the ranges. */
  lemma {:induction false} IndicesMembers(ranges: seq<Range>, n: nat)
    requires NonEmptyRanges(ranges)
    ensures n in Indices(ranges) <==> exists i :: 0 <= i < |ranges| && ranges[i].first <= n < ranges[i].second
  {
    if ranges != [] {
      var span := Span(ranges[0].first, ranges[0].second);
      IndicesMembers(ranges[1..], n);
      if ranges[0].first <= n < ranges[0].second {
        assert span[n - ranges[0].first] == n;
      }
      if exists i :: 0 <= i < |ranges[1..]| && ranges[1..][i].first <= n < ranges[1..][i].second {
        var i :| 0 <= i < |ranges[1..]| && ranges[1..][i].first <= n < ranges[1..][i].second;
        assert ranges[i + 1] == ranges[1..][i];
      }
      if exists i :: 0 <= i < |ranges| && ranges[i].first <= n < ranges[i].second {
        var i :| 0 <= i < |ranges| && ranges[i].first <= n < ranges[i].second;
        if i > 0 {
          assert ranges[1..][i - 1] == ranges[i];
        }
      }
    }
  }

  /** Over ordered ranges the walk is strictly ascending, so no index is visited twice. */
  lemma {:induction false} IndicesAscend(ranges: seq<Range>)
    requires Ordered(ranges)
    ensures forall i, j :: 0 <= i < j < |Indices(ranges)| ==> Indices(ranges)[i] < Indices(ranges)[j]
  {
    if ranges != [] {
      var span, rest := Span(ranges[0].first, ranges[0].second), Indices(ranges[1..]);
      IndicesAscend(ranges[1..]);
      forall k | 0 <= k < |rest|
        ensures ranges[0].second <= rest[k]
      {
        IndicesMembers(ranges[1..], rest[k]);
        var i :| 0 <= i < |ranges[1..]| && ranges[1..][i].first <= rest[k] < ranges[1..][i].second;
        OrderedAfter(ranges, i + 1);
      }
      forall i, j | 0 <= i < j < |span + rest|
        ensures (span + rest)[i] < (span + rest)[j]
      {
        if i < |span| <= j {
          assert (span + rest)[j] == rest[j - |span|];
        }
      }
    }
  }
}
