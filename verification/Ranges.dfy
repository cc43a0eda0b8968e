/**
  Byte ranges, and range trees seen as the set of byte offsets they hold.

  Every program in this project talks to `zfs_range_tree` only through the operations
  below. Module `RangeTrees` proves that the segment representation of
  module/zfs/range_tree.c answers exactly as these set-level operations do; the other
  modules are written against the sets.
  */
module Ranges {

  datatype Option<+T> = None | Some(value: T) {
    function GetOr(default: T): T {
      if Some? then value else default
    }
  }

  predicate Within(x: nat, start: nat, size: nat) {
    start <= x < start + size
  }

  /** The offsets of the half-open range [start, start + size). */
  function Span(start: nat, size: nat): set<nat> {
    set x: nat | x < start + size && Within(x, start, size)
  }

  /** Adding a range: an overlap with anything present is fatal (None). */
  function TreeAdd(t: set<nat>, start: nat, size: nat): Option<set<nat>> {
    if t !! Span(start, size) then Some(t + Span(start, size)) else None
  }

  /** Removing a range: a range that is not wholly present is fatal (None). */
  function TreeRemove(t: set<nat>, start: nat, size: nat): Option<set<nat>> {
    if Span(start, size) <= t then Some(t - Span(start, size)) else None
  }

  /** [ostart, ostart + osize) is the first maximal run of `t` inside the request. */
  ghost predicate FirstRun(t: set<nat>, start: nat, size: nat, ostart: nat, osize: nat) {
    && osize > 0
    && start <= ostart && ostart + osize <= start + size
    && Span(ostart, osize) <= t
    && t !! Span(start, ostart - start)
    && (ostart + osize == start + size || ostart + osize !in t)
  }

  /** Metaslab `id` of a vdev whose metaslabs are `size` bytes long. */
  function MsSpan(id: nat, size: nat): set<nat> {
    Span(id * size, size)
  }

  lemma {:induction false} SpanSize(start: nat, size: nat)
    ensures |Span(start, size)| == size
  {
    if size == 0 {
      assert Span(start, size) == {};
    } else {
      SpanSize(start, size - 1);
      assert Span(start, size) == Span(start, size - 1) + {start + size - 1};
    }
  }

  lemma SpanSplit(start: nat, a: nat, b: nat)
    ensures Span(start, a + b) == Span(start, a) + Span(start + a, b)
    ensures Span(start, a) !! Span(start + a, b)
  {
  }

  lemma DisjointSize<T>(a: set<T>, b: set<T>)
    requires a !! b
    ensures |a + b| == |a| + |b|
  {
  }

  lemma SubsetSize<T>(a: set<T>, b: set<T>)
    requires b <= a
    ensures |a - b| == |a| - |b|
    ensures |b| <= |a|
  {
  }

  /** A range added or removed moves the size of the tree by exactly the range's length. */
  lemma TreeOpSize(t: set<nat>, start: nat, size: nat)
    ensures TreeAdd(t, start, size).Some? ==> |TreeAdd(t, start, size).value| == |t| + size
    ensures TreeRemove(t, start, size).Some? ==>
              size <= |t| && |TreeRemove(t, start, size).value| == |t| - size
  {
    SpanSize(start, size);
    if t !! Span(start, size) {
      DisjointSize(t, Span(start, size));
    }
    if Span(start, size) <= t {
      SubsetSize(t, Span(start, size));
    }
  }
}
