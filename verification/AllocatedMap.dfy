/**
  `zdb -m --allocated-map` prints the allocated runs of every metaslab as ALLOC lines;
  `zhack metaslab leak` reads such lines back and allocates what they name. This module
  proves when the second undoes the first.

  Metaslab `id` of a vdev is the `size` bytes from `id * size`.
  */
module AllocatedMap {
  import opened Ranges
  import opened RangeTrees
  import opened ForcedAllocation
  import opened Multiples

  type Line = (nat, nat)

  /** The metaslab and its free segments fit the 64-bit offsets of a vdev. */
  ghost predicate MetaslabOk(id: nat, size: nat, segs: seq<Seg>, free: set<nat>) {
    size > 0 && id * size + size < TWO_64 && Denotes(segs, free) && free <= MsSpan(id, size)
  }

  /** Offsets after the last free one: the allocated run that ends the metaslab. */
  ghost function Tail(id: nat, size: nat, free: set<nat>): set<nat> {
    set x | x in MsSpan(id, size) && AfterAll(x, free)
  }

  ghost predicate AfterAll(x: nat, free: set<nat>) {
    forall y :: y in free ==> y < x
  }

  /** What the printed lines of one metaslab ask for when they are read back. */
  ghost function Restored(id: nat, size: nat, free: set<nat>): set<nat> {
    MsSpan(id, size) - free - (if id == 0 then {} else Tail(id, size, free))
  }

  // ----- printing

  lemma {:induction false} RequestedAppend(lines: seq<Line>, line: Line)
    ensures RequestedByAll(lines + [line]) == RequestedByAll(lines) + Requested(line.0, line.1)
  {
    if lines == [] {
      assert [] + [line] == [line];
    } else {
      RequestedAppend(lines[1..], line);
      assert (lines + [line])[1..] == lines[1..] + [line];
    }
  }

  lemma RequestedPlain(start: nat, size: nat)
    requires start + size < TWO_64
    ensures Requested(start, size) == Span(start, size)
  {
  }

  lemma IndexOf(x: nat, id: nat, size: nat)
    requires size > 0 && id * size <= x < id * size + size
    ensures x / size == id
  {
    DivideRemainder(id, size, x - id * size);
  }

  ghost predicate LinesOf(lines: seq<Line>, id: nat, size: nat)
    requires size > 0
  {
    forall i :: 0 <= i < |lines| ==>
      lines[i].0 / size == id && lines[i].0 < TWO_64 && lines[i].1 < TWO_64
  }

  /** Where dump_allocated's cursor stands after the first i free segments. */
  ghost function Cursor(id: nat, size: nat, segs: seq<Seg>, i: nat): nat
    requires i <= |segs|
  {
    if i == 0 then id * size else segs[i - 1].end
  }

  lemma CursorInside(id: nat, size: nat, segs: seq<Seg>, free: set<nat>, i: nat)
    requires MetaslabOk(id, size, segs, free) && i <= |segs|
    ensures id * size <= Cursor(id, size, segs, i) <= id * size + size
    ensures i < |segs| ==> Cursor(id, size, segs, i) <= segs[i].start < id * size + size
    ensures forall x: nat :: Cursor(id, size, segs, i) <= x < id * size + size && i == |segs| ==> x !in free
  {
    if i > 0 {
      SegmentAt(segs, free, i - 1);
      assert segs[i - 1].end - 1 in Span(segs[i - 1].start, segs[i - 1].end - segs[i - 1].start);
    }
    if i < |segs| {
      SegmentAt(segs, free, i);
      assert segs[i].start in Span(segs[i].start, segs[i].end - segs[i].start);
    } else {
      forall x: nat | Cursor(id, size, segs, i) <= x
        ensures x !in free
      {
        assert !Covers(segs, x);
      }
    }
  }

  /** Between the cursor and the next free segment nothing is free; the segment itself is. */
  lemma CursorStep(id: nat, size: nat, segs: seq<Seg>, free: set<nat>, i: nat)
    requires MetaslabOk(id, size, segs, free) && i < |segs|
    ensures var c := Cursor(id, size, segs, i);
            && c <= segs[i].start < segs[i].end
            && id * size <= c
            && Span(id * size, segs[i].end - id * size) - free ==
                 (Span(id * size, c - id * size) - free) + Span(c, segs[i].start - c)
  {
    CursorInside(id, size, segs, free, i);
    SegmentAt(segs, free, i);
    var c := Cursor(id, size, segs, i);
    forall x: nat | c <= x < segs[i].start
      ensures x !in free
    {
      assert !Covers(segs, x);
    }
    forall x: nat | segs[i].start <= x < segs[i].end
      ensures x in free
    {
      assert x in Span(segs[i].start, segs[i].end - segs[i].start);
    }
  }

  /** dump_allocated: print what lies between the cursor and a free segment. */
  function EmitGap(lines: seq<Line>, off: nat, start: nat): seq<Line>
    requires off <= start
  {
    if off != start then lines + [(off, start - off)] else lines
  }

  lemma EmitGapOk(id: nat, size: nat, segs: seq<Seg>, free: set<nat>, i: nat, lines: seq<Line>)
    requires MetaslabOk(id, size, segs, free) && i < |segs|
    requires LinesOf(lines, id, size)
    requires id * size <= Cursor(id, size, segs, i) <= segs[i].start
    requires RequestedByAll(lines) == Span(id * size, Cursor(id, size, segs, i) - id * size) - free
    ensures id * size <= segs[i].end
    ensures LinesOf(EmitGap(lines, Cursor(id, size, segs, i), segs[i].start), id, size)
    ensures RequestedByAll(EmitGap(lines, Cursor(id, size, segs, i), segs[i].start)) ==
            Span(id * size, segs[i].end - id * size) - free
  {
    var off := Cursor(id, size, segs, i);
    CursorInside(id, size, segs, free, i);
    EmitLines(id, size, lines, off, segs[i].start);
    EmitRequests(id, size, segs, free, i, lines);
  }

  lemma EmitLines(id: nat, size: nat, lines: seq<Line>, off: nat, start: nat)
    requires size > 0 && LinesOf(lines, id, size) && id * size <= off <= start < id * size + size < TWO_64
    ensures LinesOf(EmitGap(lines, off, start), id, size)
  {
    IndexOf(off, id, size);
  }

  lemma EmitRequests(id: nat, size: nat, segs: seq<Seg>, free: set<nat>, i: nat, lines: seq<Line>)
    requires MetaslabOk(id, size, segs, free) && i < |segs|
    requires id * size <= Cursor(id, size, segs, i) <= segs[i].start < id * size + size
    requires RequestedByAll(lines) == Span(id * size, Cursor(id, size, segs, i) - id * size) - free
    ensures id * size <= segs[i].end
    ensures RequestedByAll(EmitGap(lines, Cursor(id, size, segs, i), segs[i].start)) ==
            Span(id * size, segs[i].end - id * size) - free
  {
    var off := Cursor(id, size, segs, i);
    CursorStep(id, size, segs, free, i);
    RequestedAppend(lines, (off, segs[i].start - off));
    RequestedPlain(off, segs[i].start - off);
    assert off == segs[i].start ==> Span(off, segs[i].start - off) == {};
  }

  /** The walk over the free segments with dump_allocated. */
  method DumpGaps(id: nat, size: nat, segs: seq<Seg>, ghost free: set<nat>) returns (lines: seq<Line>, off: nat)
    requires MetaslabOk(id, size, segs, free)
    ensures off == Cursor(id, size, segs, |segs|) && id * size <= off
    ensures LinesOf(lines, id, size)
    ensures RequestedByAll(lines) == Span(id * size, off - id * size) - free
  {
    lines, off := [], id * size;
    assert Span(id * size, 0) - free == {};
    for i := 0 to |segs|
      invariant off == Cursor(id, size, segs, i) && id * size <= off
      invariant LinesOf(lines, id, size)
      invariant RequestedByAll(lines) == Span(id * size, off - id * size) - free
    {
      CursorInside(id, size, segs, free, i);
      EmitGapOk(id, size, segs, free, i, lines);
      lines := EmitGap(lines, off, segs[i].start);
      off := segs[i].end;
    }
  }

  /** The --allocated-map part of dump_metaslab. */
  method DumpMetaslab(id: nat, size: nat, segs: seq<Seg>, ghost free: set<nat>)
    returns (lines: seq<Line>)
    requires MetaslabOk(id, size, segs, free)
    ensures LinesOf(lines, id, size)
    ensures RequestedByAll(lines) == Restored(id, size, free)
  {
    var off;
    lines, off := DumpGaps(id, size, segs, free);
    LastLine(id, size, segs, free);
    if off != id * size + size {
      IndexOf(off, id, size);
      RequestedAppend(lines, (off, (size + TWO_64 - off) % TWO_64));
      lines := lines + [(off, (size + TWO_64 - off) % TWO_64)];
    }
  }

  /** The last line names the trailing run of metaslab 0, and nothing for any other. */
  lemma LastLine(id: nat, size: nat, segs: seq<Seg>, free: set<nat>)
    requires MetaslabOk(id, size, segs, free)
    ensures var off := Cursor(id, size, segs, |segs|);
            && id * size <= off <= id * size + size
            && Tail(id, size, free) == Span(off, id * size + size - off)
            && (Span(id * size, off - id * size) - free) +
                 (if off == id * size + size then {} else Requested(off, (size + TWO_64 - off) % TWO_64))
               == Restored(id, size, free)
  {
    var off := Cursor(id, size, segs, |segs|);
    CursorInside(id, size, segs, free, |segs|);
    TailIsSuffix(id, size, segs, free);
    if off < id * size + size { WrappedEnd(id, size, off); }
    SpanSplit(id * size, off - id * size, id * size + size - off);
  }

  lemma TailIsSuffix(id: nat, size: nat, segs: seq<Seg>, free: set<nat>)
    requires MetaslabOk(id, size, segs, free)
    ensures var off := Cursor(id, size, segs, |segs|);
            id * size <= off <= id * size + size &&
            Tail(id, size, free) == Span(off, id * size + size - off)
  {
    var off := Cursor(id, size, segs, |segs|);
    CursorInside(id, size, segs, free, |segs|);
    if |segs| > 0 {
      SegmentAt(segs, free, |segs| - 1);
      assert off - 1 in Span(segs[|segs| - 1].start, off - segs[|segs| - 1].start);
    }
    forall x: nat | x in MsSpan(id, size)
      ensures AfterAll(x, free) <==> off <= x
    {
    }
  }

  /** `off + (ms_size - off)` is ms_size, not the end of the metaslab. */
  lemma WrappedEnd(id: nat, size: nat, off: nat)
    requires size > 0 && id * size + size < TWO_64 && id * size <= off < id * size + size
    ensures id == 0 ==> Requested(off, (size + TWO_64 - off) % TWO_64) == Span(off, size - off)
    ensures id > 0 ==> Requested(off, (size + TWO_64 - off) % TWO_64) == {}
  {
    if id > 0 {
      LaterMultiple(0, id, size);
    }
    if off <= size {
      assert (size + TWO_64 - off) % TWO_64 == size - off;
    } else {
      assert (size + TWO_64 - off) % TWO_64 == size + TWO_64 - off;
    }
    assert End64(off, (size + TWO_64 - off) % TWO_64) == size;
  }

  // ----- reading the lines back

  function ReplayLine(v: seq<Space>, size: nat, line: Line): seq<Space>
    requires size > 0
  {
    var idx := line.0 / size;
    if idx >= |v| then v else v[idx := Forced(v[idx], line.0, line.1)]
  }

  function ReplayLines(v: seq<Space>, size: nat, lines: seq<Line>): seq<Space>
    requires size > 0
    decreases |lines|
  {
    if lines == [] then v else ReplayLines(ReplayLine(v, size, lines[0]), size, lines[1..])
  }

  /** The metaslabs of a vdev share no tree. */
  ghost predicate Apart(ms: seq<Metaslab>) {
    forall i, j :: 0 <= i < |ms| && 0 <= j < |ms| && i != j ==>
      && ms[i] != ms[j]
      && ms[i].allocatable != ms[j].allocatable && ms[i].allocating != ms[j].allocating
      && ms[i].allocatable != ms[j].allocating
  }

  ghost function Trees(ms: seq<Metaslab>): set<RangeTree> {
    (set m | m in ms :: m.allocatable) + (set m | m in ms :: m.allocating)
  }

  ghost predicate Holds(ms: seq<Metaslab>, v: seq<Space>)
    reads ms, Trees(ms)
  {
    |ms| == |v| && forall i :: 0 <= i < |ms| ==> ms[i].Valid() && ms[i].Value() == v[i]
  }

  /** An ALLOC line of zhack_do_metaslab_leak; a line past the last metaslab is passed over. */
  method LeakLine(ms: seq<Metaslab>, size: nat, line: Line, ghost v: seq<Space>)
    requires size > 0 && Apart(ms) && Holds(ms, v) && line.0 < TWO_64 && line.1 < TWO_64
    modifies ms, Trees(ms)
    ensures Holds(ms, ReplayLine(v, size, line))
  {
    var idx := line.0 / size;
    if idx >= |ms| {
      return;
    }
    assert ms[idx] in ms;
    ms[idx].ForceAlloc(line.0, line.1);
  }

  /** The reading loop of zhack_do_metaslab_leak, over the ALLOC lines of one vdev. */
  method LeakLines(ms: seq<Metaslab>, size: nat, lines: seq<Line>, ghost v: seq<Space>)
    requires size > 0 && Apart(ms) && Holds(ms, v)
    requires forall i :: 0 <= i < |lines| ==> lines[i].0 < TWO_64 && lines[i].1 < TWO_64
    modifies ms, Trees(ms)
    ensures Holds(ms, ReplayLines(v, size, lines))
  {
    ghost var cur := v;
    for i := 0 to |lines|
      invariant Holds(ms, cur)
      invariant ReplayLines(v, size, lines) == ReplayLines(cur, size, lines[i..])
    {
      assert lines[i..][1..] == lines[i + 1..];
      LeakLine(ms, size, lines[i], cur);
      cur := ReplayLine(cur, size, lines[i]);
    }
  }

  lemma ReplayFirst(v: seq<Space>, size: nat, lines: seq<Line>)
    requires size > 0 && lines != []
    ensures ReplayLines(v, size, lines) == ReplayLines(ReplayLine(v, size, lines[0]), size, lines[1..])
  {
  }

  lemma {:induction false} ReplayConcat(v: seq<Space>, size: nat, a: seq<Line>, b: seq<Line>)
    requires size > 0
    ensures ReplayLines(v, size, a + b) == ReplayLines(ReplayLines(v, size, a), size, b)
    decreases |a|
  {
    if a == [] {
      assert a + b == b;
    } else {
      ReplayConcat(ReplayLine(v, size, a[0]), size, a[1..], b);
      assert (a + b)[1..] == a[1..] + b;
      ReplayFirst(v, size, a);
      ReplayFirst(v, size, a + b);
    }
  }

  /** Lines that start in one metaslab touch no other. */
  lemma {:induction false} ReplayOneMetaslab(v: seq<Space>, size: nat, id: nat, lines: seq<Line>)
    requires size > 0 && id < |v| && LinesOf(lines, id, size)
    ensures ReplayLines(v, size, lines) == v[id := ForcedAll(v[id], lines)]
    decreases |lines|
  {
    if lines == [] {
      assert v[id := v[id]] == v;
    } else {
      ReplayOneMetaslab(ReplayLine(v, size, lines[0]), size, id, lines[1..]);
    }
  }

  function AllFree(size: nat, n: nat): seq<Space> {
    seq(n, m requires 0 <= m < n => Space(MsSpan(m, size), {}, 0))
  }

  ghost predicate VdevOk(size: nat, vdev: seq<seq<Seg>>, frees: seq<set<nat>>) {
    && |vdev| == |frees|
    && forall m :: 0 <= m < |vdev| ==> MetaslabOk(m, size, vdev[m], frees[m])
  }

  /** What is free after the lines of metaslab m have been read back. */
  ghost function FreeAfter(m: nat, size: nat, free: set<nat>): set<nat> {
    free + (if m == 0 then {} else Tail(m, size, free))
  }

  lemma FreeAfterForced(m: nat, size: nat, free: set<nat>, lines: seq<Line>)
    requires free <= MsSpan(m, size) && RequestedByAll(lines) == Restored(m, size, free)
    ensures ForcedAll(Space(MsSpan(m, size), {}, 0), lines).free == FreeAfter(m, size, free)
  {
    ForcedAllTakesUnion(Space(MsSpan(m, size), {}, 0), lines);
  }

  /** A metaslab survives the round trip exactly when it is the first or its last byte is free. */
  lemma SurvivesIff(m: nat, size: nat, free: set<nat>)
    requires size > 0 && free <= MsSpan(m, size)
    ensures FreeAfter(m, size, free) == free <==> m == 0 || m * size + size - 1 in free
  {
  }

  /** Print a whole vdev, then read the lines into the same vdev with everything free. */
  method DumpAndReplay(size: nat, vdev: seq<seq<Seg>>, ghost frees: seq<set<nat>>)
    returns (lines: seq<Line>, out: seq<Space>)
    requires size > 0 && VdevOk(size, vdev, frees)
    ensures out == ReplayLines(AllFree(size, |vdev|), size, lines)
    ensures |out| == |vdev|
    ensures forall m :: 0 <= m < |vdev| ==> out[m].free == FreeAfter(m, size, frees[m])
    ensures (forall m :: 0 <= m < |vdev| ==> out[m].free == frees[m]) <==>
            (forall m :: 1 <= m < |vdev| ==> m * size + size - 1 in frees[m])
  {
    lines := [];
    out := AllFree(size, |vdev|);
    for m := 0 to |vdev|
      invariant out == ReplayLines(AllFree(size, |vdev|), size, lines)
      invariant |out| == |vdev|
      invariant forall k :: 0 <= k < m ==> out[k].free == FreeAfter(k, size, frees[k])
      invariant forall k :: m <= k < |vdev| ==> out[k] == Space(MsSpan(k, size), {}, 0)
    {
      var dumped := DumpMetaslab(m, size, vdev[m], frees[m]);
      ReplayConcat(AllFree(size, |vdev|), size, lines, dumped);
      ReplayOneMetaslab(out, size, m, dumped);
      FreeAfterForced(m, size, frees[m], dumped);
      lines := lines + dumped;
      out := ReplayLines(out, size, dumped);
    }
    RoundTripIff(size, vdev, frees, out);
  }

  lemma RoundTripIff(size: nat, vdev: seq<seq<Seg>>, frees: seq<set<nat>>, out: seq<Space>)
    requires size > 0 && VdevOk(size, vdev, frees) && |out| == |vdev|
    requires forall m :: 0 <= m < |vdev| ==> out[m].free == FreeAfter(m, size, frees[m])
    ensures (forall m :: 0 <= m < |vdev| ==> out[m].free == frees[m]) <==>
            (forall m :: 1 <= m < |vdev| ==> m * size + size - 1 in frees[m])
  {
  }

  /** The smallest pool that does not survive: metaslab 1 of one byte each, all allocated. */
  lemma LostTail()
    ensures FreeAfter(1, 1, {}) == {1}
  {
  }
}
