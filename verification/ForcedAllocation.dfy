/**
  `zhack metaslab leak`: the loop of cmd/zhack.c that moves every free part of a
  requested range from a metaslab's free tree to the tree of the open transaction.
  */
module ForcedAllocation {
  import opened Ranges
  import opened RangeTrees

  /** Offsets and sizes are 64-bit; `start + size` wraps. */
  const TWO_64: nat := 0x1_0000_0000_0000_0000

  function End64(start: nat, size: nat): nat {
    (start + size) % TWO_64
  }

  /** The offsets a request names: none at all when its end has wrapped below its start. */
  function Requested(start: nat, size: nat): set<nat> {
    if start < End64(start, size) then Span(start, End64(start, size) - start) else {}
  }

  /** A metaslab's space: still free, being allocated, and the running total. */
  datatype Space = Space(free: set<nat>, allocating: set<nat>, total: nat)

  /** What a request of 64-bit numbers asks for: its range, or nothing when its end does not fit. */
  lemma RequestedIs(start: nat, size: nat)
    requires start < TWO_64 && size < TWO_64
    ensures Requested(start, size) == if start + size < TWO_64 then Span(start, size) else {}
  {
  }

  function Forced(s: Space, start: nat, size: nat): Space {
    var taken := s.free * Requested(start, size);
    Space(s.free - taken, s.allocating + taken, s.total + |taken|)
  }

  function ForcedAll(s: Space, requests: seq<(nat, nat)>): Space
    decreases |requests|
  {
    if requests == [] then s
    else ForcedAll(Forced(s, requests[0].0, requests[0].1), requests[1..])
  }

  /** [ostart, ostart + osize) changes from free to being allocated. */
  function Moved(s: Space, ostart: nat, osize: nat): Space {
    Space(s.free - Span(ostart, osize), s.allocating + Span(ostart, osize), s.total + osize)
  }

  /** One turn of the loop at `off`: the next free run before `end` is moved, if there is one. */
  ghost predicate Turn(before: Space, after: Space, off: nat, end: nat, found: bool, ostart: nat, osize: nat) {
    && off <= end
    && if found then
         FirstRun(before.free, off, end - off, ostart, osize) && after == Moved(before, ostart, osize)
       else
         before.free !! Span(off, end - off) && after == before
  }

  // ----- the loop

  class Metaslab {
    const allocatable: RangeTree
    const allocating: RangeTree
    var allocatingTotal: nat

    ghost predicate Valid()
      reads this, allocatable, allocating
    {
      && allocatable != allocating
      && allocatable.Valid() && allocating.Valid()
      && allocatable.contents !! allocating.contents
    }

    ghost function Value(): Space
      reads this, allocatable, allocating
    {
      Space(allocatable.contents, allocating.contents, allocatingTotal)
    }

    constructor (free: RangeTree, taken: RangeTree)
      requires free != taken && free.Valid() && taken.Valid()
      requires free.contents !! taken.contents
      ensures Valid() && Value() == Space(free.contents, taken.contents, 0)
      ensures allocatable == free && allocating == taken
    {
      allocatable := free;
      allocating := taken;
      allocatingTotal := 0;
    }

    /** Move [ostart, ostart + osize), known to be free, to the transaction's tree. */
    method MoveRun(ostart: nat, osize: nat)
      requires Valid() && osize > 0 && Span(ostart, osize) <= allocatable.contents
      modifies this, allocatable, allocating
      ensures Valid()
      ensures Value() == Moved(old(Value()), ostart, osize)
    {
      var removed := allocatable.Remove(ostart, osize);
      var added := allocating.Add(ostart, osize);
      allocatingTotal := allocatingTotal + osize;
    }

    /** One turn of the loop: move the next free run, if there is one. */
    method ForceNext(off: nat, end: nat) returns (found: bool, ostart: nat, osize: nat)
      requires Valid() && off < end
      modifies this, allocatable, allocating
      ensures Valid()
      ensures Turn(old(Value()), Value(), off, end, found, ostart, osize)
    {
      found, ostart, osize := allocatable.FindIn(off, end - off);
      if found {
        MoveRun(ostart, osize);
      }
    }

    /** metaslab_force_alloc */
    method ForceAlloc(start: nat, size: nat)
      requires Valid() && start < TWO_64 && size < TWO_64
      modifies this, allocatable, allocating
      ensures Valid()
      ensures Value() == Forced(old(Value()), start, size)
    {
      var end := End64(start, size);
      var off := start;
      ghost var s0 := Value();
      ghost var reached := off;
      while off < end
        invariant Valid()
        invariant start <= off == reached && (off == start || off <= end)
        invariant Value() == Taken(s0, start, off)
        decreases if off < end then end - off else 0
      {
        var found, ostart, osize := ForceNext(off, end);
        TurnReaches(s0, start, off, end, Value(), found, ostart, osize);
        reached := if found then ostart + osize else end;
        if !found {
          break;
        }
        off := ostart + osize;
      }
      TakenAll(s0, start, size, reached);
    }
  }

  /** One offset, if it is free, changes hands. */
  function TakeByte(s: Space, x: nat): Space {
    if x in s.free then Space(s.free - {x}, s.allocating + {x}, s.total + 1) else s
  }

  /** The state once every free offset of [start, off) has been moved, one after the other. */
  ghost function Taken(s: Space, start: nat, off: nat): Space
    requires start <= off
    decreases off - start
  {
    if off == start then s else TakeByte(Taken(s, start, off - 1), off - 1)
  }

  lemma {:induction false} TakenFree(s: Space, start: nat, off: nat)
    requires start <= off
    ensures Taken(s, start, off).free == s.free - Span(start, off - start)
    decreases off - start
  {
    if off > start {
      TakenFree(s, start, off - 1);
      LastOffset(start, off - 1);
    }
  }

  lemma {:induction false} TakenAllocating(s: Space, start: nat, off: nat)
    requires start <= off
    ensures Taken(s, start, off).allocating == s.allocating + s.free * Span(start, off - start)
    decreases off - start
  {
    if off > start {
      TakenAllocating(s, start, off - 1);
      TakenFree(s, start, off - 1);
      LastOffset(start, off - 1);
    }
  }

  lemma {:induction false} TakenTotal(s: Space, start: nat, off: nat)
    requires start <= off
    ensures Taken(s, start, off).total == s.total + |s.free * Span(start, off - start)|
    decreases off - start
  {
    if off == start {
      assert s.free * Span(start, 0) == {};
    } else {
      TakenTotal(s, start, off - 1);
      TakenFree(s, start, off - 1);
      OneMoreTaken(s.free, start, off - 1);
    }
  }

  lemma LastOffset(start: nat, x: nat)
    requires start <= x
    ensures x !in Span(start, x - start)
    ensures Span(start, x + 1 - start) == Span(start, x - start) + {x}
  {
  }

  lemma OneMoreTaken(free: set<nat>, start: nat, x: nat)
    requires start <= x
    ensures x !in Span(start, x - start)
    ensures |free * Span(start, x + 1 - start)| == |free * Span(start, x - start)| + if x in free then 1 else 0
  {
    LastOffset(start, x);
    var t := free * Span(start, x - start);
    assert free * Span(start, x + 1 - start) == if x in free then t + {x} else t;
  }

  lemma TakenSets(s: Space, start: nat, off: nat)
    requires start <= off
    ensures var t := s.free * Span(start, off - start);
            Taken(s, start, off) == Space(s.free - t, s.allocating + t, s.total + |t|)
  {
    TakenFree(s, start, off);
    TakenAllocating(s, start, off);
    TakenTotal(s, start, off);
    assert s.free - Span(start, off - start) == s.free - s.free * Span(start, off - start);
  }

  /** Once the loop has reached the end of the request, or had nothing to do. */
  lemma TakenAll(s: Space, start: nat, size: nat, off: nat)
    requires start <= off
    requires if off == start then End64(start, size) <= start else off == End64(start, size)
    ensures Taken(s, start, off) == Forced(s, start, size)
  {
    TakenSets(s, start, off);
    assert s.free * {} == {};
    assert Span(start, 0) == {};
  }

  lemma RestIsEmpty(s: Space, start: nat, off: nat, end: nat)
    requires start <= off <= end
    requires Taken(s, start, off).free !! Span(off, end - off)
    ensures Taken(s, start, off) == Taken(s, start, end)
  {
  }

  lemma TakeRun(s: Space, start: nat, off: nat, end: nat, ostart: nat, osize: nat)
    requires start <= off < end
    requires FirstRun(Taken(s, start, off).free, off, end - off, ostart, osize)
    ensures off < ostart + osize <= end
    ensures Moved(Taken(s, start, off), ostart, osize) == Taken(s, start, ostart + osize)
  {
    var a := s.free * Span(start, off - start);
    assert FirstRun(s.free - a, off, end - off, ostart, osize) by { TakenSets(s, start, off); }
    RunIsNext(s.free, start, off, end, ostart, osize);
    SpanSize(ostart, osize);
    assert Taken(s, start, off) == Space(s.free - a, s.allocating + a, s.total + |a|) by { TakenSets(s, start, off); }
    var b := s.free * Span(start, ostart + osize - start);
    assert Taken(s, start, ostart + osize) == Space(s.free - b, s.allocating + b, s.total + |b|) by {
      TakenSets(s, start, ostart + osize);
    }
    MovedMore(s, a, Span(ostart, osize));
  }

  lemma MovedMore(s: Space, a: set<nat>, r: set<nat>)
    ensures s.free - a - r == s.free - (a + r)
    ensures s.allocating + a + r == s.allocating + (a + r)
  {
  }

  lemma RunIsNext(free: set<nat>, start: nat, off: nat, end: nat, ostart: nat, osize: nat)
    requires start <= off < end
    requires FirstRun(free - free * Span(start, off - start), off, end - off, ostart, osize)
    ensures var a := free * Span(start, off - start);
            var b := free * Span(start, ostart + osize - start);
            b == a + Span(ostart, osize) && |b| == |a| + |Span(ostart, osize)|
  {
    var a := free * Span(start, off - start);
    var b := free * Span(start, ostart + osize - start);
    assert a !! Span(ostart, osize);
    assert b == a + Span(ostart, osize) by {
      assert Span(ostart, osize) <= free;
      assert free !! Span(off, ostart - off) by {
        assert Span(off, ostart - off) !! Span(start, off - start);
      }
    }
    DisjointSize(a, Span(ostart, osize));
  }

  lemma TurnReaches(s: Space, start: nat, off: nat, end: nat, after: Space, found: bool, ostart: nat, osize: nat)
    requires start <= off < end
    requires Turn(Taken(s, start, off), after, off, end, found, ostart, osize)
    ensures found ==> off < ostart + osize <= end && after == Taken(s, start, ostart + osize)
    ensures !found ==> after == Taken(s, start, end)
  {
    if found {
      TakeRun(s, start, off, end, ostart, osize);
    } else {
      RestIsEmpty(s, start, off, end);
    }
  }

  // ----- what requests do, alone and in sequence

  /** Space is conserved and the counter moves by exactly what changed hands. */
  lemma ForcedConserves(s: Space, start: nat, size: nat)
    requires s.free !! s.allocating
    ensures var r := Forced(s, start, size);
            && r.free + r.allocating == s.free + s.allocating
            && r.free !! r.allocating
            && r.total - s.total == |r.allocating| - |s.allocating| == |s.free| - |r.free|
  {
  }

  /** Repeating a request changes nothing. */
  lemma ForcedTwice(s: Space, start: nat, size: nat)
    ensures Forced(Forced(s, start, size), start, size) == Forced(s, start, size)
  {
  }

  ghost function RequestedByAll(requests: seq<(nat, nat)>): set<nat> {
    if requests == [] then {}
    else Requested(requests[0].0, requests[0].1) + RequestedByAll(requests[1..])
  }

  /** Taking first u and then v takes their union. */
  lemma TakeTwo(free: set<nat>, u: set<nat>, v: set<nat>)
    ensures free - free * u - v == free - (u + v)
    ensures free * u + (free - free * u) * v == free * (u + v)
    ensures |free * u| + |(free - free * u) * v| == |free * (u + v)|
  {
  }

  /** A list of requests, in any order and with any overlaps, takes the free part of its union. */
  lemma {:induction false} ForcedAllTakesUnion(s: Space, requests: seq<(nat, nat)>)
    requires s.free !! s.allocating
    ensures ForcedAll(s, requests).free == s.free - RequestedByAll(requests)
    ensures ForcedAll(s, requests).allocating == s.allocating + s.free * RequestedByAll(requests)
    ensures ForcedAll(s, requests).total == s.total + |s.free * RequestedByAll(requests)|
    decreases |requests|
  {
    var u := RequestedByAll(requests);
    if requests == [] {
      assert s.free * u == {};
    } else {
      var r := Forced(s, requests[0].0, requests[0].1);
      ForcedAllTakesUnion(r, requests[1..]);
      TakeTwo(s.free, Requested(requests[0].0, requests[0].1), RequestedByAll(requests[1..]));
    }
  }
}
