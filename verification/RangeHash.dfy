/**
  Which range locks of ztest exclude each other. The table is hashed by object and offset,
  and the size of a range plays no part, so two ranges of one object exclude each other
  exactly when their offsets fall into one slot.
  */
module RangeHash {
  import opened Ranges
  import opened RangeLocks

  // ZTEST_OBJECT_LOCKS and ZTEST_RANGE_LOCKS are 64
  function ObjectSlot(obj: bv64): LockId {
    ObjLock(obj & 63)
  }

  function Hash(obj: bv64, rem: bv8): bv64 {
    (obj ^ (rem as bv64)) & 63
  }

  /** The slot of ztest_range_lock. */
  function RangeSlot(obj: bv64, offset: nat): LockId {
    RangeLock(Hash(obj, (offset % 65) as bv8))
  }

  /** Of the offsets modulo 65, 0 and 64 share a slot and every other one has its own. */
  predicate SameSlot(a: nat, b: nat) {
    a % 65 == b % 65 || (a % 65 == 0 && b % 65 == 64) || (a % 65 == 64 && b % 65 == 0)
  }

  lemma HashIff(obj: bv64, x: bv8, y: bv8)
    requires x <= 64 && y <= 64
    ensures Hash(obj, x) == Hash(obj, y) <==> x == y || (x == 0 && y == 64) || (x == 64 && y == 0)
  {
  }

  lemma ToBits(x: nat)
    requires x <= 64
    ensures x as bv8 <= 64 && (x as bv8) as nat == x
  {
  }

  lemma SameBits(x: nat, y: nat)
    requires x <= 64 && y <= 64
    ensures x as bv8 <= 64
    ensures x as bv8 == y as bv8 <==> x == y
    ensures x as bv8 == 0 <==> x == 0
    ensures x as bv8 == 64 <==> x == 64
  {
    ToBits(x);
    ToBits(y);
    ToBits(0);
    ToBits(64);
  }

  lemma SlotIff(obj: bv64, a: nat, b: nat)
    ensures RangeSlot(obj, a) == RangeSlot(obj, b) <==> SameSlot(a, b)
  {
    HashOfNumbers(obj, a % 65, b % 65);
  }

  lemma HashOfNumbers(obj: bv64, x: nat, y: nat)
    requires x <= 64 && y <= 64
    ensures Hash(obj, x as bv8) == Hash(obj, y as bv8) <==> x == y || (x == 0 && y == 64) || (x == 64 && y == 0)
  {
    SameBits(x, y);
    SameBits(y, x);
    HashIff(obj, x as bv8, y as bv8);
  }

  // ----- runs

  lemma Extend(run: seq<State>, s: State)
    requires IsRun(run) && StepsTo(run[|run| - 1], s)
    ensures IsRun(run + [s])
  {
    var more := run + [s];
    forall i | 0 <= i < |more| - 1
      ensures StepsTo(more[i], more[i + 1])
    {
      assert i < |run| - 1 ==> StepsTo(run[i], run[i + 1]);
    }
  }

  /** The lock can be taken at once. */
  predicate Ready(s: State, t: Tid, l: LockId, m: Mode) {
    && t in s.acts && s.acts[t].pc.Running? && l in s.locks && MayLock(s.acts[t].held, l)
    && s.locks[l].mutex.None? && Free(s.locks[l], m)
  }

  function TakenBy(r: Rll, t: Tid, m: Mode): Rll {
    if m == Reader then r.(readers := r.readers + 1) else r.(writer := Some(t))
  }

  function Taken(s: State, t: Tid, l: LockId, m: Mode): State
    requires Ready(s, t, l, m)
  {
    Updated(s, t, Activity(Running, s.acts[t].held + [(l, m)]), l, TakenBy(s.locks[l], t, m))
  }

  lemma Calls(s: State, t: Tid, l: LockId, m: Mode)
    requires Ready(s, t, l, m)
    ensures StepsTo(s, Updated(s, t, s.acts[t].(pc := LockEnter(l, m)), l, s.locks[l]))
  {
    assert Enabled(s, t, StartLock(l, m));
    SameLock(s, t, s.acts[t].(pc := LockEnter(l, m)), l);
  }

  lemma Enters(s: State, t: Tid, l: LockId, m: Mode)
    requires t in s.acts && l in s.locks && s.acts[t].pc == LockEnter(l, m) && s.locks[l].mutex.None?
    ensures StepsTo(s, Updated(s, t, s.acts[t].(pc := LockTest(l, m)), l, s.locks[l].(mutex := Some(t))))
  {
    assert Enabled(s, t, Advance);
  }

  lemma Takes(s: State, t: Tid, l: LockId, m: Mode)
    requires t in s.acts && l in s.locks && s.acts[t].pc == LockTest(l, m) && Free(s.locks[l], m)
    ensures StepsTo(s, Updated(s, t, Activity(LockExit(l, m), s.acts[t].held + [(l, m)]), l, TakenBy(s.locks[l], t, m)))
  {
    assert Enabled(s, t, Advance);
  }

  lemma Leaves(s: State, t: Tid, l: LockId, m: Mode)
    requires t in s.acts && l in s.locks && s.acts[t].pc == LockExit(l, m)
    ensures StepsTo(s, Updated(s, t, s.acts[t].(pc := Running), l, s.locks[l].(mutex := None)))
  {
    assert Enabled(s, t, Advance);
  }

  lemma UpdatedTwice(s: State, t: Tid, l: LockId, a: Activity, b: Activity, q: Rll, r: Rll)
    ensures Updated(Updated(s, t, a, l, q), t, b, l, r) == Updated(s, t, b, l, r)
  {
  }

  /** Call, enter the mutex, take the lock, leave the mutex. */
  lemma Acquire(run: seq<State>, t: Tid, l: LockId, m: Mode) returns (more: seq<State>)
    requires IsRun(run) && Ready(run[|run| - 1], t, l, m)
    ensures IsRun(more) && more[|more| - 1] == Taken(run[|run| - 1], t, l, m)
  {
    var s := run[|run| - 1];
    var act, r := s.acts[t], s.locks[l];
    var a1, a2 := act.(pc := LockEnter(l, m)), act.(pc := LockTest(l, m));
    var a3, a4 := Activity(LockExit(l, m), act.held + [(l, m)]), Activity(Running, act.held + [(l, m)]);
    var inside := r.(mutex := Some(t));
    var s1, s2 := Updated(s, t, a1, l, r), Updated(s, t, a2, l, inside);
    var s3, s4 := Updated(s, t, a3, l, TakenBy(inside, t, m)), Updated(s, t, a4, l, TakenBy(r, t, m));
    Calls(s, t, l, m);
    Enters(s1, t, l, m);
    UpdatedTwice(s, t, l, a1, a2, r, inside);
    Takes(s2, t, l, m);
    UpdatedTwice(s, t, l, a2, a3, inside, TakenBy(inside, t, m));
    Leaves(s3, t, l, m);
    UpdatedTwice(s, t, l, a3, a4, TakenBy(inside, t, m), TakenBy(r, t, m));
    more := FourMore(run, s1, s2, s3, s4);
  }

  lemma FourMore(run: seq<State>, s1: State, s2: State, s3: State, s4: State) returns (more: seq<State>)
    requires IsRun(run) && StepsTo(run[|run| - 1], s1) && StepsTo(s1, s2) && StepsTo(s2, s3) && StepsTo(s3, s4)
    ensures IsRun(more) && more[|more| - 1] == s4
  {
    Extend(run, s1);
    Extend(run + [s1], s2);
    Extend(run + [s1] + [s2], s3);
    Extend(run + [s1] + [s2] + [s3], s4);
    more := run + [s1] + [s2] + [s3] + [s4];
  }

  /** Two writers of different range locks under one object lock. */
  lemma BothHeld(o: LockId, x: LockId, y: LockId) returns (run: seq<State>)
    requires o.ObjLock? && x.RangeLock? && y.RangeLock? && x != y
    ensures IsRun(run)
    ensures var s := run[|run| - 1];
            0 in s.acts && 1 in s.acts && s.acts[0].held == [(o, Reader), (x, Writer)] &&
            s.acts[1].held == [(o, Reader), (y, Writer)]
  {
    var idle, free := Activity(Running, []), Rll(None, None, 0);
    run := [State(map[0 := idle, 1 := idle], map[o := free, x := free, y := free])];
    run := Acquire(run, 0, o, Reader);
    run := Acquire(run, 0, x, Writer);
    run := Acquire(run, 1, o, Reader);
    run := Acquire(run, 1, y, Writer);
  }

  // ----- exclusion of ranges

  /** In no state of any run is one of the locks held for writing while somebody else holds the other. */
  ghost predicate NeverTogether(x: LockId, y: LockId) {
    forall run: seq<State>, n: nat, t: Tid, u: Tid, m: Mode ::
      IsRun(run) && n < |run| && t != u && HoldsAt(run[n], t, x, Writer) ==> !HoldsAt(run[n], u, y, m)
  }

  ghost predicate HoldsAt(s: State, t: Tid, l: LockId, m: Mode) {
    t in s.acts && (l, m) in s.acts[t].held
  }

  lemma OneLock(x: LockId)
    ensures NeverTogether(x, x)
  {
    forall run: seq<State>, n: nat, t: Tid, u: Tid, m: Mode |
      IsRun(run) && n < |run| && t != u && HoldsAt(run[n], t, x, Writer)
      ensures !HoldsAt(run[n], u, x, m)
    {
      RunIsSafe(run, n);
    }
  }

  lemma TwoLocks(o: LockId, x: LockId, y: LockId)
    requires o.ObjLock? && x.RangeLock? && y.RangeLock? && x != y
    ensures !NeverTogether(x, y)
  {
    var run := BothHeld(o, x, y);
    var s := run[|run| - 1];
    assert s.acts[0].held[1] == (x, Writer) && s.acts[1].held[1] == (y, Writer);
    assert HoldsAt(s, 0, x, Writer) && HoldsAt(s, 1, y, Writer);
  }

  /** Two ranges of one object exclude each other exactly when their offsets share a slot, whatever their sizes. */
  lemma RangesExcludeIff(obj: bv64, a: nat, b: nat)
    ensures NeverTogether(RangeSlot(obj, a), RangeSlot(obj, b)) <==> SameSlot(a, b)
  {
    SlotIff(obj, a, b);
    if SameSlot(a, b) {
      OneLock(RangeSlot(obj, a));
    } else {
      TwoLocks(ObjectSlot(obj), RangeSlot(obj, a), RangeSlot(obj, b));
    }
  }

  /** Two objects exclude each other exactly when their numbers agree in the low six bits. */
  lemma ObjectsExcludeIff(a: bv64, b: bv64)
    ensures NeverTogether(ObjectSlot(a), ObjectSlot(b)) <==> (a ^ b) & 63 == 0
  {
    LowBits(a, b);
    if (a ^ b) & 63 == 0 {
      OneLock(ObjectSlot(a));
    } else {
      TwoObjects(ObjectSlot(a), ObjectSlot(b));
    }
  }

  lemma TwoObjects(x: LockId, y: LockId)
    requires x.ObjLock? && y.ObjLock? && x != y
    ensures !NeverTogether(x, y)
  {
    var run := BothObjects(x, y);
    var s := run[|run| - 1];
    assert s.acts[0].held[0] == (x, Writer) && s.acts[1].held[0] == (y, Writer);
    assert HoldsAt(s, 0, x, Writer) && HoldsAt(s, 1, y, Writer);
  }

  lemma LowBits(a: bv64, b: bv64)
    ensures a & 63 == b & 63 <==> (a ^ b) & 63 == 0
  {
  }

  lemma BothObjects(x: LockId, y: LockId) returns (run: seq<State>)
    requires x.ObjLock? && y.ObjLock? && x != y
    ensures IsRun(run)
    ensures var s := run[|run| - 1];
            0 in s.acts && 1 in s.acts && s.acts[0].held == [(x, Writer)] && s.acts[1].held == [(y, Writer)]
  {
    var idle, free := Activity(Running, []), Rll(None, None, 0);
    run := [State(map[0 := idle, 1 := idle], map[x := free, y := free])];
    run := Acquire(run, 0, x, Writer);
    run := Acquire(run, 1, y, Writer);
  }

  /** Bytes 0 to 1 and bytes 1 to 2 of an object overlap, and both can be locked for writing at one time. */
  lemma OverlapIsNotExcluded(obj: bv64)
    ensures Span(0, 2) * Span(1, 2) == {1}
    ensures !NeverTogether(RangeSlot(obj, 0), RangeSlot(obj, 1))
  {
    assert Span(0, 2) == {0, 1} && Span(1, 2) == {1, 2};
    RangesExcludeIff(obj, 0, 1);
  }
}
