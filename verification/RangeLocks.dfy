/**
  ztest's reader/writer locks: two hashed tables of locks, each built from a mutex, a
  condition variable and two fields, and the order in which callers take them. Any number
  of activities run the statements below interleaved in any order; a statement between
  mutex_enter and mutex_exit runs only while its activity owns the mutex, and cv_wait may
  also return without a broadcast.

  An activity is a caller of the lock functions; a lock taken by one thread and released
  by the completion callback of its I/O is one activity.
  */
module RangeLocks {
  import opened Ranges

  type Tid = nat

  datatype Mode = Reader | Writer

  /** Slots of the object table and of the range table. */
  datatype LockId = ObjLock(slot: bv64) | RangeLock(slot: bv64)

  /** rll_t: who is inside the mutex, rll_writer and rll_readers. */
  datatype Rll = Rll(mutex: Option<Tid>, writer: Option<Tid>, readers: nat)

  /** The next statement of an activity. */
  datatype Pc =
    | Running                               // outside the lock functions
    | LockEnter(l: LockId, m: Mode)         // mutex_enter, or cv_wait taking the mutex back
    | LockTest(l: LockId, m: Mode)          // test the guard, then take the lock or cv_wait
    | LockWait(l: LockId, m: Mode)          // asleep in cv_wait
    | LockExit(l: LockId, m: Mode)          // mutex_exit
    | UnlockEnter(l: LockId)                // mutex_enter
    | UnlockBody(l: LockId)                 // clear the writer or drop a reader, maybe broadcast
    | UnlockExit(l: LockId)                 // mutex_exit

  /** `held` is what the activity has taken and not yet given back, in order. */
  datatype Activity = Activity(pc: Pc, held: seq<(LockId, Mode)>)

  datatype State = State(acts: map<Tid, Activity>, locks: map<LockId, Rll>)

  datatype Action =
    | StartLock(l: LockId, m: Mode)
    | StartUnlock
    | Advance                               // the statement at the activity's pc
    | Wake                                  // cv_wait returns without a broadcast

  /** The loop guard of ztest_rll_lock, negated: the lock can be taken. */
  predicate Free(r: Rll, m: Mode) {
    r.writer.None? && (m == Writer ==> r.readers == 0)
  }

  /** Callers take an object lock first, and a range lock only under one. */
  predicate MayLock(held: seq<(LockId, Mode)>, l: LockId) {
    if l.ObjLock? then held == [] else |held| == 1
  }

  predicate Enabled(s: State, t: Tid, a: Action) {
    t in s.acts &&
    var act := s.acts[t];
    match a
    case StartLock(l, m) => act.pc.Running? && l in s.locks && MayLock(act.held, l)
    case StartUnlock => act.pc.Running? && act.held != []
    case Wake => act.pc.LockWait?
    case Advance =>
      match act.pc
      case Running => false
      case LockEnter(l, m) => l in s.locks && s.locks[l].mutex.None?
      case LockTest(l, m) => l in s.locks
      case LockWait(l, m) => false
      case LockExit(l, m) => l in s.locks
      case UnlockEnter(l) => l in s.locks && s.locks[l].mutex.None?
      case UnlockBody(l) => l in s.locks && act.held != []
      case UnlockExit(l) => l in s.locks
  }

  function Broadcast(acts: map<Tid, Activity>, l: LockId): map<Tid, Activity> {
    map t | t in acts ::
      if acts[t].pc.LockWait? && acts[t].pc.l == l then acts[t].(pc := LockEnter(l, acts[t].pc.m)) else acts[t]
  }

  /** ztest_rll_unlock between its mutex_enter and its cv_broadcast. */
  function Released(r: Rll): Rll {
    if r.writer.Some? then r.(writer := None)
    else r.(readers := if r.readers > 0 then r.readers - 1 else 0)
  }

  function Step(s: State, t: Tid, a: Action): State
    requires Enabled(s, t, a)
  {
    var act := s.acts[t];
    match a
    case StartLock(l, m) => s.(acts := s.acts[t := act.(pc := LockEnter(l, m))])
    case StartUnlock => s.(acts := s.acts[t := act.(pc := UnlockEnter(act.held[|act.held| - 1].0))])
    case Wake => s.(acts := s.acts[t := act.(pc := LockEnter(act.pc.l, act.pc.m))])
    case Advance =>
      match act.pc
      case LockEnter(l, m) =>
        State(s.acts[t := act.(pc := LockTest(l, m))], s.locks[l := s.locks[l].(mutex := Some(t))])
      case LockTest(l, m) =>
        var r := s.locks[l];
        if !Free(r, m) then
          State(s.acts[t := act.(pc := LockWait(l, m))], s.locks[l := r.(mutex := None)])
        else
          State(s.acts[t := Activity(LockExit(l, m), act.held + [(l, m)])],
                s.locks[l := if m == Reader then r.(readers := r.readers + 1) else r.(writer := Some(t))])
      case LockExit(l, m) =>
        State(s.acts[t := act.(pc := Running)], s.locks[l := s.locks[l].(mutex := None)])
      case UnlockEnter(l) =>
        State(s.acts[t := act.(pc := UnlockBody(l))], s.locks[l := s.locks[l].(mutex := Some(t))])
      case UnlockBody(l) =>
        var r := Released(s.locks[l]);
        var acts := s.acts[t := Activity(UnlockExit(l), act.held[..|act.held| - 1])];
        State(if r.writer.None? && r.readers == 0 then Broadcast(acts, l) else acts, s.locks[l := r])
      case UnlockExit(l) =>
        State(s.acts[t := act.(pc := Running)], s.locks[l := s.locks[l].(mutex := None)])
  }

  // ----- the invariant

  /** The activity is between mutex_enter and mutex_exit of lock l. */
  predicate Inside(pc: Pc, l: LockId) {
    (pc.LockTest? || pc.LockExit? || pc.UnlockBody? || pc.UnlockExit?) && pc.l == l
  }

  ghost function ReadersOf(s: State, l: LockId): set<Tid> {
    set t | t in s.acts && (l, Reader) in s.acts[t].held
  }

  /** Object lock first, range lock second, and the pc agrees with what is held. */
  predicate Disciplined(act: Activity) {
    && |act.held| <= 2
    && (|act.held| > 0 ==> act.held[0].0.ObjLock?)
    && (|act.held| > 1 ==> act.held[1].0.RangeLock?)
    && match act.pc
       case Running => true
       case LockEnter(l, m) => MayLock(act.held, l)
       case LockTest(l, m) => MayLock(act.held, l)
       case LockWait(l, m) => MayLock(act.held, l)
       case LockExit(l, m) => act.held != [] && act.held[|act.held| - 1] == (l, m)
       case UnlockEnter(l) => act.held != [] && act.held[|act.held| - 1].0 == l
       case UnlockBody(l) => act.held != [] && act.held[|act.held| - 1].0 == l
       case UnlockExit(l) => MayLock(act.held, l)
  }

  ghost predicate ActsOk(s: State) {
    forall t :: t in s.acts ==>
      && Disciplined(s.acts[t])
      && (!s.acts[t].pc.Running? ==> s.acts[t].pc.l in s.locks)
      && (forall h :: h in s.acts[t].held ==> h.0 in s.locks)
  }

  ghost predicate MutexOk(s: State) {
    && (forall l, t :: l in s.locks && t in s.acts ==>
          (s.locks[l].mutex == Some(t) <==> Inside(s.acts[t].pc, l)))
    && (forall l :: l in s.locks && s.locks[l].mutex.Some? ==> s.locks[l].mutex.value in s.acts)
  }

  ghost predicate FieldsOk(s: State) {
    && (forall l, t :: l in s.locks && t in s.acts ==>
          (s.locks[l].writer == Some(t) <==> (l, Writer) in s.acts[t].held))
    && (forall l :: l in s.locks && s.locks[l].writer.Some? ==>
          s.locks[l].writer.value in s.acts && s.locks[l].readers == 0)
    && (forall l :: l in s.locks ==> s.locks[l].readers == |ReadersOf(s, l)|)
  }

  /** Whoever sleeps on a lock could not take it now. */
  ghost predicate NoLostWakeup(s: State) {
    forall t :: t in s.acts && s.acts[t].pc.LockWait? && s.acts[t].pc.l in s.locks ==>
      !Free(s.locks[s.acts[t].pc.l], s.acts[t].pc.m)
  }

  ghost predicate Inv(s: State) {
    ActsOk(s) && MutexOk(s) && FieldsOk(s) && NoLostWakeup(s)
  }

  /** Every activity outside, every lock as ztest_rll_init leaves it. */
  predicate Init(s: State) {
    && (forall t :: t in s.acts ==> s.acts[t] == Activity(Running, []))
    && (forall l :: l in s.locks ==> s.locks[l] == Rll(None, None, 0))
  }

  lemma InitHolds(s: State)
    requires Init(s)
    ensures Inv(s)
  {
  }

  // ----- what a change of one activity and one lock keeps

  function Updated(s: State, t: Tid, act: Activity, l: LockId, r: Rll): State {
    State(s.acts[t := act], s.locks[l := r])
  }

  lemma KeepsActs(s: State, t: Tid, act: Activity, l: LockId, r: Rll)
    requires ActsOk(s) && l in s.locks && Disciplined(act)
    requires !act.pc.Running? ==> act.pc.l in s.locks
    requires forall h :: h in act.held ==> h.0 in s.locks
    ensures ActsOk(Updated(s, t, act, l, r))
  {
  }

  lemma KeepsMutex(s: State, t: Tid, act: Activity, l: LockId, r: Rll)
    requires MutexOk(s) && t in s.acts && l in s.locks
    requires forall k :: k != l ==> (Inside(act.pc, k) <==> Inside(s.acts[t].pc, k))
    requires r.mutex == Some(t) <==> Inside(act.pc, l)
    requires r.mutex == s.locks[l].mutex || (r.mutex == Some(t) && s.locks[l].mutex.None?)
             || (r.mutex.None? && s.locks[l].mutex == Some(t))
    ensures MutexOk(Updated(s, t, act, l, r))
  {
  }

  /** Nothing is taken or given back. */
  lemma KeepsFields(s: State, t: Tid, act: Activity, l: LockId, r: Rll)
    requires FieldsOk(s) && t in s.acts && l in s.locks && act.held == s.acts[t].held
    requires r.writer == s.locks[l].writer && r.readers == s.locks[l].readers
    ensures FieldsOk(Updated(s, t, act, l, r))
  {
    forall k
      ensures ReadersOf(Updated(s, t, act, l, r), k) == ReadersOf(s, k)
    {
    }
  }

  /** A lock without a writer gains a reader. */
  lemma TakesReader(s: State, t: Tid, act: Activity, l: LockId, r: Rll)
    requires FieldsOk(s) && t in s.acts && l in s.locks && act.held == s.acts[t].held + [(l, Reader)]
    requires forall h :: h in s.acts[t].held ==> h.0 != l
    requires Free(s.locks[l], Reader) && r.writer.None? && r.readers == s.locks[l].readers + 1
    ensures FieldsOk(Updated(s, t, act, l, r))
  {
    OneMoreReader(s, t, act, l, r);
  }

  lemma OneMoreReader(s: State, t: Tid, act: Activity, l: LockId, r: Rll)
    requires t in s.acts && act.held == s.acts[t].held + [(l, Reader)]
    requires forall h :: h in s.acts[t].held ==> h.0 != l
    ensures var s' := Updated(s, t, act, l, r);
            && (forall k :: k != l ==> ReadersOf(s', k) == ReadersOf(s, k))
            && |ReadersOf(s', l)| == |ReadersOf(s, l)| + 1
  {
    var s' := Updated(s, t, act, l, r);
    forall k | k != l
      ensures ReadersOf(s', k) == ReadersOf(s, k)
    {
    }
    assert t !in ReadersOf(s, l);
    assert ReadersOf(s', l) == ReadersOf(s, l) + {t};
  }

  /** A lock that nobody holds gains a writer. */
  lemma TakesWriter(s: State, t: Tid, act: Activity, l: LockId, r: Rll)
    requires FieldsOk(s) && t in s.acts && l in s.locks && act.held == s.acts[t].held + [(l, Writer)]
    requires Free(s.locks[l], Writer) && r.writer == Some(t) && r.readers == 0
    ensures FieldsOk(Updated(s, t, act, l, r))
  {
    var s' := Updated(s, t, act, l, r);
    forall k
      ensures ReadersOf(s', k) == ReadersOf(s, k)
    {
    }
  }

  /** The fields of a lock show how an activity holds it. */
  lemma FieldsShowHold(s: State, t: Tid, l: LockId, m: Mode)
    requires FieldsOk(s) && t in s.acts && l in s.locks && (l, m) in s.acts[t].held
    ensures m == Writer <==> s.locks[l].writer == Some(t)
    ensures m == Writer ==> s.locks[l].readers == 0
    ensures m == Reader ==> s.locks[l].writer.None? && s.locks[l].readers > 0
  {
    if m == Reader {
      assert t in ReadersOf(s, l);
    }
  }

  /** A lock that the activity holds is given back; the code's two assertions hold. */
  lemma GivesField(s: State, t: Tid, act: Activity, l: LockId, m: Mode)
    requires FieldsOk(s) && t in s.acts && l in s.locks && s.acts[t].held == act.held + [(l, m)]
    requires forall h :: h in act.held ==> h.0 != l
    ensures s.locks[l].writer.Some? ==> s.locks[l].readers == 0
    ensures s.locks[l].writer.None? ==> s.locks[l].readers > 0
    ensures m == Writer <==> s.locks[l].writer.Some?
    ensures FieldsOk(Updated(s, t, act, l, Released(s.locks[l])))
  {
    assert (l, m) in s.acts[t].held;
    FieldsShowHold(s, t, l, m);
    if m == Reader {
      OneReaderLess(s, t, act, l, Released(s.locks[l]));
    } else {
      SameReaders(s, t, act, l, Released(s.locks[l]));
    }
  }

  lemma OneReaderLess(s: State, t: Tid, act: Activity, l: LockId, r: Rll)
    requires t in s.acts && s.acts[t].held == act.held + [(l, Reader)]
    requires forall h :: h in act.held ==> h.0 != l
    ensures var s' := Updated(s, t, act, l, r);
            && (forall k :: k != l ==> ReadersOf(s', k) == ReadersOf(s, k))
            && |ReadersOf(s', l)| == |ReadersOf(s, l)| - 1
  {
    var s' := Updated(s, t, act, l, r);
    forall k | k != l
      ensures ReadersOf(s', k) == ReadersOf(s, k)
    {
    }
    assert t in ReadersOf(s, l);
    assert ReadersOf(s', l) == ReadersOf(s, l) - {t};
  }

  lemma SameReaders(s: State, t: Tid, act: Activity, l: LockId, r: Rll)
    requires t in s.acts && s.acts[t].held == act.held + [(l, Writer)]
    ensures forall k :: ReadersOf(Updated(s, t, act, l, r), k) == ReadersOf(s, k)
  {
    forall k
      ensures ReadersOf(Updated(s, t, act, l, r), k) == ReadersOf(s, k)
    {
    }
  }

  lemma KeepsWakeups(s: State, t: Tid, act: Activity, l: LockId, r: Rll)
    requires NoLostWakeup(s) && t in s.acts && l in s.locks
    requires act.pc.LockWait? ==> act.pc.l == l && !Free(r, act.pc.m)
    requires forall m :: Free(r, m) ==> Free(s.locks[l], m)
    ensures NoLostWakeup(Updated(s, t, act, l, r))
  {
  }

  // ----- every step keeps the invariant

  lemma SameLock(s: State, t: Tid, act: Activity, l: LockId)
    requires l in s.locks
    ensures Updated(s, t, act, l, s.locks[l]) == s.(acts := s.acts[t := act])
  {
  }

  lemma PcMoves(s: State, t: Tid, pc: Pc, s': State)
    requires Inv(s) && t in s.acts && (s.acts[t].pc.Running? || s.acts[t].pc.LockWait?)
    requires (pc.LockEnter? || pc.UnlockEnter?) && pc.l in s.locks && Disciplined(s.acts[t].(pc := pc))
    requires s' == s.(acts := s.acts[t := s.acts[t].(pc := pc)])
    ensures Inv(s')
  {
    var act, l := s.acts[t].(pc := pc), pc.l;
    SameLock(s, t, act, l);
    KeepsActs(s, t, act, l, s.locks[l]);
    KeepsMutex(s, t, act, l, s.locks[l]);
    KeepsFields(s, t, act, l, s.locks[l]);
    KeepsWakeups(s, t, act, l, s.locks[l]);
  }

  lemma StartLockKeeps(s: State, t: Tid, l: LockId, m: Mode)
    requires Inv(s) && Enabled(s, t, StartLock(l, m))
    ensures Inv(Step(s, t, StartLock(l, m)))
  {
    PcMoves(s, t, LockEnter(l, m), Step(s, t, StartLock(l, m)));
  }

  lemma StartUnlockKeeps(s: State, t: Tid)
    requires Inv(s) && Enabled(s, t, StartUnlock)
    ensures Inv(Step(s, t, StartUnlock))
  {
    var held := s.acts[t].held;
    assert held[|held| - 1] in held;
    PcMoves(s, t, UnlockEnter(held[|held| - 1].0), Step(s, t, StartUnlock));
  }

  lemma WakeKeeps(s: State, t: Tid)
    requires Inv(s) && Enabled(s, t, Wake)
    ensures Inv(Step(s, t, Wake))
  {
    PcMoves(s, t, LockEnter(s.acts[t].pc.l, s.acts[t].pc.m), Step(s, t, Wake));
  }

  lemma EntryKeeps(s: State, t: Tid)
    requires Inv(s) && Enabled(s, t, Advance)
    requires s.acts[t].pc.LockEnter? || s.acts[t].pc.UnlockEnter?
    ensures Inv(Step(s, t, Advance))
  {
    var l := s.acts[t].pc.l;
    var s' := Step(s, t, Advance);
    var act, r := s'.acts[t], s'.locks[l];
    KeepsActs(s, t, act, l, r);
    KeepsMutex(s, t, act, l, r);
    KeepsFields(s, t, act, l, r);
    KeepsWakeups(s, t, act, l, r);
  }

  /** Leaving the mutex, to go on or to sleep. */
  lemma ExitKeeps(s: State, t: Tid)
    requires Inv(s) && Enabled(s, t, Advance)
    requires var pc := s.acts[t].pc;
             pc.LockExit? || pc.UnlockExit? || (pc.LockTest? && !Free(s.locks[pc.l], pc.m))
    ensures Inv(Step(s, t, Advance))
  {
    var l := s.acts[t].pc.l;
    var s' := Step(s, t, Advance);
    var act, r := s'.acts[t], s'.locks[l];
    KeepsActs(s, t, act, l, r);
    KeepsMutex(s, t, act, l, r);
    KeepsFields(s, t, act, l, r);
    KeepsWakeups(s, t, act, l, r);
  }

  lemma NotHeldYet(act: Activity, l: LockId)
    requires Disciplined(act) && MayLock(act.held, l)
    ensures forall h :: h in act.held ==> h.0 != l
  {
  }

  /** Taking the lock. */
  lemma TakeKeeps(s: State, t: Tid)
    requires Inv(s) && Enabled(s, t, Advance)
    requires s.acts[t].pc.LockTest? && Free(s.locks[s.acts[t].pc.l], s.acts[t].pc.m)
    ensures Inv(Step(s, t, Advance))
  {
    var l, m := s.acts[t].pc.l, s.acts[t].pc.m;
    var s' := Step(s, t, Advance);
    var act, r := s'.acts[t], s'.locks[l];
    NotHeldYet(s.acts[t], l);
    KeepsActs(s, t, act, l, r);
    KeepsMutex(s, t, act, l, r);
    if m == Reader { TakesReader(s, t, act, l, r); } else { TakesWriter(s, t, act, l, r); }
    KeepsWakeups(s, t, act, l, r);
  }

  /** Waking the sleepers of one lock. */
  lemma BroadcastKeepsActs(s: State, l: LockId)
    requires ActsOk(s)
    ensures ActsOk(s.(acts := Broadcast(s.acts, l)))
  {
  }

  lemma BroadcastKeepsMutex(s: State, l: LockId)
    requires MutexOk(s)
    ensures MutexOk(s.(acts := Broadcast(s.acts, l)))
  {
  }

  lemma BroadcastKeepsFields(s: State, l: LockId)
    requires FieldsOk(s)
    ensures FieldsOk(s.(acts := Broadcast(s.acts, l)))
  {
    forall k
      ensures ReadersOf(s.(acts := Broadcast(s.acts, l)), k) == ReadersOf(s, k)
    {
    }
  }

  /** Whoever still sleeps after the broadcast sleeps on another lock. */
  lemma BroadcastWakes(s: State, t: Tid, act: Activity, l: LockId, r: Rll)
    requires NoLostWakeup(s) && l in s.locks && !act.pc.LockWait?
    ensures var u := Updated(s, t, act, l, r);
            NoLostWakeup(u.(acts := Broadcast(u.acts, l)))
  {
  }

  /** Giving the lock back. */
  lemma GiveKeeps(s: State, t: Tid)
    requires Inv(s) && Enabled(s, t, Advance) && s.acts[t].pc.UnlockBody?
    ensures Inv(Step(s, t, Advance))
  {
    var l := s.acts[t].pc.l;
    var held := s.acts[t].held;
    var r := Released(s.locks[l]);
    var act := Activity(UnlockExit(l), held[..|held| - 1]);
    var u := Updated(s, t, act, l, r);
    GiveUpdates(s, t, act, l, r);
    if r.writer.None? && r.readers == 0 {
      BroadcastKeepsActs(u, l);
      BroadcastKeepsMutex(u, l);
      BroadcastKeepsFields(u, l);
      BroadcastWakes(s, t, act, l, r);
    } else {
      KeepsWakeups(s, t, act, l, r);
    }
  }

  lemma GiveUpdates(s: State, t: Tid, act: Activity, l: LockId, r: Rll)
    requires Inv(s) && t in s.acts && s.acts[t].pc == UnlockBody(l)
    requires act == Activity(UnlockExit(l), s.acts[t].held[..|s.acts[t].held| - 1]) && r == Released(s.locks[l])
    ensures var u := Updated(s, t, act, l, r);
            ActsOk(u) && MutexOk(u) && FieldsOk(u)
  {
    LastHeld(s, t, l);
    GiveActs(s, t, act, l, r);
    GiveMutex(s, t, act, l, r);
    GivesField(s, t, act, l, s.acts[t].held[|s.acts[t].held| - 1].1);
  }

  /** What is about to be unlocked is the last lock taken, and no other hold of the activity is on it. */
  lemma LastHeld(s: State, t: Tid, l: LockId)
    requires ActsOk(s) && t in s.acts && s.acts[t].pc == UnlockBody(l)
    ensures var held := s.acts[t].held;
            && held != [] && l in s.locks && held[|held| - 1] in held && held[|held| - 1].0 == l
            && held == held[..|held| - 1] + [(l, held[|held| - 1].1)]
            && (forall h :: h in held[..|held| - 1] ==> h.0 != l)
            && Disciplined(Activity(UnlockExit(l), held[..|held| - 1]))
  {
    var held := s.acts[t].held;
    NotHeldYet(Activity(UnlockExit(l), held[..|held| - 1]), l);
  }

  lemma GiveActs(s: State, t: Tid, act: Activity, l: LockId, r: Rll)
    requires ActsOk(s) && t in s.acts && l in s.locks && Disciplined(act)
    requires act.pc == UnlockExit(l) && |s.acts[t].held| > 0 && act.held == s.acts[t].held[..|s.acts[t].held| - 1]
    ensures ActsOk(Updated(s, t, act, l, r))
  {
    forall h | h in act.held
      ensures h.0 in s.locks
    {
      assert h in s.acts[t].held;
    }
    KeepsActs(s, t, act, l, r);
  }

  lemma GiveMutex(s: State, t: Tid, act: Activity, l: LockId, r: Rll)
    requires MutexOk(s) && t in s.acts && l in s.locks && s.acts[t].pc == UnlockBody(l) && act.pc == UnlockExit(l)
    requires r == Released(s.locks[l])
    ensures MutexOk(Updated(s, t, act, l, r))
  {
    assert Inside(s.acts[t].pc, l);
    KeepsMutex(s, t, act, l, r);
  }

  lemma StepKeeps(s: State, t: Tid, a: Action)
    requires Inv(s) && Enabled(s, t, a)
    ensures Inv(Step(s, t, a))
  {
    if a.StartLock? {
      StartLockKeeps(s, t, a.l, a.m);
    } else if a.StartUnlock? {
      StartUnlockKeeps(s, t);
    } else if a.Wake? {
      WakeKeeps(s, t);
    } else if s.acts[t].pc.UnlockBody? {
      GiveKeeps(s, t);
    } else if s.acts[t].pc.LockTest? && Free(s.locks[s.acts[t].pc.l], s.acts[t].pc.m) {
      TakeKeeps(s, t);
    } else if s.acts[t].pc.LockEnter? || s.acts[t].pc.UnlockEnter? {
      EntryKeeps(s, t);
    } else {
      ExitKeeps(s, t);
    }
  }

  // ----- whole runs

  ghost predicate StepsTo(s: State, s': State) {
    exists t, a :: Enabled(s, t, a) && s' == Step(s, t, a)
  }

  ghost predicate IsRun(run: seq<State>) {
    run != [] && Init(run[0]) && forall i :: 0 <= i < |run| - 1 ==> StepsTo(run[i], run[i + 1])
  }

  /** A writer of a lock is alone with it. */
  ghost predicate Exclusive(s: State) {
    forall l, t, u, m :: t in s.acts && u in s.acts && t != u && (l, Writer) in s.acts[t].held ==>
      (l, m) !in s.acts[u].held
  }

  lemma WriterIsAlone(s: State, l: LockId, t: Tid, u: Tid, m: Mode)
    requires FieldsOk(s) && l in s.locks && t in s.acts && u in s.acts && t != u && (l, Writer) in s.acts[t].held
    ensures (l, m) !in s.acts[u].held
  {
    assert s.locks[l].writer == Some(t);
    assert ReadersOf(s, l) == {};
    if m == Reader {
      assert u !in ReadersOf(s, l);
    }
  }

  lemma InvExcludes(s: State)
    requires Inv(s)
    ensures Exclusive(s)
  {
    forall l, t, u, m | t in s.acts && u in s.acts && t != u && (l, Writer) in s.acts[t].held
      ensures (l, m) !in s.acts[u].held
    {
      assert l in s.locks;
      WriterIsAlone(s, l, t, u, m);
    }
  }

  /** In every state of every run: exclusion, and nobody asleep on a lock that could be taken. */
  lemma {:induction false} RunIsSafe(run: seq<State>, n: nat)
    requires IsRun(run) && n < |run|
    ensures Inv(run[n]) && Exclusive(run[n]) && NoLostWakeup(run[n])
    decreases n
  {
    if n == 0 {
      InitHolds(run[0]);
    } else {
      RunIsSafe(run, n - 1);
      assert StepsTo(run[n - 1], run[n - 1 + 1]);
      var t, a :| Enabled(run[n - 1], t, a) && run[n] == Step(run[n - 1], t, a);
      StepKeeps(run[n - 1], t, a);
    }
    InvExcludes(run[n]);
  }

  /** The unlocking code never trips its assertions and never releases somebody else's hold. */
  lemma UnlockIsRight(s: State, t: Tid)
    requires Inv(s) && Enabled(s, t, Advance) && s.acts[t].pc.UnlockBody?
    ensures var act := s.acts[t];
            var r := s.locks[act.pc.l];
            var m := act.held[|act.held| - 1].1;
            && (m == Writer <==> r.writer == Some(t))
            && (m == Writer ==> r.readers == 0)
            && (m == Reader ==> r.writer.None? && r.readers > 0)
  {
    UnlockShows(s, t, s.acts[t].pc.l);
  }

  lemma UnlockShows(s: State, t: Tid, l: LockId)
    requires ActsOk(s) && FieldsOk(s) && t in s.acts && s.acts[t].pc == UnlockBody(l)
    ensures var r := s.locks[l];
            var m := s.acts[t].held[|s.acts[t].held| - 1].1;
            && (m == Writer <==> r.writer == Some(t))
            && (m == Writer ==> r.readers == 0)
            && (m == Reader ==> r.writer.None? && r.readers > 0)
  {
    LastHeld(s, t, l);
    FieldsShowHold(s, t, l, s.acts[t].held[|s.acts[t].held| - 1].1);
  }

  // ----- no deadlock

  /** The activity is in a lock function or holds a lock. */
  predicate Busy(s: State, t: Tid) {
    t in s.acts && (!s.acts[t].pc.Running? || s.acts[t].held != [])
  }

  /** Some busy activity can move on by itself: run its statement, or unlock what it holds. */
  ghost predicate CanMove(s: State, t: Tid) {
    Busy(s, t) && (Enabled(s, t, Advance) || Enabled(s, t, StartUnlock))
  }

  /** Unless it sleeps, a busy activity can move, or the one in the mutex before it can. */
  lemma AwakeMoves(s: State, t: Tid) returns (u: Tid)
    requires Inv(s) && Busy(s, t) && !s.acts[t].pc.LockWait?
    ensures CanMove(s, u)
  {
    var pc := s.acts[t].pc;
    if (pc.LockEnter? || pc.UnlockEnter?) && s.locks[pc.l].mutex.Some? {
      u := s.locks[pc.l].mutex.value;
      OwnerIsInside(s, u, pc.l);
      InsideMoves(s, u);
    } else {
      u := t;
      OutsideMoves(s, t);
    }
  }

  lemma OwnerIsInside(s: State, u: Tid, l: LockId)
    requires MutexOk(s) && l in s.locks && s.locks[l].mutex == Some(u)
    ensures u in s.acts && Inside(s.acts[u].pc, l)
  {
  }

  /** Between mutex_enter and mutex_exit nothing holds an activity up. */
  lemma InsideMoves(s: State, u: Tid)
    requires ActsOk(s) && u in s.acts && !s.acts[u].pc.Running? && Inside(s.acts[u].pc, s.acts[u].pc.l)
    ensures CanMove(s, u)
  {
  }

  lemma OutsideMoves(s: State, t: Tid)
    requires ActsOk(s) && Busy(s, t) && !s.acts[t].pc.LockWait?
    requires var pc := s.acts[t].pc;
             pc.LockEnter? || pc.UnlockEnter? ==> pc.l in s.locks && s.locks[pc.l].mutex.None?
    ensures CanMove(s, t)
  {
  }

  /** A lock that somebody sleeps on is held by somebody else. */
  lemma HolderOf(s: State, t: Tid) returns (u: Tid, m: Mode)
    requires Inv(s) && t in s.acts && s.acts[t].pc.LockWait?
    ensures u in s.acts && (s.acts[t].pc.l, m) in s.acts[u].held
  {
    var l := s.acts[t].pc.l;
    if s.locks[l].writer.Some? {
      u, m := s.locks[l].writer.value, Writer;
    } else {
      assert ReadersOf(s, l) != {};
      u :| u in ReadersOf(s, l);
      m := Reader;
    }
  }

  /** Whenever anybody is busy, somebody can move: also when objects share slots. */
  lemma NoDeadlock(s: State, t: Tid) returns (u: Tid)
    requires Inv(s) && Busy(s, t)
    ensures CanMove(s, u)
  {
    if !s.acts[t].pc.LockWait? {
      u := AwakeMoves(s, t);
      return;
    }
    var v, m := HolderOf(s, t);
    if !s.acts[v].pc.LockWait? {
      u := AwakeMoves(s, v);
      return;
    }
    // the holder of an object lock sleeps on a range lock, whose holder cannot sleep
    var w, n := HolderOf(s, v);
    RangeHolderAwake(s.acts[v], s.acts[w], n);
    u := AwakeMoves(s, w);
  }

  lemma RangeHolderAwake(sleeper: Activity, holder: Activity, n: Mode)
    requires Disciplined(sleeper) && sleeper.pc.LockWait? && sleeper.held != []
    requires Disciplined(holder) && (sleeper.pc.l, n) in holder.held
    ensures !holder.pc.LockWait?
  {
  }
}
