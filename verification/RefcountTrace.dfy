/**
  How often one physical block may be referenced. The block's DDT variant starts with R
  references and its clone entry with C; zdb claims it once, reports no leftover count,
  and never tries to claim it again exactly when it meets max(R, 1) + C references,
  whatever other blocks are met in between. A pointer to the block without the dedup bit is
  one more reference that leaves the DDT alone. Embedded data that reads as the block's
  address can use up clone references; each one used up so makes up for a reference.
  */
module RefcountTrace {
  import opened Ranges
  import opened BlockPointers
  import opened SpaceMapReplay
  import opened LeakCheck
  import opened ClaimList

  /** A physical block, by how the two tables know it. */
  datatype Block = Block(slot: Option<Slot>, key: BlockKey)

  /** bp is a reference to the block. */
  predicate Refers(env: Env, blk: Block, bp: Bp) {
    && !bp.embedded && Filled(env, bp).key == blk.key
    && (if blk.slot.Some? then bp.dedup == Phys(blk.slot.value) else !bp.dedup.Phys?)
  }

  /**
    bp holds data whose first bytes read as the block's first DVA. The clone table is asked
    about it all the same; the dedup bit of such a pointer is zero.
    */
  predicate Mimics(blk: Block, bp: Bp) {
    bp.embedded && bp.dedup.NotDedup? && bp.key == blk.key
  }

  /** bp leads to a block of the DDT without its dedup bit, as those do that the DDT is about to free. */
  predicate Bare(env: Env, blk: Block, bp: Bp) {
    !bp.embedded && blk.slot.Some? && !bp.dedup.Phys? && Filled(env, bp).key == blk.key
  }

  /** bp belongs to some other block in both tables. */
  predicate Elsewhere(env: Env, blk: Block, bp: Bp) {
    Filled(env, bp).key != blk.key && (blk.slot.Some? ==> bp.dedup != Phys(blk.slot.value))
  }

  ghost predicate Separate(env: Env, blk: Block, bps: seq<Bp>) {
    forall i :: 0 <= i < |bps| ==>
      Refers(env, blk, bps[i]) || Mimics(blk, bps[i]) || Bare(env, blk, bps[i]) || Elsewhere(env, blk, bps[i])
  }

  function Monus(a: nat, b: nat): nat { if a > b then a - b else 0 }
  function Min(a: nat, b: nat): nat { if a < b then a else b }
  function Max(a: nat, b: nat): nat { if a > b then a else b }

  /** Clone references that the traversal will be told about. */
  function CloneRefs(env: Env, key: BlockKey): nat {
    if env.brtActive && key in env.brtMaybe then Lookup(env.brt, key) else 0
  }

  /** References to the block. */
  function Times(env: Env, blk: Block, bps: seq<Bp>): nat {
    if bps == [] then 0
    else Times(env, blk, bps[..|bps| - 1]) + (if Refers(env, blk, bps[|bps| - 1]) then 1 else 0)
  }

  /** Of n references, those for which the clone table is asked; the DDT, which starts at r, accounts for the others. */
  function Own(r: nat, n: nat): nat {
    if n == 0 then 0 else 1 + Monus(n, Max(r, 1))
  }

  /** Pointers that mimic the block. */
  function Mimicked(blk: Block, bps: seq<Bp>): nat {
    if bps == [] then 0
    else Mimicked(blk, bps[..|bps| - 1]) + (if Mimics(blk, bps[|bps| - 1]) then 1 else 0)
  }

  /** Pointers to the block without the dedup bit. */
  function Bares(env: Env, blk: Block, bps: seq<Bp>): nat {
    if bps == [] then 0
    else Bares(env, blk, bps[..|bps| - 1]) + (if Bare(env, blk, bps[|bps| - 1]) then 1 else 0)
  }

  /** How often the clone table is asked about the block. */
  function Asks(env: Env, blk: Block, r: nat, bps: seq<Bp>): nat {
    Own(r, Times(env, blk, bps)) + Mimicked(blk, bps) + Bares(env, blk, bps)
  }

  /** How often the block is in a list of blocks sent to claim. */
  function Claims(env: Env, blk: Block, attempts: seq<Bp>): nat {
    Times(env, blk, attempts) + Bares(env, blk, attempts)
  }

  /**
    The clone references that mimicking pointers use up: those of them that come neither
    first of all who ask nor after the references have run out.
    */
  function Stolen(env: Env, blk: Block, r: nat, bps: seq<Bp>): nat {
    if bps == [] then 0
    else
      var front := bps[..|bps| - 1];
      Stolen(env, blk, r, front) +
      (if Mimics(blk, bps[|bps| - 1]) && 1 <= Asks(env, blk, r, front) <= CloneRefs(env, blk.key) then 1 else 0)
  }

  /** What a sequence of pointers is to the block: references, times asked, references stolen, bare pointers. */
  datatype Met = Met(n: nat, a: nat, j: nat, b: nat)

  ghost function MetIn(env: Env, blk: Block, r: nat, bps: seq<Bp>): Met {
    Met(Times(env, blk, bps), Asks(env, blk, r, bps), Stolen(env, blk, r, bps), Bares(env, blk, bps))
  }

  /** The block's DDT variant after n references. */
  ghost predicate DdtAfter(blk: Block, r: nat, s: State, n: nat) {
    if blk.slot.None? then r == 0
    else
      && Lookup(s.refs, blk.slot.value) == Monus(r, n)
      && (blk.slot.value in s.seen <==> n > 0)
      && (n > 0 ==> blk.slot.value.0 in s.looked)
  }

  /** The block's clone entry after it was asked for `a` times. */
  ghost predicate BrtAfter(env: Env, blk: Block, brt: map<BlockKey, nat>, a: nat) {
    var c := CloneRefs(env, blk.key);
    if a == 0 || c == 0 then blk.key !in brt
    else blk.key in brt && brt[blk.key] == c - Min(a - 1, c)
  }

  /** The claims of the block: who asked, less the clone references that were used up honestly. */
  ghost predicate ClaimsAfter(env: Env, blk: Block, r: nat, attempts: seq<Bp>, m: Met) {
    Claims(env, blk, attempts) == Own(r, m.n) + m.b + m.j - Min(Monus(m.a, 1), CloneRefs(env, blk.key))
  }

  ghost predicate After(env: Env, blk: Block, r: nat, s: State, m: Met) {
    && DdtAfter(blk, r, s, m.n) && BrtAfter(env, blk, s.brt, m.a) && ClaimsAfter(env, blk, r, s.attempts, m)
    && Own(r, m.n) + m.b + m.j <= m.a
    && m.j <= Min(Monus(m.a, 1), CloneRefs(env, blk.key))
  }

  lemma ClaimsAppend(env: Env, blk: Block, bps: seq<Bp>, bp: Bp)
    ensures Claims(env, blk, bps + [bp]) ==
            Claims(env, blk, bps) + if Refers(env, blk, bp) || Bare(env, blk, bp) then 1 else 0
  {
    assert (bps + [bp])[..|bps|] == bps;
  }

  lemma FilledTwice(env: Env, blk: Block, bp: Bp)
    ensures Refers(env, blk, Filled(env, bp)) <==> Refers(env, blk, bp)
    ensures Bare(env, blk, Filled(env, bp)) <==> Bare(env, blk, bp)
  {
  }

  // ----- the DDT entry

  lemma DdtKept(blk: Block, r: nat, env: Env, s: State, n: nat, bp: Bp)
    requires DdtAfter(blk, r, s, n) && (blk.slot.Some? ==> bp.dedup != Phys(blk.slot.value))
    ensures DdtAfter(blk, r, AfterDdt(env, s, bp), n)
  {
  }

  lemma DdtStep(blk: Block, r: nat, env: Env, s: State, n: nat, bp: Bp)
    requires DdtAfter(blk, r, s, n)
    requires if blk.slot.Some? then bp.dedup == Phys(blk.slot.value) else !bp.dedup.Phys?
    ensures DdtAfter(blk, r, AfterDdt(env, s, bp), n + 1)
    ensures IsDuplicate(s, bp) <==> 0 < n < r
  {
  }

  // ----- the clone entry

  /** Asking once more: a reference is used up for every question but the first. */
  lemma AskedStep(env: Env, blk: Block, brt: map<BlockKey, nat>, a: nat)
    requires BrtAfter(env, blk, brt, a) && env.brtActive && blk.key in env.brtMaybe
    ensures BrtAfter(env, blk, Asked(env, brt, blk.key), a + 1)
    ensures Lookup(brt, blk.key) > 0 <==> 1 <= a <= CloneRefs(env, blk.key)
  {
  }

  /** bp asks about the block. */
  predicate AsksFor(env: Env, blk: Block, s: State, bp: Bp) {
    Filled(env, bp).key == blk.key && !IsDuplicate(s, bp)
  }

  lemma BrtStep(env: Env, blk: Block, s: State, a: nat, bp: Bp)
    requires BrtAfter(env, blk, s.brt, a)
    ensures BrtAfter(env, blk, AfterBrt(env, s, bp), if AsksFor(env, blk, s, bp) then a + 1 else a)
    ensures AsksFor(env, blk, s, bp) ==> (IsClone(env, s, bp) <==> 1 <= a <= CloneRefs(env, blk.key))
  {
    if AsksFor(env, blk, s, bp) && env.brtActive && blk.key in env.brtMaybe {
      AskedStep(env, blk, s.brt, a);
    }
  }

  // ----- one pointer

  /** Which of the three ways the next reference to the block is taken. */
  lemma NextReference(env: Env, blk: Block, r: nat, s: State, m: Met, bp: Bp)
    requires env.leakTracking && After(env, blk, r, s, m) && Refers(env, blk, bp)
    ensures IsDuplicate(s, bp) <==> 0 < m.n < r
    ensures IsClone(env, s, bp) <==> !(0 < m.n < r) && 1 <= m.a <= CloneRefs(env, blk.key)
    ensures NeedsClaim(env, s, bp) <==> !(0 < m.n < r) && !(1 <= m.a <= CloneRefs(env, blk.key))
  {
    DdtStep(blk, r, env, s, m.n, bp);
    BrtStep(env, blk, s, m.a, bp);
  }

  lemma OwnStep(r: nat, n: nat)
    ensures Own(r, n + 1) == Own(r, n) + if 0 < n < r then 0 else 1
  {
  }

  /** The claims step that goes with a reference. */
  lemma ClaimsStep(env: Env, blk: Block, r: nat, attempts: seq<Bp>, m: Met, bp: Bp, after: seq<Bp>)
    requires ClaimsAfter(env, blk, r, attempts, m) && Refers(env, blk, bp) && (m.a == 0 ==> m.n == 0)
    requires var claims := !(0 < m.n < r) && !(1 <= m.a <= CloneRefs(env, blk.key));
             after == if claims then attempts + [Filled(env, bp)] else attempts
    ensures ClaimsAfter(env, blk, r, after, RefMet(r, m))
  {
    ClaimsAppend(env, blk, attempts, Filled(env, bp));
    FilledTwice(env, blk, bp);
    OwnStep(r, m.n);
  }

  /** One more reference, one more mimicking pointer, one more bare pointer. */
  function RefMet(r: nat, m: Met): Met {
    Met(m.n + 1, if 0 < m.n < r then m.a else m.a + 1, m.j, m.b)
  }

  function MimicMet(c: nat, m: Met): Met {
    Met(m.n, m.a + 1, if 1 <= m.a <= c then m.j + 1 else m.j, m.b)
  }

  function BareMet(m: Met): Met {
    Met(m.n, m.a + 1, m.j, m.b + 1)
  }

  lemma ReferenceSteps(env: Env, blk: Block, r: nat, s: State, m: Met, bp: Bp, t: State)
    requires env.leakTracking && After(env, blk, r, s, m) && Refers(env, blk, bp) && Counted(env, s, bp, t)
    ensures After(env, blk, r, t, RefMet(r, m))
  {
    DdtStep(blk, r, env, s, m.n, bp);
    BrtStep(env, blk, s, m.a, bp);
    NextReference(env, blk, r, s, m, bp);
    ClaimsStep(env, blk, r, s.attempts, m, bp, t.attempts);
    RefBounds(r, CloneRefs(env, blk.key), m);
    var next := RefMet(r, m);
    assert DdtAfter(blk, r, t, next.n);
    assert BrtAfter(env, blk, t.brt, next.a);
  }

  lemma RefBounds(r: nat, c: nat, m: Met)
    requires Own(r, m.n) + m.b + m.j <= m.a && m.j <= Min(Monus(m.a, 1), c)
    ensures var k := RefMet(r, m); Own(r, k.n) + k.b + k.j <= k.a && k.j <= Min(Monus(k.a, 1), c)
  {
    OwnStep(r, m.n);
  }

  lemma MimicSteps(env: Env, blk: Block, r: nat, s: State, m: Met, bp: Bp, t: State)
    requires After(env, blk, r, s, m) && Mimics(blk, bp) && Counted(env, s, bp, t)
    ensures After(env, blk, r, t, MimicMet(CloneRefs(env, blk.key), m))
  {
    DdtKept(blk, r, env, s, m.n, bp);
    BrtStep(env, blk, s, m.a, bp);
  }

  lemma BareClaims(env: Env, blk: Block, r: nat, attempts: seq<Bp>, m: Met, bp: Bp, after: seq<Bp>)
    requires ClaimsAfter(env, blk, r, attempts, m) && Bare(env, blk, bp)
    requires after == if 1 <= m.a <= CloneRefs(env, blk.key) then attempts else attempts + [Filled(env, bp)]
    ensures ClaimsAfter(env, blk, r, after, BareMet(m))
  {
    ClaimsAppend(env, blk, attempts, Filled(env, bp));
    FilledTwice(env, blk, bp);
  }

  lemma BareSteps(env: Env, blk: Block, r: nat, s: State, m: Met, bp: Bp, t: State)
    requires env.leakTracking && After(env, blk, r, s, m) && Bare(env, blk, bp) && Counted(env, s, bp, t)
    ensures After(env, blk, r, t, BareMet(m))
  {
    DdtKept(blk, r, env, s, m.n, bp);
    BrtStep(env, blk, s, m.a, bp);
    BareClaims(env, blk, r, s.attempts, m, bp, t.attempts);
  }

  lemma ElsewhereKeeps(env: Env, blk: Block, r: nat, s: State, m: Met, bp: Bp, t: State)
    requires After(env, blk, r, s, m) && Elsewhere(env, blk, bp) && Counted(env, s, bp, t)
    ensures After(env, blk, r, t, m)
  {
    DdtKept(blk, r, env, s, m.n, bp);
    BrtStep(env, blk, s, m.a, bp);
    ClaimsAppend(env, blk, s.attempts, Filled(env, bp));
    FilledTwice(env, blk, bp);
  }

  // ----- whole traversals

  lemma MetStep(env: Env, blk: Block, r: nat, bps: seq<Bp>)
    requires bps != []
    ensures var front, bp := bps[..|bps| - 1], bps[|bps| - 1];
            var m := MetIn(env, blk, r, front);
            MetIn(env, blk, r, bps) ==
              if Refers(env, blk, bp) then RefMet(r, m)
              else if Mimics(blk, bp) then MimicMet(CloneRefs(env, blk.key), m)
              else if Bare(env, blk, bp) then BareMet(m) else m
  {
    OwnStep(r, Times(env, blk, bps[..|bps| - 1]));
  }

  /** For every interleaving, the block's counters depend only on what the pointers are to the block. */
  lemma {:induction false} CountsAfter(env: Env, blk: Block, r: nat, s: State, bps: seq<Bp>)
    requires env.leakTracking && Separate(env, blk, bps) && After(env, blk, r, s, Met(0, 0, 0, 0))
    ensures After(env, blk, r, CountAll(env, s, bps), MetIn(env, blk, r, bps))
  {
    if bps != [] {
      var front, bp := bps[..|bps| - 1], bps[|bps| - 1];
      var t, m := CountAll(env, s, front), MetIn(env, blk, r, front);
      CountsAfter(env, blk, r, s, front);
      MetStep(env, blk, r, bps);
      CountFields(env, t, bp);
      if Refers(env, blk, bp) {
        ReferenceSteps(env, blk, r, t, m, bp, Count(env, t, bp));
      } else if Mimics(blk, bp) {
        MimicSteps(env, blk, r, t, m, bp, Count(env, t, bp));
      } else if Bare(env, blk, bp) {
        BareSteps(env, blk, r, t, m, bp, Count(env, t, bp));
      } else {
        ElsewhereKeeps(env, blk, r, t, m, bp, Count(env, t, bp));
      }
    }
  }

  // ----- what is left in the tables, for any pointers

  /** The pointer makes zdb look up DDT entry e. */
  predicate LooksUp(bp: Bp, e: nat) {
    bp.dedup == NoPhys(e) || (bp.dedup.Phys? && bp.dedup.slot.0 == e)
  }

  ghost predicate Looked(bps: seq<Bp>, e: nat) {
    exists i :: 0 <= i < |bps| && LooksUp(bps[i], e)
  }

  lemma {:induction false} LookedAfter(env: Env, s: State, e: nat, bps: seq<Bp>)
    ensures e in CountAll(env, s, bps).looked <==> e in s.looked || Looked(bps, e)
  {
    if bps != [] {
      var front, bp := bps[..|bps| - 1], bps[|bps| - 1];
      LookedAfter(env, s, e, front);
      LookedOnce(env, CountAll(env, s, front), e, bp);
      LookedLast(bps, e);
    }
  }

  lemma LookedOnce(env: Env, s: State, e: nat, bp: Bp)
    ensures e in Count(env, s, bp).looked <==> e in s.looked || LooksUp(bp, e)
  {
    CountFields(env, s, bp);
  }

  lemma LookedLast(bps: seq<Bp>, e: nat)
    requires bps != []
    ensures Looked(bps, e) <==> Looked(bps[..|bps| - 1], e) || LooksUp(bps[|bps| - 1], e)
  {
    var front := bps[..|bps| - 1];
    if Looked(front, e) {
      var i :| 0 <= i < |front| && LooksUp(front[i], e);
      assert LooksUp(bps[i], e);
    }
    if Looked(bps, e) {
      var i :| 0 <= i < |bps| && LooksUp(bps[i], e);
      assert i < |front| ==> LooksUp(front[i], e);
    }
  }

  /** Pointers that name a DDT variant. */
  function SlotTimes(slot: Slot, bps: seq<Bp>): nat {
    if bps == [] then 0
    else SlotTimes(slot, bps[..|bps| - 1]) + (if bps[|bps| - 1].dedup == Phys(slot) then 1 else 0)
  }

  lemma {:induction false} SlotAfter(env: Env, ddt: map<Slot, nat>, trees: Trees, slot: Slot, bps: seq<Bp>)
    ensures DdtAfter(Block(Some(slot), (0, 0)), Lookup(ddt, slot), CountAll(env, Initial(ddt, trees), bps), SlotTimes(slot, bps))
    ensures slot in CountAll(env, Initial(ddt, trees), bps).refs <==> slot in ddt
  {
    if bps != [] {
      var front, bp := bps[..|bps| - 1], bps[|bps| - 1];
      SlotAfter(env, ddt, trees, slot, front);
      SlotNext(env, Lookup(ddt, slot), CountAll(env, Initial(ddt, trees), front), slot, SlotTimes(slot, front), bp);
    }
  }

  lemma SlotNext(env: Env, r: nat, s: State, slot: Slot, n: nat, bp: Bp)
    requires DdtAfter(Block(Some(slot), (0, 0)), r, s, n)
    ensures DdtAfter(Block(Some(slot), (0, 0)), r, Count(env, s, bp), if bp.dedup == Phys(slot) then n + 1 else n)
    ensures slot in Count(env, s, bp).refs <==> slot in s.refs
  {
    var blk := Block(Some(slot), (0, 0));
    CountFields(env, s, bp);
    if bp.dedup == Phys(slot) { DdtStep(blk, r, env, s, n, bp); } else { DdtKept(blk, r, env, s, n, bp); }
  }

  /** After these pointers the DDT still accounts for bp. */
  predicate Accounted(ddt: map<Slot, nat>, bps: seq<Bp>, bp: Bp) {
    bp.dedup.Phys? && 0 < SlotTimes(bp.dedup.slot, bps) < Lookup(ddt, bp.dedup.slot)
  }

  /** Pointers for which the clone table is asked about a key. */
  function KeyAsks(env: Env, ddt: map<Slot, nat>, key: BlockKey, bps: seq<Bp>): nat {
    if bps == [] then 0
    else
      var front, bp := bps[..|bps| - 1], bps[|bps| - 1];
      KeyAsks(env, ddt, key, front) + (if Filled(env, bp).key == key && !Accounted(ddt, front, bp) then 1 else 0)
  }

  lemma {:induction false} KeyAfter(env: Env, ddt: map<Slot, nat>, trees: Trees, key: BlockKey, bps: seq<Bp>)
    ensures BrtAfter(env, Block(None, key), CountAll(env, Initial(ddt, trees), bps).brt, KeyAsks(env, ddt, key, bps))
  {
    if bps != [] {
      var front, bp := bps[..|bps| - 1], bps[|bps| - 1];
      var s := CountAll(env, Initial(ddt, trees), front);
      KeyAfter(env, ddt, trees, key, front);
      if bp.dedup.Phys? { SlotAfter(env, ddt, trees, bp.dedup.slot, front); }
      assert IsDuplicate(s, bp) <==> Accounted(ddt, front, bp);
      KeyNext(env, s, key, KeyAsks(env, ddt, key, front), bp);
    }
  }

  lemma KeyNext(env: Env, s: State, key: BlockKey, a: nat, bp: Bp)
    requires BrtAfter(env, Block(None, key), s.brt, a)
    ensures BrtAfter(env, Block(None, key), Count(env, s, bp).brt,
                     if Filled(env, bp).key == key && !IsDuplicate(s, bp) then a + 1 else a)
  {
    CountFields(env, s, bp);
    BrtStep(env, Block(None, key), s, a, bp);
  }

  /** Reference counts are left over (the first two walks of zdb_leak_fini). */
  predicate RefsLeft(env: Env, s: State) {
    || (env.brtActive && exists k :: k in s.brt && s.brt[k] > 0)
    || (exists slot :: slot in s.refs && slot.0 in s.looked && s.refs[slot] > 0)
  }

  /** A variant of a looked-up entry has more references than pointers, or a key more clones than were asked for. */
  ghost predicate TooFewPointers(env: Env, ddt: map<Slot, nat>, bps: seq<Bp>) {
    || (exists k: BlockKey :: 1 <= KeyAsks(env, ddt, k, bps) <= CloneRefs(env, k))
    || (exists slot :: slot in ddt && Looked(bps, slot.0) && SlotTimes(slot, bps) < ddt[slot])
  }

  /** For any pointers at all: counts are left over exactly when there were too few pointers. */
  lemma RefsLeftIff(env: Env, ddt: map<Slot, nat>, trees: Trees, bps: seq<Bp>)
    ensures RefsLeft(env, CountAll(env, Initial(ddt, trees), bps)) <==> TooFewPointers(env, ddt, bps)
  {
    var s := CountAll(env, Initial(ddt, trees), bps);
    forall k: BlockKey
      ensures k in s.brt && s.brt[k] > 0 <==> 1 <= KeyAsks(env, ddt, k, bps) <= CloneRefs(env, k)
    {
      KeyAfter(env, ddt, trees, k, bps);
    }
    forall slot: Slot
      ensures slot in s.refs <==> slot in ddt
      ensures slot in ddt ==> (slot.0 in s.looked <==> Looked(bps, slot.0)) &&
                              (s.refs[slot] > 0 <==> SlotTimes(slot, bps) < ddt[slot])
    {
      SlotAfter(env, ddt, trees, slot, bps);
      LookedAfter(env, Initial(ddt, trees), slot.0, bps);
    }
  }

  // ----- the two totals that are subtracted

  /** The allocated size that counts for a pointer. */
  function SizeOf(env: Env, bp: Bp): nat {
    if bp.embedded then 0 else SumAsize(if IsFlat(env, bp) then env.flat[bp.dedup.slot] else bp.dvas)
  }

  /** Sizes of the pointers that the DDT accounts for. */
  function DedupTotal(env: Env, ddt: map<Slot, nat>, bps: seq<Bp>): nat {
    if bps == [] then 0
    else
      var front, bp := bps[..|bps| - 1], bps[|bps| - 1];
      DedupTotal(env, ddt, front) + (if Accounted(ddt, front, bp) then SizeOf(env, bp) else 0)
  }

  /** Sizes of the others that the clone table accounts for. */
  function CloneTotal(env: Env, ddt: map<Slot, nat>, bps: seq<Bp>): nat {
    if bps == [] then 0
    else
      var front, bp := bps[..|bps| - 1], bps[|bps| - 1];
      var key := Filled(env, bp).key;
      CloneTotal(env, ddt, front) +
      (if !Accounted(ddt, front, bp) && 1 <= KeyAsks(env, ddt, key, front) <= CloneRefs(env, key)
       then SizeOf(env, bp) else 0)
  }

  lemma {:induction false} TotalsAre(env: Env, ddt: map<Slot, nat>, trees: Trees, bps: seq<Bp>)
    ensures CountAll(env, Initial(ddt, trees), bps).dedupAsize == DedupTotal(env, ddt, bps)
    ensures CountAll(env, Initial(ddt, trees), bps).cloneAsize == CloneTotal(env, ddt, bps)
  {
    if bps != [] {
      var front, bp := bps[..|bps| - 1], bps[|bps| - 1];
      var s := CountAll(env, Initial(ddt, trees), front);
      TotalsAre(env, ddt, trees, front);
      if bp.dedup.Phys? { SlotAfter(env, ddt, trees, bp.dedup.slot, front); }
      assert IsDuplicate(s, bp) <==> Accounted(ddt, front, bp);
      KeyAfter(env, ddt, trees, Filled(env, bp).key, front);
      TotalsStep(env, s, bp, KeyAsks(env, ddt, Filled(env, bp).key, front));
    }
  }

  lemma TotalsStep(env: Env, s: State, bp: Bp, a: nat)
    requires BrtAfter(env, Block(None, Filled(env, bp).key), s.brt, a)
    ensures var t, c := Count(env, s, bp), CloneRefs(env, Filled(env, bp).key);
            && t.dedupAsize == s.dedupAsize + (if IsDuplicate(s, bp) then SizeOf(env, bp) else 0)
            && t.cloneAsize == s.cloneAsize + (if !IsDuplicate(s, bp) && 1 <= a <= c then SizeOf(env, bp) else 0)
  {
    BrtStep(env, Block(None, Filled(env, bp).key), s, a, bp);
    SizeIs(env, bp);
  }

  lemma SizeIs(env: Env, bp: Bp)
    ensures Asize(Filled(env, bp)) == SizeOf(env, bp)
  {
  }

  // ----- what is due

  /** The references that the DDT has for the block. */
  function DdtRefs(ddt: map<Slot, nat>, blk: Block): nat {
    if blk.slot.Some? then Lookup(ddt, blk.slot.value) else 0
  }

  /** How often the block must be met. */
  function Due(env: Env, ddt: map<Slot, nat>, blk: Block): nat {
    Max(DdtRefs(ddt, blk), 1) + CloneRefs(env, blk.key)
  }

  /** zdb_leak_fini reports the block in its DDT or BRT pass. */
  ghost predicate Reported(env: Env, blk: Block, s: State) {
    || (blk.slot.Some? && blk.slot.value.0 in s.looked && Lookup(s.refs, blk.slot.value) > 0)
    || (env.brtActive && Lookup(s.brt, blk.key) > 0)
  }

  /** The block is claimed exactly once and nothing is reported about it. */
  ghost predicate Exact(env: Env, blk: Block, s: State) {
    Claims(env, blk, s.attempts) == 1 && !Reported(env, blk, s)
  }

  lemma ExactAfter(env: Env, blk: Block, r: nat, s: State, m: Met)
    requires After(env, blk, r, s, m)
    ensures Exact(env, blk, s) <==>
            if m.n > 0 then m.n >= r && m.n + m.b + m.j == Max(r, 1) + CloneRefs(env, blk.key)
            else m.b + m.j == 1 + CloneRefs(env, blk.key) && (r > 0 ==> blk.slot.value.0 !in s.looked)
  {
  }

  /**
    The pointers come to what is due: with references, they are at least R, and max(R, 1) + C
    together with bare pointers and stolen clone references; without any, the DDT must not
    have been asked for an entry that it has references for.
    */
  ghost predicate JustRight(env: Env, ddt: map<Slot, nat>, blk: Block, bps: seq<Bp>) {
    var r, n := DdtRefs(ddt, blk), Times(env, blk, bps);
    var others := Bares(env, blk, bps) + Stolen(env, blk, r, bps);
    if n > 0 then n >= r && n + others == Due(env, ddt, blk)
    else others == 1 + CloneRefs(env, blk.key) && (r > 0 ==> !Looked(bps, blk.slot.value.0))
  }

  /** Claimed once and nothing left over: exactly when the pointers come to what is due. */
  lemma ExactReferences(env: Env, blk: Block, ddt: map<Slot, nat>, trees: Trees, bps: seq<Bp>)
    requires env.leakTracking && Separate(env, blk, bps)
    ensures Exact(env, blk, CountAll(env, Initial(ddt, trees), bps)) <==> JustRight(env, ddt, blk, bps)
  {
    var r := DdtRefs(ddt, blk);
    CountsAfter(env, blk, r, Initial(ddt, trees), bps);
    ExactAfter(env, blk, r, CountAll(env, Initial(ddt, trees), bps), MetIn(env, blk, r, bps));
    if blk.slot.Some? {
      LookedAfter(env, Initial(ddt, trees), blk.slot.value.0, bps);
    }
  }

  /** Nobody steals from a block that has no clone references or that nothing mimics. */
  lemma {:induction false} NothingStolen(env: Env, blk: Block, r: nat, bps: seq<Bp>)
    requires CloneRefs(env, blk.key) == 0 || Mimicked(blk, bps) == 0
    ensures Stolen(env, blk, r, bps) == 0
  {
    if bps != [] { NothingStolen(env, blk, r, bps[..|bps| - 1]); }
  }

  /** "Met max(R, 1) + C times" decides it exactly when nothing else counts, or when it is neither true nor just right. */
  lemma PlainCountIff(env: Env, blk: Block, ddt: map<Slot, nat>, trees: Trees, bps: seq<Bp>)
    requires env.leakTracking && Separate(env, blk, bps)
    ensures var others := Bares(env, blk, bps) + Stolen(env, blk, DdtRefs(ddt, blk), bps);
            var n := Times(env, blk, bps);
            (Exact(env, blk, CountAll(env, Initial(ddt, trees), bps)) <==> n == Due(env, ddt, blk)) <==>
            others == 0 || (n != Due(env, ddt, blk) && !JustRight(env, ddt, blk, bps))
    ensures Bares(env, blk, bps) == 0 && (CloneRefs(env, blk.key) == 0 || Mimicked(blk, bps) == 0) ==>
              (Exact(env, blk, CountAll(env, Initial(ddt, trees), bps)) <==> Times(env, blk, bps) == Due(env, ddt, blk))
  {
    ExactReferences(env, blk, ddt, trees, bps);
    if CloneRefs(env, blk.key) == 0 || Mimicked(blk, bps) == 0 {
      NothingStolen(env, blk, DdtRefs(ddt, blk), bps);
    }
  }

  /**
    Too few, and it is reported or never claimed; too many, and each one more is one more
    claim. While the DDT still expects references, every bare pointer that no clone
    reference accounts for is a claim too many.
    */
  lemma TooFewOrTooMany(env: Env, blk: Block, ddt: map<Slot, nat>, trees: Trees, bps: seq<Bp>)
    requires env.leakTracking && Separate(env, blk, bps)
    ensures var s := CountAll(env, Initial(ddt, trees), bps);
            var r, n, b := DdtRefs(ddt, blk), Times(env, blk, bps), Bares(env, blk, bps);
            var met := n + b + Stolen(env, blk, r, bps);
            var claims := Claims(env, blk, s.attempts);
            && (0 < n && met < Due(env, ddt, blk) ==> Reported(env, blk, s) || claims == 0)
            && (0 < n && met < Due(env, ddt, blk) && Mimicked(blk, bps) == 0 && (b == 0 || n >= r) ==>
                  Reported(env, blk, s) && claims == 1)
            && (Due(env, ddt, blk) < met && (b == 0 || n >= Max(r, 1)) ==>
                  claims == 1 + (met - Due(env, ddt, blk)) && !Reported(env, blk, s))
            && (0 < n < r && Mimicked(blk, bps) == 0 ==>
                  Reported(env, blk, s) && claims == 1 + Monus(b, CloneRefs(env, blk.key)))
  {
    var r := DdtRefs(ddt, blk);
    CountsAfter(env, blk, r, Initial(ddt, trees), bps);
    FewOrMany(env, blk, r, CountAll(env, Initial(ddt, trees), bps), MetIn(env, blk, r, bps));
    if Mimicked(blk, bps) == 0 {
      NothingStolen(env, blk, r, bps);
    }
  }

  lemma FewOrMany(env: Env, blk: Block, r: nat, s: State, m: Met)
    requires After(env, blk, r, s, m)
    ensures var due := Max(r, 1) + CloneRefs(env, blk.key);
            var met := m.n + m.b + m.j;
            var claims := Claims(env, blk, s.attempts);
            var honest := m.a == Own(r, m.n) + m.b && m.j == 0;
            && (0 < m.n && met < due ==> Reported(env, blk, s) || claims == 0)
            && (0 < m.n && met < due && honest && (m.b == 0 || m.n >= r) ==> Reported(env, blk, s) && claims == 1)
            && (due < met && (m.b == 0 || m.n >= Max(r, 1)) ==> claims == 1 + (met - due) && !Reported(env, blk, s))
            && (0 < m.n < r && honest ==>
                  Reported(env, blk, s) && claims == 1 + Monus(m.b, CloneRefs(env, blk.key)))
  {
  }

  /** A reference to a block of the DDT and a bare pointer to it are both sent to claim. */
  lemma BareIsClaimedToo(env: Env, blk: Block, bp: Bp, bare: Bp, ddt: map<Slot, nat>, trees: Trees)
    requires env.leakTracking && CloneRefs(env, blk.key) == 0 && Refers(env, blk, bp) && Bare(env, blk, bare)
    ensures Claims(env, blk, CountAll(env, Initial(ddt, trees), [bare, bp]).attempts) == 2
  {
    var one, two := [bare], [bare, bp];
    var r := DdtRefs(ddt, blk);
    assert one[..0] == [] && two[..1] == one;
    assert MetIn(env, blk, r, []) == Met(0, 0, 0, 0);
    MetStep(env, blk, r, one);
    MetStep(env, blk, r, two);
    CountsAfter(env, blk, r, Initial(ddt, trees), two);
  }

  /**
    A block with one clone: one of its two references is missing, embedded data stands in
    for it, and zdb is content.
    */
  lemma EmbeddedStandsIn(env: Env, blk: Block, bp: Bp, data: Bp, trees: Trees)
    requires env.leakTracking && blk.slot.None? && CloneRefs(env, blk.key) == 1
    requires Refers(env, blk, bp) && Mimics(blk, data)
    ensures Due(env, map[], blk) == 2 && Times(env, blk, [bp, data]) == 1
    ensures Exact(env, blk, CountAll(env, Initial(map[], trees), [bp, data]))
  {
    var one, two := [bp], [bp, data];
    assert one[..0] == [] && two[..1] == one;
    assert MetIn(env, blk, 0, []) == Met(0, 0, 0, 0);
    MetStep(env, blk, 0, one);
    MetStep(env, blk, 0, two);
    ExactReferences(env, blk, map[], trees, two);
  }

  /** Met first, the embedded data passes for the first reference, and the real one is not claimed. */
  lemma EmbeddedComesFirst(env: Env, blk: Block, bp: Bp, data: Bp, trees: Trees)
    requires env.leakTracking && blk.slot.None? && CloneRefs(env, blk.key) >= 1
    requires Refers(env, blk, bp) && Mimics(blk, data)
    ensures !NeedsClaim(env, CountAll(env, Initial(map[], trees), [data]), bp)
  {
    var one := [data];
    CountsAfter(env, blk, 0, Initial(map[], trees), one);
    assert one[..0] == [];
    assert MetIn(env, blk, 0, []) == Met(0, 0, 0, 0);
    MetStep(env, blk, 0, one);
    NextReference(env, blk, 0, CountAll(env, Initial(map[], trees), one), MetIn(env, blk, 0, one), bp);
  }

  /** Such a block and such data. */
  lemma MimickedBlock()
    ensures var env := Env([2], map[], true, {(0, 1)}, map[(0, 1) := 1], true);
            var blk := Block(None, (0, 1));
            && CloneRefs(env, blk.key) == 1
            && Refers(env, blk, Bp((0, 1), [Dva(0, 1, 1)], false, NotDedup))
            && Mimics(blk, Bp((0, 1), [], true, NotDedup))
  {
  }

  /** A block of the DDT, a reference to it, and a pointer without the dedup bit. */
  lemma BareBlock()
    ensures var env := Env([2], map[], false, {}, map[], true);
            var blk := Block(Some((0, 0)), (0, 1));
            && CloneRefs(env, blk.key) == 0
            && Refers(env, blk, Bp((0, 1), [Dva(0, 1, 1)], false, Phys((0, 0))))
            && Bare(env, blk, Bp((0, 1), [Dva(0, 1, 1)], false, NotDedup))
  {
  }

  // ----- a consistent pool raises no claim error

  function BlockOf(env: Env, bp: Bp): Block {
    Block(if bp.dedup.Phys? then Some(bp.dedup.slot) else None, Filled(env, bp).key)
  }

  /** Two references are to one block, or to blocks that share nothing; embedded data mimics no cloned block. */
  ghost predicate Compatible(env: Env, a: Bp, b: Bp) {
    !a.embedded ==>
      || (Refers(env, BlockOf(env, a), b) && Filled(env, a).dvas == Filled(env, b).dvas)
      || (Elsewhere(env, BlockOf(env, a), b) && (!b.embedded ==> Apart(env, Filled(env, a).dvas, Filled(env, b).dvas)))
      || (Mimics(BlockOf(env, a), b) && CloneRefs(env, BlockOf(env, a).key) == 0)
  }

  ghost predicate Consistent(env: Env, ddt: map<Slot, nat>, trees: Trees, bps: seq<Bp>) {
    && (forall i, j :: 0 <= i < |bps| && 0 <= j < |bps| ==> Compatible(env, bps[i], bps[j]))
    && (forall i :: 0 <= i < |bps| && !bps[i].embedded ==>
          && AllClaimable(env, trees, Filled(env, bps[i]).dvas)
          && CopiesApart(env, Filled(env, bps[i]).dvas)
          && Times(env, BlockOf(env, bps[i]), bps) <= Due(env, ddt, BlockOf(env, bps[i])))
  }

  lemma {:induction false} ApartStaysClaimable(env: Env, trees: Trees, dvas: seq<Dva>, taken: seq<Dva>)
    requires AllClaimable(env, trees, dvas) && Apart(env, dvas, taken)
    ensures AllClaimable(env, Pass(env, trees, taken).trees, dvas)
    decreases |taken|
  {
    if taken != [] && Claimable(env, trees, taken[0]) {
      var after := WithoutDva(env, trees, taken[0]);
      forall i | 0 <= i < |dvas|
        ensures Claimable(env, after, dvas[i])
      {
        assert Claimable(env, trees, dvas[i]);
        ClaimableAfter(env, trees, taken[0], dvas[i]);
      }
      assert Apart(env, dvas, taken[1..]);
      ApartStaysClaimable(env, after, dvas, taken[1..]);
    }
  }

  lemma {:induction false} TimesGrows(env: Env, blk: Block, bps: seq<Bp>, n: nat)
    requires n <= |bps|
    ensures Times(env, blk, bps[..n]) <= Times(env, blk, bps)
    decreases |bps|
  {
    if n == |bps| {
      assert bps[..n] == bps;
    } else {
      TimesGrows(env, blk, bps[..|bps| - 1], n);
      assert bps[..|bps| - 1][..n] == bps[..n];
    }
  }

  /** Block i has not been met among the first n pointers. */
  ghost predicate New(env: Env, bps: seq<Bp>, n: nat, i: nat)
    requires n <= |bps| && i < |bps|
  {
    !bps[i].embedded && Times(env, BlockOf(env, bps[i]), bps[..n]) == 0
  }

  /** Blocks not met yet can still be claimed, and no claim has failed. */
  ghost predicate Intact(env: Env, s: State, bps: seq<Bp>, n: nat)
    requires n <= |bps|
  {
    && s.failedAsize == 0
    && forall i :: 0 <= i < |bps| && New(env, bps, n, i) ==> AllClaimable(env, s.trees, Filled(env, bps[i]).dvas)
  }

  /** What counting a block does to the trees and to the failures. */
  lemma CountTrees(env: Env, s: State, bp: Bp)
    ensures var t := Count(env, s, bp);
            var c := Claim(env, s.trees, Filled(env, bp).dvas);
            && t.trees == (if NeedsClaim(env, s, bp) then c.trees else s.trees)
            && (!NeedsClaim(env, s, bp) || c.ok ==> t.failedAsize == s.failedAsize)
  {
  }

  /** In a consistent pool a block is sent to claim only the first time it is met. */
  lemma ClaimsOnlyNew(env: Env, ddt: map<Slot, nat>, trees: Trees, bps: seq<Bp>, n: nat)
    requires env.leakTracking && Consistent(env, ddt, trees, bps) && n < |bps| && !bps[n].embedded
    ensures NeedsClaim(env, CountAll(env, Initial(ddt, trees), bps[..n]), bps[n]) <==> New(env, bps, n, n)
  {
    var blk := BlockOf(env, bps[n]);
    var r := DdtRefs(ddt, blk);
    SeparateBefore(env, ddt, trees, bps, n);
    CountsAfter(env, blk, r, Initial(ddt, trees), bps[..n]);
    FewerThanDue(env, ddt, trees, bps, n);
    ClaimedIfFirst(env, blk, r, CountAll(env, Initial(ddt, trees), bps[..n]), MetIn(env, blk, r, bps[..n]), bps[n]);
  }

  lemma FewerThanDue(env: Env, ddt: map<Slot, nat>, trees: Trees, bps: seq<Bp>, n: nat)
    requires Consistent(env, ddt, trees, bps) && n < |bps| && !bps[n].embedded
    ensures Times(env, BlockOf(env, bps[n]), bps[..n]) < Due(env, ddt, BlockOf(env, bps[n]))
    ensures Refers(env, BlockOf(env, bps[n]), bps[n])
  {
    assert bps[..n + 1][..n] == bps[..n];
    TimesGrows(env, BlockOf(env, bps[n]), bps, n + 1);
  }

  lemma ClaimedIfFirst(env: Env, blk: Block, r: nat, s: State, m: Met, bp: Bp)
    requires env.leakTracking && After(env, blk, r, s, m) && Refers(env, blk, bp)
    requires m.n < Max(r, 1) + CloneRefs(env, blk.key) && (CloneRefs(env, blk.key) == 0 || m.a == Own(r, m.n))
    ensures NeedsClaim(env, s, bp) <==> m.n == 0
  {
    NextReference(env, blk, r, s, m, bp);
    FirstOfFew(r, CloneRefs(env, blk.key), m);
  }

  /** Among no more than are due, only the first is neither a duplicate nor a clone. */
  lemma FirstOfFew(r: nat, c: nat, m: Met)
    requires m.n < Max(r, 1) + c && (c == 0 || m.a == Own(r, m.n))
    ensures !(0 < m.n < r) && !(1 <= m.a <= c) <==> m.n == 0
  {
  }

  /** To the block that comes next, everything before is clear; nothing mimics it unless it has no clones. */
  lemma SeparateBefore(env: Env, ddt: map<Slot, nat>, trees: Trees, bps: seq<Bp>, n: nat)
    requires Consistent(env, ddt, trees, bps) && n < |bps| && !bps[n].embedded
    ensures Separate(env, BlockOf(env, bps[n]), bps[..n])
    ensures CloneRefs(env, BlockOf(env, bps[n]).key) == 0 || Mimicked(BlockOf(env, bps[n]), bps[..n]) == 0
    ensures Bares(env, BlockOf(env, bps[n]), bps[..n]) == 0
  {
    var blk := BlockOf(env, bps[n]);
    forall i | 0 <= i < n
      ensures Refers(env, blk, bps[..n][i]) || Mimics(blk, bps[..n][i]) || Elsewhere(env, blk, bps[..n][i])
      ensures CloneRefs(env, blk.key) > 0 ==> !Mimics(blk, bps[..n][i])
      ensures !Bare(env, blk, bps[..n][i])
    {
      assert Compatible(env, bps[n], bps[i]);
    }
    if CloneRefs(env, blk.key) > 0 { NoneMimicked(blk, bps[..n]); }
    NoneBare(env, blk, bps[..n]);
  }

  lemma {:induction false} NoneBare(env: Env, blk: Block, bps: seq<Bp>)
    requires forall i :: 0 <= i < |bps| ==> !Bare(env, blk, bps[i])
    ensures Bares(env, blk, bps) == 0
  {
    if bps != [] { NoneBare(env, blk, bps[..|bps| - 1]); }
  }

  lemma {:induction false} NoneMimicked(blk: Block, bps: seq<Bp>)
    requires forall i :: 0 <= i < |bps| ==> !Mimics(blk, bps[i])
    ensures Mimicked(blk, bps) == 0
  {
    if bps != [] { NoneMimicked(blk, bps[..|bps| - 1]); }
  }

  lemma NewBefore(env: Env, bps: seq<Bp>, n: nat, i: nat)
    requires n < |bps| && i < |bps| && New(env, bps, n + 1, i)
    ensures New(env, bps, n, i) && !Refers(env, BlockOf(env, bps[i]), bps[n])
  {
    assert bps[..n + 1][..n] == bps[..n];
  }

  lemma IntactCount(env: Env, s: State, bps: seq<Bp>, n: nat)
    requires n < |bps| && Intact(env, s, bps, n)
    requires forall i :: 0 <= i < |bps| ==> Compatible(env, bps[i], bps[n])
    requires NeedsClaim(env, s, bps[n]) ==> New(env, bps, n, n) && CopiesApart(env, Filled(env, bps[n]).dvas)
    ensures Intact(env, Count(env, s, bps[n]), bps, n + 1)
  {
    CountTrees(env, s, bps[n]);
    if NeedsClaim(env, s, bps[n]) {
      PassOkIff(env, s.trees, Filled(env, bps[n]).dvas);
    }
    forall i | 0 <= i < |bps| && New(env, bps, n + 1, i)
      ensures AllClaimable(env, Count(env, s, bps[n]).trees, Filled(env, bps[i]).dvas)
    {
      NewBefore(env, bps, n, i);
      assert Compatible(env, bps[i], bps[n]);
      if NeedsClaim(env, s, bps[n]) {
        ApartStaysClaimable(env, s.trees, Filled(env, bps[i]).dvas, Filled(env, bps[n]).dvas);
      }
    }
  }

  /** No reference pattern within the counts makes a claim fail. */
  lemma {:induction false} ConsistentPoolHasNoErrors(env: Env, ddt: map<Slot, nat>, trees: Trees, bps: seq<Bp>, n: nat)
    requires env.leakTracking && Consistent(env, ddt, trees, bps) && n <= |bps|
    ensures Intact(env, CountAll(env, Initial(ddt, trees), bps[..n]), bps, n)
    decreases n
  {
    if n > 0 {
      ConsistentPoolHasNoErrors(env, ddt, trees, bps, n - 1);
      assert bps[..n][..n - 1] == bps[..n - 1];
      if !bps[n - 1].embedded {
        ClaimsOnlyNew(env, ddt, trees, bps, n - 1);
      }
      IntactCount(env, CountAll(env, Initial(ddt, trees), bps[..n - 1]), bps, n - 1);
    }
  }

  lemma {:induction false} ConsistentIsClaimed(env: Env, ddt: map<Slot, nat>, trees: Trees, bps: seq<Bp>, n: nat)
    requires env.leakTracking && Consistent(env, ddt, trees, bps) && n <= |bps|
    ensures AllClaimed(env, Initial(ddt, trees), bps[..n])
    decreases n
  {
    if n > 0 {
      ConsistentIsClaimed(env, ddt, trees, bps, n - 1);
      assert bps[..n][..n - 1] == bps[..n - 1];
      NextIsClaimed(env, ddt, trees, bps, n - 1);
    }
  }

  lemma NextIsClaimed(env: Env, ddt: map<Slot, nat>, trees: Trees, bps: seq<Bp>, n: nat)
    requires env.leakTracking && Consistent(env, ddt, trees, bps) && n < |bps|
    ensures var t := CountAll(env, Initial(ddt, trees), bps[..n]);
            NeedsClaim(env, t, bps[n]) ==> Claim(env, t.trees, Filled(env, bps[n]).dvas).ok
  {
    var t := CountAll(env, Initial(ddt, trees), bps[..n]);
    if NeedsClaim(env, t, bps[n]) {
      ConsistentPoolHasNoErrors(env, ddt, trees, bps, n);
      ClaimsOnlyNew(env, ddt, trees, bps, n);
      ClaimOkIff(env, t.trees, Filled(env, bps[n]).dvas);
    }
  }

  /** Every byte that some reference names. */
  ghost function Referenced(env: Env, bps: seq<Bp>): set<(Key, nat)> {
    if bps == [] then {}
    else
      var bp := bps[|bps| - 1];
      Referenced(env, bps[..|bps| - 1]) + (if bp.embedded then {} else BpBytes(env, Filled(env, bp).dvas))
  }

  /** Those bytes, over the pointers: the canonical DVAs of a flat entry stand for a pointer that names it. */
  lemma {:induction false} ReferencedBytes(env: Env, bps: seq<Bp>, x: (Key, nat))
    ensures x in Referenced(env, bps) <==>
            exists i :: 0 <= i < |bps| && !bps[i].embedded &&
              x in BpBytes(env, if IsFlat(env, bps[i]) then env.flat[bps[i].dedup.slot] else bps[i].dvas)
  {
    if bps != [] {
      ReferencedBytes(env, bps[..|bps| - 1], x);
      assert forall i :: 0 <= i < |bps| - 1 ==> bps[..|bps| - 1][i] == bps[i];
    }
  }

  lemma {:induction false} AlreadyReferenced(env: Env, bps: seq<Bp>, bp: Bp)
    requires !bp.embedded && Times(env, BlockOf(env, bp), bps) > 0
    requires forall i :: 0 <= i < |bps| ==> Compatible(env, bp, bps[i])
    ensures BpBytes(env, Filled(env, bp).dvas) <= Referenced(env, bps)
    decreases |bps|
  {
    var last := |bps| - 1;
    assert Compatible(env, bp, bps[last]);
    if !Refers(env, BlockOf(env, bp), bps[last]) {
      AlreadyReferenced(env, bps[..last], bp);
    }
  }

  /** Counting one more reference removes what it names and nothing else. */
  lemma ReferencedStep(env: Env, s: State, bps: seq<Bp>, n: nat, whole: set<(Key, nat)>)
    requires n < |bps| && Intact(env, s, bps, n)
    requires !bps[n].embedded ==> CopiesApart(env, Filled(env, bps[n]).dvas)
    requires forall i :: 0 <= i < |bps| ==> Compatible(env, bps[n], bps[i])
    requires !bps[n].embedded ==> (NeedsClaim(env, s, bps[n]) <==> New(env, bps, n, n))
    requires AllBytes(s.trees) == whole - Referenced(env, bps[..n])
    ensures AllBytes(Count(env, s, bps[n]).trees) == whole - Referenced(env, bps[..n + 1])
  {
    var dvas := Filled(env, bps[n]).dvas;
    if !bps[n].embedded && !New(env, bps, n, n) {
      AlreadyReferenced(env, bps[..n], bps[n]);
    }
    LeftAfterOne(env, s, bps[n], whole, Referenced(env, bps[..n]));
    ReferencedNext(env, bps, n);
  }

  lemma ReferencedNext(env: Env, bps: seq<Bp>, n: nat)
    requires n < |bps|
    ensures Referenced(env, bps[..n + 1]) ==
            Referenced(env, bps[..n]) + if bps[n].embedded then {} else BpBytes(env, Filled(env, bps[n]).dvas)
  {
    assert bps[..n + 1][..n] == bps[..n];
  }

  /** Either the block is claimed, or its bytes were named before, or it has none. */
  lemma LeftAfterOne(env: Env, s: State, bp: Bp, whole: set<(Key, nat)>, named: set<(Key, nat)>)
    requires AllBytes(s.trees) == whole - named
    requires NeedsClaim(env, s, bp) ==>
               AllClaimable(env, s.trees, Filled(env, bp).dvas) && CopiesApart(env, Filled(env, bp).dvas)
    requires !NeedsClaim(env, s, bp) ==> bp.embedded || BpBytes(env, Filled(env, bp).dvas) <= named
    ensures AllBytes(Count(env, s, bp).trees) ==
            whole - (named + if bp.embedded then {} else BpBytes(env, Filled(env, bp).dvas))
  {
    var dvas := Filled(env, bp).dvas;
    CountTrees(env, s, bp);
    if NeedsClaim(env, s, bp) {
      PassOkIff(env, s.trees, dvas);
      PassTakesBytes(env, s.trees, dvas);
      PassSums(env, s.trees, dvas);
    }
  }

  lemma LeakedStep(env: Env, ddt: map<Slot, nat>, trees: Trees, bps: seq<Bp>, n: nat)
    requires env.leakTracking && Consistent(env, ddt, trees, bps) && n < |bps|
    requires AllBytes(CountAll(env, Initial(ddt, trees), bps[..n]).trees) ==
             AllBytes(trees) - Referenced(env, bps[..n])
    ensures AllBytes(CountAll(env, Initial(ddt, trees), bps[..n + 1]).trees) ==
            AllBytes(trees) - Referenced(env, bps[..n + 1])
  {
    ConsistentPoolHasNoErrors(env, ddt, trees, bps, n);
    if !bps[n].embedded {
      ClaimsOnlyNew(env, ddt, trees, bps, n);
    }
    assert bps[..n + 1][..n] == bps[..n];
    ReferencedStep(env, CountAll(env, Initial(ddt, trees), bps[..n]), bps, n, AllBytes(trees));
  }

  lemma NoFailures(env: Env, ddt: map<Slot, nat>, trees: Trees, bps: seq<Bp>, n: nat)
    requires env.leakTracking && Consistent(env, ddt, trees, bps) && n <= |bps|
    ensures CountAll(env, Initial(ddt, trees), bps[..n]).failedAsize == 0
  {
    ConsistentPoolHasNoErrors(env, ddt, trees, bps, n);
  }

  /** In a consistent pool, what is reported as leaked is exactly what no block refers to. */
  lemma {:induction false} LeakedIsUnreferenced(env: Env, ddt: map<Slot, nat>, trees: Trees, bps: seq<Bp>, n: nat)
    requires env.leakTracking && Consistent(env, ddt, trees, bps) && n <= |bps|
    ensures CountAll(env, Initial(ddt, trees), bps[..n]).failedAsize == 0
    ensures AllBytes(CountAll(env, Initial(ddt, trees), bps[..n]).trees) ==
            AllBytes(trees) - Referenced(env, bps[..n])
    decreases n
  {
    NoFailures(env, ddt, trees, bps, n);
    if n > 0 {
      LeakedIsUnreferenced(env, ddt, trees, bps, n - 1);
      LeakedStep(env, ddt, trees, bps, n - 1);
    }
  }
}
