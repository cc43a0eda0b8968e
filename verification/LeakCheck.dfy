/**
  zdb's leak check: every block pointer of the pool is counted once per reference, and its
  space is claimed once. Dedup (DDT) and clone (BRT) reference counts say how many further
  references a block may have; each is consumed as a reference is met.

  Offsets and sizes are unbounded here; on disk they fit a vdev and never wrap.
  */
module LeakCheck {
  import opened Ranges
  import opened BlockPointers
  import opened SpaceMapReplay

  /** A DDT entry and one of its variants. */
  type Slot = (nat, nat)

  /** What the DDT lookup of a block pointer finds. */
  datatype Dedup =
    | NotDedup
    | Pruned                          // no entry any more
    | NoPhys(entry: nat)              // an entry, but none of its variants is this block
    | Phys(slot: Slot)

  /** `key` is the first DVA as it is looked up in the clone table. */
  datatype Bp = Bp(key: BlockKey, dvas: seq<Dva>, embedded: bool, dedup: Dedup)

  /** What the pool holds on disk, as the traversal reads it. */
  datatype Env = Env(
    msSize: seq<nat>,                 // metaslab size of each top-level vdev
    flat: map<Slot, seq<Dva>>,        // variants with a canonical set of DVAs
    brtActive: bool,
    brtMaybe: set<BlockKey>,          // keys for which brt_maybe_exists answers yes
    brt: map<BlockKey, nat>,          // clone reference counts
    leakTracking: bool)               // not -L

  /** zdb_cb_t and the in-memory DDT. `attempts` lists the blocks sent to claim, in order. */
  datatype State = State(
    refs: map<Slot, nat>, looked: set<nat>, seen: set<Slot>,
    brt: map<BlockKey, nat>,
    trees: Trees,
    asize: nat, dedupAsize: nat, cloneAsize: nat, failedAsize: nat,
    partialAsize: nat,                // what claims took before they failed
    attempts: seq<Bp>)

  function SumAsize(dvas: seq<Dva>): nat {
    if dvas == [] then 0 else dvas[0].asize + SumAsize(dvas[1..])
  }

  function Asize(bp: Bp): nat {
    if bp.embedded then 0 else SumAsize(bp.dvas)
  }

  // ----- counting one block

  function Lookup<K(==)>(m: map<K, nat>, k: K): nat {
    if k in m then m[k] else 0
  }

  function FirstKey(dvas: seq<Dva>): BlockKey {
    if dvas == [] then (0, 0) else (dvas[0].vdev, dvas[0].offset)
  }

  /** The block with the canonical DVAs of its entry, when it has them. */
  function Filled(env: Env, bp: Bp): Bp {
    if bp.dedup.Phys? && bp.dedup.slot in env.flat then
      var dvas := env.flat[bp.dedup.slot];
      bp.(dvas := dvas, key := FirstKey(dvas))
    else bp
  }

  /** A second or later reference that the DDT still accounts for. */
  predicate IsDuplicate(s: State, bp: Bp) {
    bp.dedup.Phys? && bp.dedup.slot in s.seen && Lookup(s.refs, bp.dedup.slot) > 0
  }

  /** Consume a DDT reference. */
  function AfterDdt(env: Env, s: State, bp: Bp): State {
    match bp.dedup
    case NotDedup => s
    case Pruned => s
    case NoPhys(entry) => s.(looked := s.looked + {entry})
    case Phys(slot) =>
      var n := Lookup(s.refs, slot);
      s.(looked := s.looked + {slot.0}, seen := s.seen + {slot},
         refs := if n > 0 then s.refs[slot := n - 1] else s.refs,
         dedupAsize := s.dedupAsize + if IsDuplicate(s, bp) then Asize(Filled(env, bp)) else 0)
  }

  predicate AsksBrt(env: Env, s: State, bp: Bp) {
    !IsDuplicate(s, bp) && env.brtActive && Filled(env, bp).key in env.brtMaybe
  }

  /** A later reference that the clone table still accounts for. */
  predicate IsClone(env: Env, s: State, bp: Bp) {
    AsksBrt(env, s, bp) && Lookup(s.brt, Filled(env, bp).key) > 0
  }

  /** What asking for `key` does to the table: remember a cloned block, or consume one of its references. */
  function Asked(env: Env, brt: map<BlockKey, nat>, key: BlockKey): map<BlockKey, nat> {
    if key !in brt then
      if Lookup(env.brt, key) > 0 then brt[key := env.brt[key]] else brt
    else if brt[key] > 0 then brt[key := brt[key] - 1]
    else brt
  }

  function AfterBrt(env: Env, s: State, bp: Bp): map<BlockKey, nat> {
    if AsksBrt(env, s, bp) then Asked(env, s.brt, Filled(env, bp).key) else s.brt
  }

  predicate NeedsClaim(env: Env, s: State, bp: Bp) {
    !bp.embedded && env.leakTracking && !IsDuplicate(s, bp) && !IsClone(env, s, bp)
  }

  // ----- claiming

  predicate DvaOk(env: Env, trees: Trees, d: Dva) {
    && d.vdev < |env.msSize| && env.msSize[d.vdev] > 0
    && (d.vdev, d.offset / env.msSize[d.vdev]) in trees
  }

  function DvaKey(env: Env, d: Dva): Key
    requires d.vdev < |env.msSize| && env.msSize[d.vdev] > 0
  {
    (d.vdev, d.offset / env.msSize[d.vdev])
  }

  predicate Claimable(env: Env, trees: Trees, d: Dva) {
    DvaOk(env, trees, d) && Span(d.offset, d.asize) <= trees[DvaKey(env, d)]
  }

  /** metaslab_claim's dry run over all DVAs. */
  predicate AllClaimable(env: Env, trees: Trees, dvas: seq<Dva>) {
    forall i :: 0 <= i < |dvas| ==> Claimable(env, trees, dvas[i])
  }

  /** The trees, how much was taken, and whether all of it was. */
  datatype Claimed = Claimed(trees: Trees, taken: nat, ok: bool)

  function WithoutDva(env: Env, trees: Trees, d: Dva): Trees
    requires DvaOk(env, trees, d)
  {
    var k := DvaKey(env, d);
    trees[k := trees[k] - Span(d.offset, d.asize)]
  }

  /** Take extent after extent, stopping at the first that is not all there. */
  function Pass(env: Env, trees: Trees, dvas: seq<Dva>): Claimed
    decreases |dvas|
  {
    if dvas == [] then Claimed(trees, 0, true)
    else if !Claimable(env, trees, dvas[0]) then Claimed(trees, 0, false)
    else
      var rest := Pass(env, WithoutDva(env, trees, dvas[0]), dvas[1..]);
      rest.(taken := dvas[0].asize + rest.taken)
  }

  /** metaslab_claim: the dry run, then the pass. */
  function Claim(env: Env, trees: Trees, dvas: seq<Dva>): Claimed {
    if AllClaimable(env, trees, dvas) then Pass(env, trees, dvas) else Claimed(trees, 0, false)
  }

  /** The state with the result of a claim of b in it. */
  function WithClaim(s: State, b: Bp, c: Claimed): State {
    s.(attempts := s.attempts + [b], trees := c.trees,
       failedAsize := s.failedAsize + (if c.ok then 0 else Asize(b)),
       partialAsize := s.partialAsize + (if c.ok then 0 else c.taken))
  }

  /** The state with the block's references consumed and its size counted. */
  function Noted(env: Env, s: State, bp: Bp): State {
    var b := Filled(env, bp);
    AfterDdt(env, s, bp).(
      brt := AfterBrt(env, s, bp),
      cloneAsize := s.cloneAsize + (if IsClone(env, s, bp) then Asize(b) else 0),
      asize := s.asize + Asize(b))
  }

  /** zdb_count_block */
  function Count(env: Env, s: State, bp: Bp): State {
    var b := Filled(env, bp);
    if NeedsClaim(env, s, bp) then WithClaim(Noted(env, s, bp), b, Claim(env, s.trees, b.dvas))
    else Noted(env, s, bp)
  }

  function Initial(ddt: map<Slot, nat>, trees: Trees): State {
    State(ddt, {}, {}, map[], trees, 0, 0, 0, 0, 0, [])
  }

  function CountAll(env: Env, s: State, bps: seq<Bp>): State {
    if bps == [] then s
    else Count(env, CountAll(env, s, bps[..|bps| - 1]), bps[|bps| - 1])
  }

  /** t is s after bp, as far as the tables and the claims go. */
  predicate Counted(env: Env, s: State, bp: Bp, t: State) {
    && t.refs == AfterDdt(env, s, bp).refs
    && t.seen == AfterDdt(env, s, bp).seen
    && t.looked == AfterDdt(env, s, bp).looked
    && t.brt == AfterBrt(env, s, bp)
    && t.attempts == if NeedsClaim(env, s, bp) then s.attempts + [Filled(env, bp)] else s.attempts
  }

  lemma CountFields(env: Env, s: State, bp: Bp)
    ensures Counted(env, s, bp, Count(env, s, bp))
  {
  }

  lemma {:induction false} CountConcat(env: Env, s: State, a: seq<Bp>, b: seq<Bp>)
    ensures CountAll(env, s, a + b) == CountAll(env, CountAll(env, s, a), b)
    decreases |b|
  {
    if b == [] {
      assert a + b == a;
    } else {
      CountConcat(env, s, a, b[..|b| - 1]);
      assert (a + b)[..|a + b| - 1] == a + b[..|b| - 1];
    }
  }

  // ----- a claim takes exactly the block's bytes

  ghost function DvaBytes(env: Env, d: Dva): set<(Key, nat)> {
    if d.vdev < |env.msSize| && env.msSize[d.vdev] > 0
    then Tagged(DvaKey(env, d), Span(d.offset, d.asize)) else {}
  }

  ghost function BpBytes(env: Env, dvas: seq<Dva>): set<(Key, nat)> {
    if dvas == [] then {} else DvaBytes(env, dvas[0]) + BpBytes(env, dvas[1..])
  }

  /** The bytes of those copies that a pass takes. */
  ghost function PassBytes(env: Env, trees: Trees, dvas: seq<Dva>): set<(Key, nat)>
    decreases |dvas|
  {
    if dvas == [] || !Claimable(env, trees, dvas[0]) then {}
    else DvaBytes(env, dvas[0]) + PassBytes(env, WithoutDva(env, trees, dvas[0]), dvas[1..])
  }

  lemma RemoveOne(env: Env, trees: Trees, d: Dva)
    requires Claimable(env, trees, d)
    ensures DvaBytes(env, d) <= AllBytes(trees)
    ensures AllBytes(WithoutDva(env, trees, d)) == AllBytes(trees) - DvaBytes(env, d)
    ensures |DvaBytes(env, d)| == d.asize
  {
    TaggedSize(DvaKey(env, d), Span(d.offset, d.asize));
    SpanSize(d.offset, d.asize);
  }

  /** A pass removes the bytes of the copies it takes, no others, and as many as it says. */
  lemma {:induction false} PassTakesBytes(env: Env, trees: Trees, dvas: seq<Dva>)
    ensures PassBytes(env, trees, dvas) <= AllBytes(trees)
    ensures AllBytes(Pass(env, trees, dvas).trees) == AllBytes(trees) - PassBytes(env, trees, dvas)
    ensures |PassBytes(env, trees, dvas)| == Pass(env, trees, dvas).taken
    decreases |dvas|
  {
    if dvas != [] && Claimable(env, trees, dvas[0]) {
      RemoveOne(env, trees, dvas[0]);
      PassTakesBytes(env, WithoutDva(env, trees, dvas[0]), dvas[1..]);
      DisjointSize(DvaBytes(env, dvas[0]), PassBytes(env, WithoutDva(env, trees, dvas[0]), dvas[1..]));
    }
  }

  /** It takes no more than the copies' sizes, and all of it when it gets through. */
  lemma {:induction false} PassSums(env: Env, trees: Trees, dvas: seq<Dva>)
    ensures Pass(env, trees, dvas).taken <= SumAsize(dvas)
    ensures Pass(env, trees, dvas).ok ==>
              Pass(env, trees, dvas).taken == SumAsize(dvas) && PassBytes(env, trees, dvas) == BpBytes(env, dvas)
    decreases |dvas|
  {
    if dvas != [] && Claimable(env, trees, dvas[0]) {
      PassSums(env, WithoutDva(env, trees, dvas[0]), dvas[1..]);
    }
  }

  /** The trees shrink by exactly what was taken. */
  lemma PassSize(env: Env, trees: Trees, dvas: seq<Dva>)
    ensures |AllBytes(Pass(env, trees, dvas).trees)| == |AllBytes(trees)| - Pass(env, trees, dvas).taken
  {
    PassTakesBytes(env, trees, dvas);
    SubsetSize(AllBytes(trees), PassBytes(env, trees, dvas));
  }

  /** The copies of a block do not overlap. */
  ghost predicate CopiesApart(env: Env, dvas: seq<Dva>) {
    forall i, j :: 0 <= i < j < |dvas| ==> DvaBytes(env, dvas[i]) !! DvaBytes(env, dvas[j])
  }

  lemma ClaimableAfter(env: Env, trees: Trees, d: Dva, e: Dva)
    requires Claimable(env, trees, d)
    ensures Claimable(env, WithoutDva(env, trees, d), e) <==>
            Claimable(env, trees, e) && DvaBytes(env, d) !! DvaBytes(env, e)
  {
    if Claimable(env, trees, e) && DvaKey(env, d) == DvaKey(env, e) {
      var k := DvaKey(env, d);
      assert DvaBytes(env, d) !! DvaBytes(env, e) <==> Span(d.offset, d.asize) !! Span(e.offset, e.asize) by {
        forall x | x in Span(d.offset, d.asize) && x in Span(e.offset, e.asize)
          ensures !(DvaBytes(env, d) !! DvaBytes(env, e))
        {
          assert (k, x) in DvaBytes(env, d) && (k, x) in DvaBytes(env, e);
        }
      }
    }
  }

  /** A pass gets through exactly when every copy is there and no two of them overlap. */
  lemma {:induction false} PassOkIff(env: Env, trees: Trees, dvas: seq<Dva>)
    ensures Pass(env, trees, dvas).ok <==> AllClaimable(env, trees, dvas) && CopiesApart(env, dvas)
    decreases |dvas|
  {
    if dvas != [] && Claimable(env, trees, dvas[0]) {
      var after := WithoutDva(env, trees, dvas[0]);
      PassOkIff(env, after, dvas[1..]);
      forall j | 0 < j < |dvas|
        ensures Claimable(env, after, dvas[j]) <==>
                Claimable(env, trees, dvas[j]) && DvaBytes(env, dvas[0]) !! DvaBytes(env, dvas[j])
      {
        ClaimableAfter(env, trees, dvas[0], dvas[j]);
      }
      TailClaimable(env, trees, after, dvas);
    } else if dvas != [] {
      assert !AllClaimable(env, trees, dvas);
    }
  }

  lemma TailClaimable(env: Env, trees: Trees, after: Trees, dvas: seq<Dva>)
    requires dvas != [] && Claimable(env, trees, dvas[0])
    requires forall j :: 0 < j < |dvas| ==>
               (Claimable(env, after, dvas[j]) <==>
                Claimable(env, trees, dvas[j]) && DvaBytes(env, dvas[0]) !! DvaBytes(env, dvas[j]))
    ensures AllClaimable(env, after, dvas[1..]) && CopiesApart(env, dvas[1..]) <==>
            AllClaimable(env, trees, dvas) && CopiesApart(env, dvas)
  {
    var tail := dvas[1..];
    if AllClaimable(env, after, tail) && CopiesApart(env, tail) {
      forall j | 0 < j < |dvas|
        ensures Claimable(env, after, dvas[j])
      {
        assert Claimable(env, after, tail[j - 1]);
      }
      forall i, j | 0 <= i < j < |dvas|
        ensures DvaBytes(env, dvas[i]) !! DvaBytes(env, dvas[j])
      {
        if i > 0 { assert DvaBytes(env, tail[i - 1]) !! DvaBytes(env, tail[j - 1]); }
      }
    }
    if AllClaimable(env, trees, dvas) && CopiesApart(env, dvas) {
      forall j | 0 <= j < |tail|
        ensures Claimable(env, after, tail[j])
      {
        assert tail[j] == dvas[j + 1] && Claimable(env, trees, dvas[j + 1]);
      }
    }
  }

  /** So a claim succeeds exactly when the dry run does and the copies are apart; else it may have taken some. */
  lemma ClaimOkIff(env: Env, trees: Trees, dvas: seq<Dva>)
    ensures Claim(env, trees, dvas).ok <==> AllClaimable(env, trees, dvas) && CopiesApart(env, dvas)
    ensures |AllBytes(Claim(env, trees, dvas).trees)| == |AllBytes(trees)| - Claim(env, trees, dvas).taken
    ensures Claim(env, trees, dvas).taken <= SumAsize(dvas)
    ensures Claim(env, trees, dvas).ok ==> Claim(env, trees, dvas).taken == SumAsize(dvas)
    ensures !Claim(env, trees, dvas).ok && CopiesApart(env, dvas) ==> Claim(env, trees, dvas) == Claimed(trees, 0, false)
  {
    PassOkIff(env, trees, dvas);
    PassSize(env, trees, dvas);
    PassSums(env, trees, dvas);
  }

  /** A block whose two copies are one passes the dry run and fails in the second pass, half claimed. */
  lemma OverlappingCopies()
    ensures var env := Env([1], map[], false, {}, map[], true);
            var trees: Trees := map[(0, 0) := {0}];
            var twice := [Dva(0, 0, 1), Dva(0, 0, 1)];
            && AllClaimable(env, trees, twice) && !Claim(env, trees, twice).ok
            && Claim(env, trees, twice).taken == 1
  {
    var env := Env([1], map[], false, {}, map[], true);
    var trees: Trees := map[(0, 0) := {0}];
    var d := Dva(0, 0, 1);
    assert Span(0, 1) == {0};
    var after := WithoutDva(env, trees, d);
    assert 0 in Span(0, 1) && 0 !in after[(0, 0)];
    assert [d, d][1..] == [d];
    assert Pass(env, after, [d]) == Claimed(after, 0, false);
  }

  // ----- the traversal's callback, in place

  class Zcb {
    const env: Env
    var refs: map<Slot, nat>
    var looked: set<nat>
    var seen: set<Slot>
    var brt: map<BlockKey, nat>
    var trees: Trees
    var asize: nat
    var dedupAsize: nat
    var cloneAsize: nat
    var failedAsize: nat
    ghost var partialAsize: nat
    ghost var attempts: seq<Bp>

    ghost function Value(): State
      reads this
    {
      State(refs, looked, seen, brt, trees, asize, dedupAsize, cloneAsize, failedAsize, partialAsize, attempts)
    }

    constructor (env: Env, ddt: map<Slot, nat>, trees: Trees)
      ensures this.env == env
      ensures Value() == Initial(ddt, trees)
    {
      this.env := env;
      this.refs := ddt;
      this.looked, this.seen, this.brt := {}, {}, map[];
      this.trees := trees;
      this.asize, this.dedupAsize, this.cloneAsize, this.failedAsize := 0, 0, 0, 0;
      this.partialAsize, this.attempts := 0, [];
    }

    /** Take extents until one is missing. */
    method TakeExtents(extents: seq<Dva>) returns (ok: bool, size: nat)
      modifies this`trees
      ensures Claimed(trees, size, ok) == Pass(env, old(trees), extents)
    {
      size := 0;
      for i := 0 to |extents|
        invariant Pass(env, old(trees), extents) ==
                  var rest := Pass(env, trees, extents[i..]); rest.(taken := size + rest.taken)
      {
        assert extents[i..][0] == extents[i] && extents[i..][1..] == extents[i + 1..];
        if !Claimable(env, trees, extents[i]) {
          return false, size;
        }
        var k := DvaKey(env, extents[i]);
        trees := trees[k := trees[k] - Span(extents[i].offset, extents[i].asize)];
        size := size + extents[i].asize;
      }
      return true, size;
    }

    /** metaslab_claim: a dry run over all copies, then the real pass. */
    method ClaimBlock(dvas: seq<Dva>) returns (ok: bool, ghost taken: nat)
      modifies this`trees
      ensures Claimed(trees, taken, ok) == Claim(env, old(trees), dvas)
    {
      for i := 0 to |dvas|
        invariant trees == old(trees)
        invariant forall j :: 0 <= j < i ==> Claimable(env, trees, dvas[j])
      {
        if !Claimable(env, trees, dvas[i]) {
          return false, 0;
        }
      }
      var size;
      ok, size := TakeExtents(dvas);
      taken := size;
    }

    /** Consume a DDT reference; `claimed` says that the block needs no further look. */
    method CountDedup(bp: Bp) returns (b: Bp, claimed: bool)
      modifies this`refs, this`looked, this`seen, this`dedupAsize
      ensures Value() == AfterDdt(env, old(Value()), bp)
      ensures b == Filled(env, bp) && claimed == IsDuplicate(old(Value()), bp)
    {
      b, claimed := bp, false;
      if bp.dedup.NotDedup? || bp.dedup.Pruned? {
        return;
      }
      if bp.dedup.NoPhys? {
        looked := looked + {bp.dedup.entry};
        return;
      }
      var slot := bp.dedup.slot;
      looked := looked + {slot.0};
      var wasSeen := slot in seen;
      if !wasSeen {
        seen := seen + {slot};
      }
      assert seen == old(seen) + {slot};
      var exhausted := Lookup(refs, slot) == 0;
      if !exhausted {
        refs := refs[slot := refs[slot] - 1];
      }
      if slot in env.flat {
        b := bp.(dvas := env.flat[slot], key := FirstKey(env.flat[slot]));
      }
      if wasSeen && !exhausted {
        dedupAsize := dedupAsize + Asize(b);
        claimed := true;
      }
    }

    /** Remember a cloned block or consume one of its references. */
    method CountClone(b: Bp) returns (claimed: bool)
      modifies this`brt, this`cloneAsize
      ensures claimed <==> env.brtActive && b.key in env.brtMaybe && Lookup(old(brt), b.key) > 0
      ensures cloneAsize == old(cloneAsize) + if claimed then Asize(b) else 0
      ensures brt == if env.brtActive && b.key in env.brtMaybe then Asked(env, old(brt), b.key) else old(brt)
    {
      claimed := false;
      if env.brtActive && b.key in env.brtMaybe {
        if b.key !in brt {
          var refcnt := Lookup(env.brt, b.key);
          if refcnt > 0 {
            brt := brt[b.key := refcnt];
          }
        } else if brt[b.key] > 0 {
          cloneAsize := cloneAsize + Asize(b);
          brt := brt[b.key := brt[b.key] - 1];
          claimed := true;
        }
      }
    }

    /** The first half of zdb_count_block: `claims` says whether the block goes on to be claimed. */
    method NoteBlock(bp: Bp) returns (b: Bp, claims: bool)
      modifies this
      ensures Value() == Noted(env, old(Value()), bp)
      ensures b == Filled(env, bp) && claims == NeedsClaim(env, old(Value()), bp)
    {
      var claimed;
      b, claimed := CountDedup(bp);
      if !claimed {
        claimed := CountClone(b);
      }
      asize := asize + Asize(b);
      claims := !(b.embedded || claimed || !env.leakTracking);
    }

    /** The second half: claim the block and note whether that failed. */
    method ClaimNoted(b: Bp)
      modifies this
      ensures Value() == WithClaim(old(Value()), b, Claim(env, old(trees), b.dvas))
    {
      var ok, taken := ClaimBlock(b.dvas);
      attempts := attempts + [b];
      if !ok {
        failedAsize := failedAsize + Asize(b);
        partialAsize := partialAsize + taken;
      }
    }

    /** zdb_count_block */
    method CountBlock(bp: Bp)
      modifies this
      ensures Value() == Count(env, old(Value()), bp)
    {
      var b, claims := NoteBlock(bp);
      if claims {
        ClaimNoted(b);
      }
    }

    method CountBlocks(bps: seq<Bp>)
      modifies this
      ensures Value() == CountAll(env, old(Value()), bps)
    {
      for i := 0 to |bps|
        invariant Value() == CountAll(env, old(Value()), bps[..i])
      {
        assert bps[..i + 1][..i] == bps[..i];
        CountBlock(bps[i]);
      }
      assert bps[..|bps|] == bps;
    }
  }

  // ----- conservation

  /** What the counters and the trees add up to. */
  ghost function Balance(s: State): int {
    s.asize - s.dedupAsize - s.cloneAsize - s.failedAsize + s.partialAsize + |AllBytes(s.trees)|
  }

  /** A size that is noted is offset by the dedup or the clone total, unless the block goes on to be claimed. */
  lemma NotedTotals(env: Env, s: State, bp: Bp)
    requires env.leakTracking
    ensures var t := Noted(env, s, bp);
            && t.asize - t.dedupAsize - t.cloneAsize ==
                 s.asize - s.dedupAsize - s.cloneAsize + (if NeedsClaim(env, s, bp) then Asize(Filled(env, bp)) else 0)
            && t.trees == s.trees && t.failedAsize == s.failedAsize && t.partialAsize == s.partialAsize
  {
  }

  lemma CountBalances(env: Env, s: State, bp: Bp)
    requires env.leakTracking
    ensures Balance(Count(env, s, bp)) == Balance(s)
  {
    NotedTotals(env, s, bp);
    if NeedsClaim(env, s, bp) {
      ClaimOkIff(env, s.trees, Filled(env, bp).dvas);
    }
  }

  /** No interleaving of references changes the balance. */
  lemma {:induction false} CountAllBalances(env: Env, s: State, bps: seq<Bp>)
    requires env.leakTracking
    ensures Balance(CountAll(env, s, bps)) == Balance(s)
  {
    if bps != [] {
      CountAllBalances(env, s, bps[..|bps| - 1]);
      CountBalances(env, CountAll(env, s, bps[..|bps| - 1]), bps[|bps| - 1]);
    }
  }

  /** Claims that fail take no more than they fail for. */
  lemma {:induction false} PartialIsPart(env: Env, s: State, bps: seq<Bp>)
    requires s.partialAsize <= s.failedAsize
    ensures CountAll(env, s, bps).partialAsize <= CountAll(env, s, bps).failedAsize
  {
    if bps != [] {
      var t := CountAll(env, s, bps[..|bps| - 1]);
      var bp := bps[|bps| - 1];
      PartialIsPart(env, s, bps[..|bps| - 1]);
      if NeedsClaim(env, t, bp) {
        ClaimOkIff(env, t.trees, Filled(env, bp).dvas);
      }
    }
  }
}
