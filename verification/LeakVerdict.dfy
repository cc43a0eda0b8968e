/**
  The whole of `zdb -b`: load what is allocated, set the checkpoint's space aside, count
  and claim every block, claim what a device removal has copied, and compare the totals.
  Vdevs that are already removed (indirect) are not part of this module.
  */
module LeakVerdict {
  import opened Ranges
  import opened BlockPointers
  import opened SpaceMapReplay
  import opened LeakCheck
  import opened ClaimList
  import opened RefcountTrace
  import opened Removal
  import BlockStatistics

  /** The state at the end of the traversal; None where the program would abort. */
  function Run(env: Env, ddt: map<Slot, nat>, loaded: Trees, checkpoint: seq<Dva>,
               pending: seq<Bp>, removing: seq<Dva>, blocks: seq<Bp>): Option<State>
  {
    var p1 := Pass(env, loaded, checkpoint);
    if !p1.ok then None else
    var s1 := CountAll(env, Initial(ddt, p1.trees), pending);
    var p2 := Pass(env, s1.trees, removing);
    if !p2.ok then None else
    Some(CountAll(env, s1.(trees := p2.trees), blocks))
  }

  /** What failed claims asked for and did not take. */
  ghost function Missed(s: State): int {
    s.failedAsize - s.partialAsize
  }

  /** Allocated space is what was found, what is left, and not what failed claims missed. */
  lemma RunBalances(env: Env, ddt: map<Slot, nat>, loaded: Trees, checkpoint: seq<Dva>,
                    pending: seq<Bp>, removing: seq<Dva>, blocks: seq<Bp>)
    requires env.leakTracking
    requires Run(env, ddt, loaded, checkpoint, pending, removing, blocks).Some?
    ensures var s := Run(env, ddt, loaded, checkpoint, pending, removing, blocks).value;
            && Missed(s) >= 0
            && |AllBytes(loaded)| + Missed(s) ==
                 s.asize - s.dedupAsize - s.cloneAsize + SumAsize(removing) + SumAsize(checkpoint)
                 + |AllBytes(s.trees)|
  {
    var t1 := Pass(env, loaded, checkpoint).trees;
    PassSize(env, loaded, checkpoint);
    PassSums(env, loaded, checkpoint);
    CountAllBalances(env, Initial(ddt, t1), pending);
    PartialIsPart(env, Initial(ddt, t1), pending);
    var s1 := CountAll(env, Initial(ddt, t1), pending);
    PassSize(env, s1.trees, removing);
    PassSums(env, s1.trees, removing);
    var s2 := s1.(trees := Pass(env, s1.trees, removing).trees);
    CountAllBalances(env, s2, blocks);
    PartialIsPart(env, s2, blocks);
  }

  datatype Report = Report(totalAlloc: int, totalFound: int, leaks: bool)

  /** Reference counts left over, or space never claimed (zdb_leak_fini). */
  predicate LeftOver(env: Env, s: State) {
    RefsLeft(env, s) || exists k :: k in s.trees && s.trees[k] != {}
  }

  lemma NoBytesLeft(trees: Trees)
    ensures AllBytes(trees) == {} <==> forall k :: k in trees ==> trees[k] == {}
    ensures AllBytes(trees) == {} <==> |AllBytes(trees)| == 0
  {
    if AllBytes(trees) == {} {
      forall k | k in trees
        ensures trees[k] == {}
      {
        assert forall x :: x in trees[k] ==> (k, x) in AllBytes(trees);
      }
    }
  }

  /** From zdb_leak_init's exclusion of the checkpoint to the end of the traversal. */
  method Traverse(env: Env, ddt: map<Slot, nat>, loaded: Trees, checkpoint: seq<Dva>,
                  pending: seq<Bp>, removing: seq<Dva>, blocks: seq<Bp>)
    returns (ok: bool, zcb: Zcb, otherSize: nat)
    ensures fresh(zcb) && zcb.env == env
    ensures ok <==> Run(env, ddt, loaded, checkpoint, pending, removing, blocks).Some?
    ensures ok ==> Run(env, ddt, loaded, checkpoint, pending, removing, blocks) == Some(zcb.Value())
    ensures ok ==> otherSize == SumAsize(removing) + SumAsize(checkpoint)
  {
    zcb := new Zcb(env, ddt, loaded);
    var checkpointSize, removingSize;
    PassSums(env, loaded, checkpoint);
    ok, checkpointSize := zcb.TakeExtents(checkpoint);
    if !ok {
      return false, zcb, 0;
    }
    zcb.CountBlocks(pending);
    PassSums(env, zcb.trees, removing);
    ok, removingSize := zcb.TakeExtents(removing);
    if !ok {
      return false, zcb, 0;
    }
    zcb.CountBlocks(blocks);
    return true, zcb, removingSize + checkpointSize;
  }

  /** What comparing the two totals says about the trees. */
  lemma Verdict(p: Pool, env: Env, ddt: map<Slot, nat>, loaded: Trees, flushed: Trees, checkpoint: seq<Dva>,
                pending: seq<Bp>, removing: seq<Dva>, blocks: seq<Bp>, s: State)
    requires WellFormed(p) && env.leakTracking
    requires TreesAre(p, SM_ALLOC, flushed, 0) && TreesAre(p, SM_ALLOC, loaded, |p.log|)
    requires Run(env, ddt, loaded, checkpoint, pending, removing, blocks) == Some(s)
    ensures var found := s.asize - s.dedupAsize - s.cloneAsize + SumAsize(removing) + SumAsize(checkpoint);
            |AllBytes(flushed)| + SignedUnflushed(p, p.log) - found == |AllBytes(s.trees)| - Missed(s)
    ensures Missed(s) >= 0
    ensures |AllBytes(s.trees)| == 0 <==> AllBytes(s.trees) == {}
  {
    assert p.log[..|p.log|] == p.log;
    RunBalances(env, ddt, loaded, checkpoint, pending, removing, blocks);
    SignedTotalIsGrowth(p, |p.log|, flushed, loaded);
    NoBytesLeft(s.trees);
  }

  // ----- when no claim fails

  /** No extent is missing and no claim fails. */
  ghost predicate NoneFails(env: Env, ddt: map<Slot, nat>, loaded: Trees, checkpoint: seq<Dva>,
                            pending: seq<Bp>, removing: seq<Dva>, blocks: seq<Bp>)
  {
    var p1 := Pass(env, loaded, checkpoint);
    var s0 := Initial(ddt, p1.trees);
    var s1 := CountAll(env, s0, pending);
    var p2 := Pass(env, s1.trees, removing);
    p1.ok && AllClaimed(env, s0, pending) && p2.ok && AllClaimed(env, s1.(trees := p2.trees), blocks)
  }

  /** All that is claimed or set aside, as one list; it does not depend on what is allocated. */
  function Wanted(env: Env, ddt: map<Slot, nat>, checkpoint: seq<Dva>,
                  pending: seq<Bp>, removing: seq<Dva>, blocks: seq<Bp>): seq<Dva>
  {
    var s := Initial(ddt, map[]);
    checkpoint + Sent(env, s, pending) + removing + Sent(env, CountAll(env, s, pending), blocks)
  }

  lemma PassFour(env: Env, trees: Trees, a: seq<Dva>, b: seq<Dva>, c: seq<Dva>, d: seq<Dva>)
    ensures var pa := Pass(env, trees, a);
            var pb := Pass(env, pa.trees, b);
            var pc := Pass(env, pb.trees, c);
            var pd := Pass(env, pc.trees, d);
            && (Pass(env, trees, a + b + c + d).ok <==> pa.ok && pb.ok && pc.ok && pd.ok)
            && (pa.ok && pb.ok && pc.ok && pd.ok ==> Pass(env, trees, a + b + c + d).trees == pd.trees)
  {
    PassConcat(env, trees, a + b + c, d);
    PassConcat(env, trees, a + b, c);
    PassConcat(env, trees, a, b);
  }

  /** No claim fails exactly when one pass over the list gets through. */
  lemma NoneFailsIsPass(env: Env, ddt: map<Slot, nat>, loaded: Trees, checkpoint: seq<Dva>,
                        pending: seq<Bp>, removing: seq<Dva>, blocks: seq<Bp>)
    ensures NoneFails(env, ddt, loaded, checkpoint, pending, removing, blocks) <==>
            Pass(env, loaded, Wanted(env, ddt, checkpoint, pending, removing, blocks)).ok
    ensures NoneFails(env, ddt, loaded, checkpoint, pending, removing, blocks) ==>
              var run := Run(env, ddt, loaded, checkpoint, pending, removing, blocks);
              && run.Some? && Missed(run.value) == 0
              && run.value.trees == Pass(env, loaded, Wanted(env, ddt, checkpoint, pending, removing, blocks)).trees
  {
    var s := Initial(ddt, map[]);
    var s0 := Initial(ddt, Pass(env, loaded, checkpoint).trees);
    var s1 := CountAll(env, s0, pending);
    var s2 := s1.(trees := Pass(env, s1.trees, removing).trees);
    SentIgnoresTrees(env, s, s0, pending);
    SentIgnoresTrees(env, CountAll(env, s, pending), s2, blocks);
    SentIsClaimed(env, s0, pending);
    SentIsClaimed(env, s2, blocks);
    PhasesPass(env, loaded, checkpoint, pending, removing, blocks, s0, s1, s2, CountAll(env, s2, blocks));
  }

  lemma PhasesPass(env: Env, loaded: Trees, checkpoint: seq<Dva>, pending: seq<Bp>, removing: seq<Dva>, blocks: seq<Bp>,
                   s0: State, s1: State, s2: State, s3: State)
    requires s0.trees == Pass(env, loaded, checkpoint).trees && s1 == CountAll(env, s0, pending)
    requires s2 == s1.(trees := Pass(env, s1.trees, removing).trees) && s3 == CountAll(env, s2, blocks)
    requires ClaimsAsOne(env, s0, pending) && ClaimsAsOne(env, s2, blocks)
    ensures var list := checkpoint + Sent(env, s0, pending) + removing + Sent(env, s2, blocks);
            && (Pass(env, loaded, list).ok <==>
                  && Pass(env, loaded, checkpoint).ok && AllClaimed(env, s0, pending)
                  && Pass(env, s1.trees, removing).ok && AllClaimed(env, s2, blocks))
            && (Pass(env, loaded, list).ok ==>
                  && s3.trees == Pass(env, loaded, list).trees
                  && s3.failedAsize == s0.failedAsize && s3.partialAsize == s0.partialAsize)
  {
    PassFour(env, loaded, checkpoint, Sent(env, s0, pending), removing, Sent(env, s2, blocks));
  }

  /** The reference counts at the end are those of one traversal. */
  lemma SameAsOneTraversal(env: Env, ddt: map<Slot, nat>, loaded: Trees, checkpoint: seq<Dva>,
                           pending: seq<Bp>, removing: seq<Dva>, blocks: seq<Bp>)
    requires Run(env, ddt, loaded, checkpoint, pending, removing, blocks).Some?
    ensures SameCounts(Run(env, ddt, loaded, checkpoint, pending, removing, blocks).value,
                       CountAll(env, Initial(ddt, map[]), pending + blocks))
  {
    var s := Initial(ddt, map[]);
    var s0 := Initial(ddt, Pass(env, loaded, checkpoint).trees);
    var s1 := CountAll(env, s0, pending);
    var s2 := s1.(trees := Pass(env, s1.trees, removing).trees);
    SentIgnoresTrees(env, s, s0, pending);
    SentIgnoresTrees(env, s2, CountAll(env, s, pending), blocks);
    CountConcat(env, s, pending, blocks);
  }

  /** What is left over in the tables, in terms of the pointers. */
  lemma CountsLeft(env: Env, ddt: map<Slot, nat>, loaded: Trees, checkpoint: seq<Dva>,
                   pending: seq<Bp>, removing: seq<Dva>, blocks: seq<Bp>)
    requires Run(env, ddt, loaded, checkpoint, pending, removing, blocks).Some?
    ensures RefsLeft(env, Run(env, ddt, loaded, checkpoint, pending, removing, blocks).value) <==>
            TooFewPointers(env, ddt, pending + blocks)
  {
    SameAsOneTraversal(env, ddt, loaded, checkpoint, pending, removing, blocks);
    RefsLeftIff(env, ddt, map[], pending + blocks);
  }

  /** All that is to be claimed or set aside is allocated, and no two extents of it overlap. */
  ghost predicate AllThere(env: Env, ddt: map<Slot, nat>, loaded: Trees, checkpoint: seq<Dva>,
                           pending: seq<Bp>, removing: seq<Dva>, blocks: seq<Bp>)
  {
    var list := Wanted(env, ddt, checkpoint, pending, removing, blocks);
    AllClaimable(env, loaded, list) && CopiesApart(env, list)
  }

  /** The condition on the input for no claim to fail, and what is then left unclaimed. */
  lemma NoneFailsIff(env: Env, ddt: map<Slot, nat>, loaded: Trees, checkpoint: seq<Dva>,
                     pending: seq<Bp>, removing: seq<Dva>, blocks: seq<Bp>)
    ensures NoneFails(env, ddt, loaded, checkpoint, pending, removing, blocks) <==>
            AllThere(env, ddt, loaded, checkpoint, pending, removing, blocks)
    ensures AllThere(env, ddt, loaded, checkpoint, pending, removing, blocks) ==>
              var run := Run(env, ddt, loaded, checkpoint, pending, removing, blocks);
              var bytes := BpBytes(env, Wanted(env, ddt, checkpoint, pending, removing, blocks));
              && run.Some? && Missed(run.value) == 0
              && bytes <= AllBytes(loaded) && AllBytes(run.value.trees) == AllBytes(loaded) - bytes
  {
    var list := Wanted(env, ddt, checkpoint, pending, removing, blocks);
    NoneFailsIsPass(env, ddt, loaded, checkpoint, pending, removing, blocks);
    PassOkIff(env, loaded, list);
    PassTakesBytes(env, loaded, list);
    PassSums(env, loaded, list);
  }

  /** The trees that are loaded from a pool hold bytes of their own metaslabs, so a DVA is looked for in the right one. */
  lemma LoadedAreHoused(p: Pool, env: Env)
    requires WellFormed(p) && forall v :: 0 <= v < |p.vdevs| ==> Tidy(p, v)
    requires |env.msSize| == |p.vdevs| && forall v :: 0 <= v < |p.vdevs| ==> env.msSize[v] == p.vdevs[v].msSize
    ensures ClaimList.TreesHoused(env, TreesAt(p, SM_ALLOC, |p.log|))
  {
    forall k: Key | k in TreesAt(p, SM_ALLOC, |p.log|)
      ensures k.0 < |env.msSize| && TreesAt(p, SM_ALLOC, |p.log|)[k] <= MsSpan(k.1, env.msSize[k.0])
    {
      LoadedInside(p, k, |p.log|);
    }
  }

  // ----- the whole check

  /** What the removal in progress, if there is one, has zdb claim. */
  ghost function RemovalExtents(p: Pool, removal: Option<Removing>): Option<seq<Dva>>
    requires removal.Some? ==> RemovingOk(p, removal.value)
  {
    if removal.None? then Some([]) else Extents(p, removal.value)
  }

  ghost predicate RemovalOk(p: Pool, removal: Option<Removing>) {
    removal.Some? ==> RunsPositive(p) && RemovingOk(p, removal.value) && Ordered(removal.value.moves)
  }

  /** Every space map and log replays, what was copied is mapped, and every extent that must be there is there. */
  ghost predicate Completes(p: Pool, env: Env, ddt: map<Slot, nat>, checkpoint: seq<Dva>,
                            pending: seq<Bp>, removal: Option<Removing>, blocks: seq<Bp>)
    requires RemovalOk(p, removal)
  {
    && Loads(p, SM_ALLOC, |p.log|)
    && RemovalExtents(p, removal).Some?
    && Run(env, ddt, TreesAt(p, SM_ALLOC, |p.log|), checkpoint, pending,
           RemovalExtents(p, removal).value, blocks).Some?
  }

  /** The state at the end of the traversal of pool p. */
  ghost function Final(p: Pool, env: Env, ddt: map<Slot, nat>, checkpoint: seq<Dva>,
                       pending: seq<Bp>, removal: Option<Removing>, blocks: seq<Bp>): State
    requires RemovalOk(p, removal) && Completes(p, env, ddt, checkpoint, pending, removal, blocks)
  {
    Run(env, ddt, TreesAt(p, SM_ALLOC, |p.log|), checkpoint, pending, RemovalExtents(p, removal).value, blocks).value
  }

  method FindRemoval(p: Pool, removal: Option<Removing>) returns (ok: bool, removing: seq<Dva>)
    requires WellFormed(p) && RemovalOk(p, removal)
    ensures ok <==> RemovalExtents(p, removal).Some?
    ensures ok ==> RemovalExtents(p, removal) == Some(removing)
  {
    if removal.None? {
      return true, [];
    }
    var size;
    ok, removing, size := FindRemoving(p, removal.value);
  }

  /** No extent of pool p is missing and no claim fails. */
  ghost predicate ClaimsSucceed(p: Pool, env: Env, ddt: map<Slot, nat>, checkpoint: seq<Dva>,
                                pending: seq<Bp>, removal: Option<Removing>, blocks: seq<Bp>)
    requires RemovalOk(p, removal)
  {
    && Loads(p, SM_ALLOC, |p.log|)
    && RemovalExtents(p, removal).Some?
    && NoneFails(env, ddt, TreesAt(p, SM_ALLOC, |p.log|), checkpoint, pending,
                 RemovalExtents(p, removal).value, blocks)
  }

  /** Pool p loads, and all that is to be claimed or set aside is allocated and apart. */
  ghost predicate PoolAllThere(p: Pool, env: Env, ddt: map<Slot, nat>, checkpoint: seq<Dva>,
                               pending: seq<Bp>, removal: Option<Removing>, blocks: seq<Bp>)
    requires RemovalOk(p, removal)
  {
    && Loads(p, SM_ALLOC, |p.log|)
    && RemovalExtents(p, removal).Some?
    && AllThere(env, ddt, TreesAt(p, SM_ALLOC, |p.log|), checkpoint, pending,
                RemovalExtents(p, removal).value, blocks)
  }

  /** All bytes that are to be claimed or set aside. */
  ghost function WantedBytes(p: Pool, env: Env, ddt: map<Slot, nat>, checkpoint: seq<Dva>,
                             pending: seq<Bp>, removal: Option<Removing>, blocks: seq<Bp>): set<(Key, nat)>
    requires RemovalOk(p, removal)
  {
    BpBytes(env, Wanted(env, ddt, checkpoint, pending, RemovalExtents(p, removal).GetOr([]), blocks))
  }

  lemma SucceedsIff(p: Pool, env: Env, ddt: map<Slot, nat>, checkpoint: seq<Dva>,
                    pending: seq<Bp>, removal: Option<Removing>, blocks: seq<Bp>)
    requires RemovalOk(p, removal)
    ensures ClaimsSucceed(p, env, ddt, checkpoint, pending, removal, blocks) <==>
            PoolAllThere(p, env, ddt, checkpoint, pending, removal, blocks)
  {
    if Loads(p, SM_ALLOC, |p.log|) && RemovalExtents(p, removal).Some? {
      NoneFailsIff(env, ddt, TreesAt(p, SM_ALLOC, |p.log|), checkpoint, pending, RemovalExtents(p, removal).value, blocks);
    }
  }

  lemma WhatIsLeft(p: Pool, env: Env, ddt: map<Slot, nat>, checkpoint: seq<Dva>,
                   pending: seq<Bp>, removal: Option<Removing>, blocks: seq<Bp>)
    requires RemovalOk(p, removal) && PoolAllThere(p, env, ddt, checkpoint, pending, removal, blocks)
    ensures Completes(p, env, ddt, checkpoint, pending, removal, blocks)
    ensures var fin := Final(p, env, ddt, checkpoint, pending, removal, blocks);
            var all := AllBytes(TreesAt(p, SM_ALLOC, |p.log|));
            var wanted := WantedBytes(p, env, ddt, checkpoint, pending, removal, blocks);
            Missed(fin) == 0 && wanted <= all && AllBytes(fin.trees) == all - wanted
  {
    NoneFailsIff(env, ddt, TreesAt(p, SM_ALLOC, |p.log|), checkpoint, pending, RemovalExtents(p, removal).value, blocks);
  }

  lemma LeftOverIff(env: Env, ddt: map<Slot, nat>, loaded: Trees, checkpoint: seq<Dva>,
                    pending: seq<Bp>, removing: seq<Dva>, blocks: seq<Bp>, s: State)
    requires Run(env, ddt, loaded, checkpoint, pending, removing, blocks) == Some(s)
    ensures LeftOver(env, s) <==> TooFewPointers(env, ddt, pending + blocks) || AllBytes(s.trees) != {}
  {
    CountsLeft(env, ddt, loaded, checkpoint, pending, removing, blocks);
    NoBytesLeft(s.trees);
  }

  /**
    dump_block_stats. `classAlloc` is what the allocation classes report, that is, the
    space maps without the logs; `checkpoint` are the entries of the checkpoint's space maps.
    */
  method DumpBlockStats(p: Pool, env: Env, ddt: map<Slot, nat>, classAlloc: nat,
                        checkpoint: seq<Dva>, pending: seq<Bp>, removal: Option<Removing>, blocks: seq<Bp>)
    returns (ok: bool, r: Report)
    requires WellFormed(p) && env.leakTracking && RemovalOk(p, removal)
    ensures ok <==> Completes(p, env, ddt, checkpoint, pending, removal, blocks)
    // the general law
    ensures ok ==> var fin := Final(p, env, ddt, checkpoint, pending, removal, blocks);
                   && Missed(fin) >= 0
                   && r.totalAlloc - r.totalFound ==
                        |AllBytes(fin.trees)| - Missed(fin) + (classAlloc - |AllBytes(TreesAt(p, SM_ALLOC, 0))|)
    // the sums tell whether anything is left unclaimed exactly when no claim missed anything, or
    // when bytes are left and not just as many as were missed
    ensures ok && classAlloc == |AllBytes(TreesAt(p, SM_ALLOC, 0))| ==>
              var fin := Final(p, env, ddt, checkpoint, pending, removal, blocks);
              (r.totalFound == r.totalAlloc <==> AllBytes(fin.trees) == {}) <==>
              Missed(fin) == 0 || (AllBytes(fin.trees) != {} && |AllBytes(fin.trees)| != Missed(fin))
    ensures ok ==> (r.leaks <==>
                      || r.totalFound != r.totalAlloc
                      || TooFewPointers(env, ddt, pending + blocks)
                      || AllBytes(Final(p, env, ddt, checkpoint, pending, removal, blocks).trees) != {})
    // on the input alone: nothing fails exactly when all that is to be claimed is allocated and
    // apart; then the sums match exactly when that is all there is
    ensures ok && ClaimsSucceed(p, env, ddt, checkpoint, pending, removal, blocks) <==>
            PoolAllThere(p, env, ddt, checkpoint, pending, removal, blocks)
    ensures PoolAllThere(p, env, ddt, checkpoint, pending, removal, blocks) &&
            classAlloc == |AllBytes(TreesAt(p, SM_ALLOC, 0))| ==>
              var all := AllBytes(TreesAt(p, SM_ALLOC, |p.log|));
              var wanted := WantedBytes(p, env, ddt, checkpoint, pending, removal, blocks);
              && (r.totalFound == r.totalAlloc <==> all == wanted)
              && (r.leaks <==> all != wanted || TooFewPointers(env, ddt, pending + blocks))
  {
    ok, r := SumUp(p, env, ddt, classAlloc, checkpoint, pending, removal, blocks);
    if ok {
      LeftOverIff(env, ddt, TreesAt(p, SM_ALLOC, |p.log|), checkpoint, pending, RemovalExtents(p, removal).value, blocks,
                  Final(p, env, ddt, checkpoint, pending, removal, blocks));
    }
    SucceedsIff(p, env, ddt, checkpoint, pending, removal, blocks);
    if PoolAllThere(p, env, ddt, checkpoint, pending, removal, blocks) {
      WhatIsLeft(p, env, ddt, checkpoint, pending, removal, blocks);
      SumsAreRight(r, AllBytes(TreesAt(p, SM_ALLOC, |p.log|)), WantedBytes(p, env, ddt, checkpoint, pending, removal, blocks),
                   AllBytes(Final(p, env, ddt, checkpoint, pending, removal, blocks).trees),
                   classAlloc - |AllBytes(TreesAt(p, SM_ALLOC, 0))|, TooFewPointers(env, ddt, pending + blocks));
    }
  }

  /** Where nothing was missed, the report follows from what is left. */
  lemma SumsAreRight(r: Report, all: set<(Key, nat)>, wanted: set<(Key, nat)>, left: set<(Key, nat)>, off: int, few: bool)
    requires wanted <= all && left == all - wanted && r.totalAlloc - r.totalFound == |left| + off
    requires r.leaks <==> r.totalFound != r.totalAlloc || few || left != {}
    ensures off == 0 ==> (r.totalFound == r.totalAlloc <==> all == wanted) && (r.leaks <==> all != wanted || few)
  {
    assert left == {} <==> all == wanted;
  }

  /** Load, traverse, and compare. */
  method SumUp(p: Pool, env: Env, ddt: map<Slot, nat>, classAlloc: nat,
               checkpoint: seq<Dva>, pending: seq<Bp>, removal: Option<Removing>, blocks: seq<Bp>)
    returns (ok: bool, r: Report)
    requires WellFormed(p) && env.leakTracking && RemovalOk(p, removal)
    ensures ok <==> Completes(p, env, ddt, checkpoint, pending, removal, blocks)
    ensures ok ==> var fin := Final(p, env, ddt, checkpoint, pending, removal, blocks);
                   && Missed(fin) >= 0
                   && (AllBytes(fin.trees) == {} <==> |AllBytes(fin.trees)| == 0)
                   && r.totalAlloc - r.totalFound ==
                        |AllBytes(fin.trees)| - Missed(fin) + (classAlloc - |AllBytes(TreesAt(p, SM_ALLOC, 0))|)
                   && (r.leaks <==> r.totalFound != r.totalAlloc || LeftOver(env, fin))
    ensures ok && classAlloc == |AllBytes(TreesAt(p, SM_ALLOC, 0))| ==>
              var fin := Final(p, env, ddt, checkpoint, pending, removal, blocks);
              (r.totalFound == r.totalAlloc <==> AllBytes(fin.trees) == {}) <==>
              Missed(fin) == 0 || (AllBytes(fin.trees) != {} && |AllBytes(fin.trees)| != Missed(fin))
  {
    r := Report(0, 0, false);
    var trees;
    ok, trees := LoadConcreteTrees(p, SM_ALLOC);
    if !ok {
      return;
    }
    TreesAreUnique(p, SM_ALLOC, trees, |p.log|);
    var removing;
    ok, removing := FindRemoval(p, removal);
    if !ok {
      return;
    }
    var zcb, otherSize;
    ok, zcb, otherSize := Traverse(env, ddt, trees, checkpoint, pending, removing, blocks);
    if !ok {
      return;
    }
    var unflushed := CountUnflushed(p);
    var totalFound := zcb.asize - zcb.dedupAsize - zcb.cloneAsize + otherSize;
    var totalAlloc := classAlloc + unflushed;
    FlushedTrees(p);
    Verdict(p, env, ddt, trees, TreesAt(p, SM_ALLOC, 0), checkpoint, pending, removing, blocks, zcb.Value());
    var left := LeakFini(zcb);
    r := Report(totalAlloc, totalFound, left || totalFound != totalAlloc);
  }

  /** zdb_leak_fini: walk the clone table, the looked-up DDT entries and the trees. */
  method LeakFini(zcb: Zcb) returns (leaks: bool)
    ensures leaks <==> LeftOver(zcb.env, zcb.Value())
  {
    leaks := false;
    if zcb.env.brtActive {
      var keys := zcb.brt.Keys;
      while keys != {}
        invariant keys <= zcb.brt.Keys
        invariant leaks <==> exists k :: k in zcb.brt && k !in keys && zcb.brt[k] > 0
        decreases keys
      {
        var k :| k in keys;
        if zcb.brt[k] != 0 { leaks := true; }
        keys := keys - {k};
      }
    }
    ghost var brtLeaks := leaks;
    var slots := zcb.refs.Keys;
    while slots != {}
      invariant slots <= zcb.refs.Keys
      invariant leaks <==> (brtLeaks ||
                  exists slot :: slot in zcb.refs && slot !in slots && slot.0 in zcb.looked && zcb.refs[slot] > 0)
      decreases slots
    {
      var slot :| slot in slots;
      if slot.0 in zcb.looked && zcb.refs[slot] != 0 { leaks := true; }
      slots := slots - {slot};
    }
    ghost var refLeaks := leaks;
    var ms := zcb.trees.Keys;
    while ms != {}
      invariant ms <= zcb.trees.Keys
      invariant leaks <==> refLeaks || exists k :: k in zcb.trees && k !in ms && zcb.trees[k] != {}
      decreases ms
    {
      var k :| k in ms;
      if zcb.trees[k] != {} { leaks := true; }
      ms := ms - {k};
    }
  }

  /** The trees that the space maps alone would give. */
  lemma FlushedTrees(p: Pool)
    requires Loads(p, SM_ALLOC, |p.log|)
    ensures TreesAre(p, SM_ALLOC, TreesAt(p, SM_ALLOC, 0), 0)
  {
    if !Loads(p, SM_ALLOC, 0) {
      FailsForGood(p, SM_ALLOC, 0);
    }
  }

  /** The size that is compared is that of the statistics' cell of totals. */
  lemma {:induction false} AsizeIsTotalCell(env: Env, s: State, bps: seq<Bp>,
                                            t: BlockStatistics.Table, types: nat, vs: seq<BlockStatistics.Visit>)
    requires |vs| == |bps|
    requires forall i :: 0 <= i < |vs| ==> vs[i].level < BlockStatistics.ZB_TOTAL && vs[i].ty < types
    requires forall i :: 0 <= i < |vs| ==> vs[i].cell.asize == Asize(Filled(env, bps[i]))
    ensures CountAll(env, s, bps).asize - s.asize ==
            BlockStatistics.At(BlockStatistics.CountedAll(t, types, vs), BlockStatistics.ZB_TOTAL, types).asize
            - BlockStatistics.At(t, BlockStatistics.ZB_TOTAL, types).asize
  {
    BlockStatistics.TotalCell(t, types, vs);
    AsizeIsSum(env, s, bps, vs);
  }

  lemma {:induction false} AsizeIsSum(env: Env, s: State, bps: seq<Bp>, vs: seq<BlockStatistics.Visit>)
    requires |vs| == |bps|
    requires forall i :: 0 <= i < |vs| ==> vs[i].cell.asize == Asize(Filled(env, bps[i]))
    ensures CountAll(env, s, bps).asize == s.asize + BlockStatistics.SumCells(vs).asize
  {
    if bps != [] {
      AsizeIsSum(env, s, bps[..|bps| - 1], vs[..|vs| - 1]);
    }
  }

  // ----- every byte is claimed once

  /** The bytes that each claim takes, in order. */
  ghost function ClaimedSets(env: Env, s: State, bps: seq<Bp>): seq<set<(Key, nat)>> {
    if bps == [] then []
    else
      var t := CountAll(env, s, bps[..|bps| - 1]);
      var bp := bps[|bps| - 1];
      var b := Filled(env, bp);
      ClaimedSets(env, s, bps[..|bps| - 1]) +
      (if NeedsClaim(env, t, bp) && AllClaimable(env, t.trees, b.dvas) then [PassBytes(env, t.trees, b.dvas)] else [])
  }

  ghost predicate InSome(x: (Key, nat), sets: seq<set<(Key, nat)>>) {
    exists i :: 0 <= i < |sets| && x in sets[i]
  }

  ghost predicate PairwiseDisjoint(sets: seq<set<(Key, nat)>>) {
    forall i, j :: 0 <= i < j < |sets| ==> sets[i] !! sets[j]
  }

  /** The bytes that disappear from the trees are partitioned among the claims. */
  lemma {:induction false} ClaimsPartition(env: Env, s: State, bps: seq<Bp>)
    ensures PairwiseDisjoint(ClaimedSets(env, s, bps))
    ensures AllBytes(CountAll(env, s, bps).trees) <= AllBytes(s.trees)
    ensures forall x :: InSome(x, ClaimedSets(env, s, bps)) <==>
              x in AllBytes(s.trees) && x !in AllBytes(CountAll(env, s, bps).trees)
  {
    if bps != [] {
      var front, bp := bps[..|bps| - 1], bps[|bps| - 1];
      var t := CountAll(env, s, front);
      var b := Filled(env, bp);
      ClaimsPartition(env, s, front);
      if NeedsClaim(env, t, bp) && AllClaimable(env, t.trees, b.dvas) {
        PassTakesBytes(env, t.trees, b.dvas);
        OneMoreSet(ClaimedSets(env, s, front), PassBytes(env, t.trees, b.dvas), AllBytes(s.trees), AllBytes(t.trees));
      } else {
        assert ClaimedSets(env, s, bps) == ClaimedSets(env, s, front);
      }
    }
  }

  lemma OneMoreSet(sets: seq<set<(Key, nat)>>, r: set<(Key, nat)>, whole: set<(Key, nat)>, left: set<(Key, nat)>)
    requires PairwiseDisjoint(sets) && left <= whole && r <= left
    requires forall x :: InSome(x, sets) <==> x in whole && x !in left
    ensures PairwiseDisjoint(sets + [r])
    ensures forall x :: InSome(x, sets + [r]) <==> x in whole && x !in left - r
  {
    var more := sets + [r];
    forall i, j | 0 <= i < j < |more|
      ensures more[i] !! more[j]
    {
      if j == |sets| {
        forall x | x in sets[i]
          ensures x !in r
        {
          assert InSome(x, sets);
        }
      }
    }
    forall x
      ensures InSome(x, more) <==> x in whole && x !in left - r
    {
      if InSome(x, more) {
        var i :| 0 <= i < |more| && x in more[i];
        if i < |sets| { assert InSome(x, sets); }
      }
      if InSome(x, sets) {
        var i :| 0 <= i < |sets| && x in sets[i];
        assert x in more[i];
      }
      if x in r {
        assert x in more[|sets|];
      }
    }
  }

  /**
    The totals alone can mislead: one byte leaked, another byte claimed that was never
    allocated, and the sums still match.
    */
  lemma SumsCanMatchByAccident()
    ensures var env := Env([2], map[], false, {}, map[], true);
            var loaded: Trees := map[(0, 0) := {0}];
            var bad := Bp((0, 1), [Dva(0, 1, 1)], false, NotDedup);
            var run := Run(env, map[], loaded, [], [], [], [bad]);
            && run.Some?
            && run.value.asize - run.value.dedupAsize - run.value.cloneAsize == |AllBytes(loaded)|
            && run.value.trees == loaded
  {
    var env := Env([2], map[], false, {}, map[], true);
    var loaded: Trees := map[(0, 0) := {0}];
    var bad := Bp((0, 1), [Dva(0, 1, 1)], false, NotDedup);
    var s := Initial(map[], loaded);
    assert [bad][..0] == [];
    assert CountAll(env, s, [bad]) == Count(env, CountAll(env, s, []), bad);
    assert 1 in Span(1, 1) && !Claimable(env, loaded, bad.dvas[0]);
    assert bad.dvas[1..] == [];
    assert SumAsize(bad.dvas) == 1 + SumAsize([]);
    assert AllBytes(loaded) == {((0, 0), 0)};
  }

  // ----- a consistent pool

  /** What is set aside and what the pointers name, in the order of the traversal or one after the other. */
  lemma SetAsideFirst(env: Env, ddt: map<Slot, nat>, loaded: Trees, checkpoint: seq<Dva>,
                      pending: seq<Bp>, removing: seq<Dva>, blocks: seq<Bp>)
    ensures var aside := Pass(env, loaded, checkpoint + removing);
            var list := Wanted(env, ddt, checkpoint, pending, removing, blocks);
            var sent := Sent(env, Initial(ddt, aside.trees), pending + blocks);
            && (Pass(env, loaded, list).ok <==> aside.ok && Pass(env, aside.trees, sent).ok)
            && BpBytes(env, list) == BpBytes(env, checkpoint + removing) + BpBytes(env, sent)
  {
    var aside := Pass(env, loaded, checkpoint + removing);
    var s := Initial(ddt, map[]);
    var a, b := Sent(env, s, pending), Sent(env, CountAll(env, s, pending), blocks);
    SentIgnoresTrees(env, s, Initial(ddt, aside.trees), pending + blocks);
    SentConcat(env, s, pending, blocks);
    SwapParts(env, loaded, checkpoint, a, removing, b);
    PassConcat(env, loaded, checkpoint + removing, a + b);
  }

  /**
    What is set aside for the checkpoint and the removal is there, and the pointers are
    consistent with the rest: then no claim fails, and what zdb finds unclaimed is exactly
    what is neither set aside nor referred to by any pointer.
    */
  lemma ConsistentVerdict(env: Env, ddt: map<Slot, nat>, loaded: Trees, checkpoint: seq<Dva>,
                          pending: seq<Bp>, removing: seq<Dva>, blocks: seq<Bp>)
    requires env.leakTracking && Pass(env, loaded, checkpoint + removing).ok
    requires Consistent(env, ddt, Pass(env, loaded, checkpoint + removing).trees, pending + blocks)
    ensures AllThere(env, ddt, loaded, checkpoint, pending, removing, blocks)
    ensures var run := Run(env, ddt, loaded, checkpoint, pending, removing, blocks);
            && run.Some? && Missed(run.value) == 0
            && AllBytes(run.value.trees) ==
                 AllBytes(loaded) - BpBytes(env, checkpoint + removing) - Referenced(env, pending + blocks)
  {
    var aside := Pass(env, loaded, checkpoint + removing);
    var list := Wanted(env, ddt, checkpoint, pending, removing, blocks);
    SetAsideFirst(env, ddt, loaded, checkpoint, pending, removing, blocks);
    ConsistentSent(env, ddt, aside.trees, pending + blocks);
    PassOkIff(env, loaded, list);
    NoneFailsIff(env, ddt, loaded, checkpoint, pending, removing, blocks);
    PassTakesBytes(env, loaded, checkpoint + removing);
    PassSums(env, loaded, checkpoint + removing);
  }

  /** In a consistent pool what is sent can be claimed, and leaves what no pointer names. */
  lemma ConsistentSent(env: Env, ddt: map<Slot, nat>, trees: Trees, bps: seq<Bp>)
    requires env.leakTracking && Consistent(env, ddt, trees, bps)
    ensures var sent := Sent(env, Initial(ddt, trees), bps);
            Pass(env, trees, sent).ok && AllBytes(trees) - BpBytes(env, sent) == AllBytes(trees) - Referenced(env, bps)
  {
    var s := Initial(ddt, trees);
    assert bps[..|bps|] == bps;
    ConsistentIsClaimed(env, ddt, trees, bps, |bps|);
    SentIsClaimed(env, s, bps);
    LeakedIsUnreferenced(env, ddt, trees, bps, |bps|);
    PassTakesBytes(env, trees, Sent(env, s, bps));
    PassSums(env, trees, Sent(env, s, bps));
  }

  /** In pool p: the sums match exactly when every allocated byte is set aside or referred to. */
  lemma ConsistentPoolIsRight(p: Pool, env: Env, ddt: map<Slot, nat>, checkpoint: seq<Dva>,
                              pending: seq<Bp>, removal: Option<Removing>, blocks: seq<Bp>)
    requires env.leakTracking && RemovalOk(p, removal)
    requires Loads(p, SM_ALLOC, |p.log|) && RemovalExtents(p, removal).Some?
    requires var aside := Pass(env, TreesAt(p, SM_ALLOC, |p.log|), checkpoint + RemovalExtents(p, removal).value);
             aside.ok && Consistent(env, ddt, aside.trees, pending + blocks)
    ensures PoolAllThere(p, env, ddt, checkpoint, pending, removal, blocks)
    ensures var all := AllBytes(TreesAt(p, SM_ALLOC, |p.log|));
            all == WantedBytes(p, env, ddt, checkpoint, pending, removal, blocks) <==>
            all <= BpBytes(env, checkpoint + RemovalExtents(p, removal).value) + Referenced(env, pending + blocks)
  {
    ConsistentWanted(env, ddt, TreesAt(p, SM_ALLOC, |p.log|), checkpoint, pending,
                     RemovalExtents(p, removal).value, blocks);
  }

  lemma ConsistentWanted(env: Env, ddt: map<Slot, nat>, loaded: Trees, checkpoint: seq<Dva>,
                         pending: seq<Bp>, removing: seq<Dva>, blocks: seq<Bp>)
    requires env.leakTracking && Pass(env, loaded, checkpoint + removing).ok
    requires Consistent(env, ddt, Pass(env, loaded, checkpoint + removing).trees, pending + blocks)
    ensures AllThere(env, ddt, loaded, checkpoint, pending, removing, blocks)
    ensures AllBytes(loaded) == BpBytes(env, Wanted(env, ddt, checkpoint, pending, removing, blocks)) <==>
            AllBytes(loaded) <= BpBytes(env, checkpoint + removing) + Referenced(env, pending + blocks)
  {
    ConsistentVerdict(env, ddt, loaded, checkpoint, pending, removing, blocks);
    NoneFailsIff(env, ddt, loaded, checkpoint, pending, removing, blocks);
    SubsetByDifference(AllBytes(loaded), BpBytes(env, Wanted(env, ddt, checkpoint, pending, removing, blocks)),
                       BpBytes(env, checkpoint + removing), Referenced(env, pending + blocks));
  }

  lemma SubsetByDifference(all: set<(Key, nat)>, wanted: set<(Key, nat)>, aside: set<(Key, nat)>, named: set<(Key, nat)>)
    requires wanted <= all && all - wanted == all - aside - named
    ensures all == wanted <==> all <= aside + named
  {
    if all <= aside + named {
      forall x | x in all
        ensures x in wanted
      {
        assert x !in all - aside - named;
      }
    }
    if all == wanted {
      forall x | x in all
        ensures x in aside + named
      {
        assert x !in all - wanted;
      }
    }
  }
}
