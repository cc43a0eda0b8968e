/**
  zdb's check that nothing the checkpoint needs has been freed: the checkpoint's trees are
  loaded as allocated, the current ones as free, and no segment of the first may be found
  in the second. A segment is "found" only when one free segment covers all of it.
  */
module CheckpointCheck {
  import opened Ranges
  import opened RangeTrees
  import opened SpaceMapReplay

  /** [a.start, a.end) is a maximal run of `t`. */
  ghost predicate IsRun(t: set<nat>, a: Seg) {
    && a.start < a.end && SegBytes(a) <= t
    && a.end !in t && (a.start > 0 ==> a.start - 1 !in t)
  }

  /** A tree's segments are the maximal runs of its set. */
  lemma SegmentsAreRuns(segs: seq<Seg>, t: set<nat>, a: Seg)
    requires Denotes(segs, t)
    ensures IsRun(t, a) <==> a in segs
  {
    if IsRun(t, a) {
      assert a.start in SegBytes(a) && Covers(segs, a.start);
      var i :| 0 <= i < |segs| && segs[i].start <= a.start < segs[i].end;
      SegmentAt(segs, t, i);
      assert a.end !in SegBytes(segs[i]) && segs[i].end !in SegBytes(a);
      assert a.start > 0 ==> a.start - 1 !in SegBytes(segs[i]);
      assert segs[i] == a;
    }
    if a in segs {
      var i :| 0 <= i < |segs| && segs[i] == a;
      SegmentAt(segs, t, i);
    }
  }

  /** No maximal run of the checkpoint's space is wholly free now. */
  ghost predicate Passes(held: set<nat>, free: set<nat>) {
    forall a :: IsRun(held, a) ==> !(SegBytes(a) <= free)
  }

  /** zfs_range_tree_walk over the checkpoint's tree with zfs_range_tree_verify_not_present. */
  method VerifyMetaslab(ckpoint: RangeTree, current: RangeTree) returns (ok: bool)
    requires ckpoint.Valid() && current.Valid()
    ensures ok <==> Passes(ckpoint.contents, current.contents)
  {
    var segs := ckpoint.segs;
    for i := 0 to |segs|
      invariant segs == ckpoint.segs
      invariant forall j :: 0 <= j < i ==> !(SegBytes(segs[j]) <= current.contents)
    {
      var present := current.Contains(segs[i].start, segs[i].end - segs[i].start);
      if present {
        SegmentsAreRuns(segs, ckpoint.contents, segs[i]);
        return false;
      }
    }
    forall a | IsRun(ckpoint.contents, a)
      ensures !(SegBytes(a) <= current.contents)
    {
      SegmentsAreRuns(segs, ckpoint.contents, a);
    }
    return true;
  }

  // ----- what the check decides

  /** The maximal run around an offset of a finite set. */
  lemma RunAround(t: set<nat>, x: nat) returns (a: Seg)
    requires x in t
    ensures IsRun(t, a) && a.start <= x < a.end
  {
    var lo: nat := x;
    while lo > 0 && lo - 1 in t
      invariant lo <= x && SegBytes(Seg(lo, x + 1)) <= t
    {
      lo := lo - 1;
    }
    var hi := x + 1;
    var rest := t;
    while hi in t
      invariant x < hi && SegBytes(Seg(lo, hi)) <= t
      invariant rest <= t && forall y :: hi <= y && y in t ==> y in rest
      decreases rest
    {
      rest := rest - {hi};
      hi := hi + 1;
    }
    a := Seg(lo, hi);
  }

  /** Space that is still allocated never fails the check. */
  lemma IntactPasses(held: set<nat>, free: set<nat>)
    requires held !! free
    ensures Passes(held, free)
  {
    forall a | IsRun(held, a)
      ensures !(SegBytes(a) <= free)
    {
      assert a.start in SegBytes(a);
    }
  }

  /** A run that was freed in part slips through. */
  lemma PartialFreeSlipsThrough()
    ensures Passes({0, 1}, {1}) && !({0, 1} !! {1})
  {
    forall a | IsRun({0, 1}, a)
      ensures !(SegBytes(a) <= {1})
    {
      assert a.start in SegBytes(a);
      assert 0 in SegBytes(a);
    }
    assert 1 in {0, 1} && 1 in {1};
  }

  /** Neither wholly free nor wholly allocated. */
  ghost predicate Mixed(a: Seg, free: set<nat>) {
    !(SegBytes(a) <= free) && !(SegBytes(a) !! free)
  }

  /** The verdict is right exactly when some run is wholly free, or no run is mixed. */
  lemma VerdictRightIff(held: set<nat>, free: set<nat>)
    ensures (Passes(held, free) <==> held !! free) <==>
            (exists a :: IsRun(held, a) && SegBytes(a) <= free) ||
            (forall a :: IsRun(held, a) ==> !Mixed(a, free))
  {
    if held !! free {
      IntactPasses(held, free);
      forall a | IsRun(held, a)
        ensures !Mixed(a, free)
      {
        assert SegBytes(a) !! free;
      }
    } else {
      var x :| x in held && x in free;
      var a := RunAround(held, x);
      assert x in SegBytes(a);
      if Passes(held, free) {
        assert Mixed(a, free);
      }
    }
  }

  /** For one run: its answer is right exactly when the run is not free in part only. */
  lemma RunVerdictRightIff(a: Seg, free: set<nat>)
    requires a.start < a.end
    ensures (SegBytes(a) <= free <==> !(SegBytes(a) !! free)) <==> !Mixed(a, free)
  {
    assert a.start in SegBytes(a);
  }

  // ----- the whole pool

  /** The segment tree of a loaded set. */
  method TreeOf(t: set<nat>) returns (tree: RangeTree)
    ensures fresh(tree) && tree.Valid() && tree.contents == t
  {
    tree := new RangeTree();
    var rest := t;
    while rest != {}
      invariant fresh(tree) && tree.Valid() && rest <= t && tree.contents == t - rest
      decreases rest
    {
      var x :| x in rest;
      assert Span(x, 1) == {x};
      var added := tree.Add(x, 1);
      rest := rest - {x};
    }
  }

  method VerifyTrees(held: set<nat>, free: set<nat>) returns (ok: bool)
    ensures ok <==> Passes(held, free)
  {
    var ckpoint := TreeOf(held);
    var current := TreeOf(free);
    ok := VerifyMetaslab(ckpoint, current);
  }

  /** Every concrete vdev of the checkpoint is still there, with its metaslabs. */
  ghost predicate Survives(ck: Pool, cur: Pool) {
    forall k: Key :: IsKey(ck, k) ==> IsKey(cur, k)
  }

  /** No metaslab's check fails. */
  ghost predicate PoolPasses(ck: Pool, held: Trees, free: Trees) {
    forall k: Key :: IsKey(ck, k) && k in held && k in free ==> Passes(held[k], free[k])
  }

  /** The loops below verify_checkpoint_ms_spacemaps' loads. */
  method WalkPool(ck: Pool, held: Trees, free: Trees) returns (ok: bool)
    requires forall k: Key :: IsKey(ck, k) ==> k in held && k in free
    ensures ok <==> PoolPasses(ck, held, free)
  {
    for v := 0 to |ck.vdevs|
      invariant forall k: Key :: IsKey(ck, k) && k.0 < v ==> Passes(held[k], free[k])
    {
      if ck.vdevs[v].concrete {
        for m := 0 to |ck.vdevs[v].ms|
          invariant forall k: Key :: IsKey(ck, k) && (k.0 < v || (k.0 == v && k.1 < m)) ==> Passes(held[k], free[k])
        {
          assert IsKey(ck, (v, m));
          ok := VerifyTrees(held[(v, m)], free[(v, m)]);
          if !ok {
            return;
          }
        }
      }
    }
    return true;
  }

  /** verify_checkpoint_ms_spacemaps: `loaded` is false where a load would abort. */
  method VerifyPool(ck: Pool, cur: Pool) returns (loaded: bool, ok: bool)
    requires WellFormed(ck) && WellFormed(cur) && Survives(ck, cur)
    ensures loaded <==> Loads(ck, SM_ALLOC, |ck.log|) && Loads(cur, SM_FREE, |cur.log|)
    ensures loaded ==>
              (ok <==> PoolPasses(ck, TreesAt(ck, SM_ALLOC, |ck.log|), TreesAt(cur, SM_FREE, |cur.log|)))
  {
    var held, free;
    ok := false;
    loaded, held := LoadConcreteTrees(ck, SM_ALLOC);
    if !loaded {
      return;
    }
    loaded, free := LoadConcreteTrees(cur, SM_FREE);
    if !loaded {
      return;
    }
    TreesAreUnique(ck, SM_ALLOC, held, |ck.log|);
    TreesAreUnique(cur, SM_FREE, free, |cur.log|);
    ok := WalkPool(ck, held, free);
  }

  /** In terms of the two histories: every run the checkpoint holds must keep an allocated byte. */
  lemma CheckOverHistories(
    ck: Pool, ckHistory: seq<Entry>, cur: Pool, curHistory: seq<Entry>, k: Key,
    then': set<nat>, now: set<nat>, free: set<nat>)
    requires IsKey(ck, k) && SortedByTxg(ckHistory) && Records(ck, ckHistory, k)
    requires IsKey(cur, k) && SortedByTxg(curHistory) && Records(cur, curHistory, k)
    requires cur.vdevs[k.0].msSize > 0 && EntriesInside(cur, k)
    requires Replay(SM_ALLOC, Some({}), HistoryOf(ck, ckHistory, k)) == Some(then')
    requires Replay(SM_ALLOC, Some({}), HistoryOf(cur, curHistory, k)) == Some(now)
    requires then' <= KeySpan(cur, k)
    requires Loaded(cur, SM_FREE, k, |cur.log|) == Some(free)
    ensures Loaded(ck, SM_ALLOC, k, |ck.log|) == Some(then')
    // a metaslab that never had a space map is taken to have nothing free, and always passes
    ensures Passes(then', free) <==>
            MetaslabOf(cur, k).sm.None? || forall a :: IsRun(then', a) ==> !(SegBytes(a) !! now)
    ensures then' <= now ==> Passes(then', free)
  {
    LoadedIsHistory(ck, ckHistory, k);
    LoadedIsHistory(cur, curHistory, k);
    if MetaslabOf(cur, k).sm.None? {
      EmptyLoad(cur, k);
      IntactPasses(then', free);
    } else {
      FreeIsComplementIff(cur, k);
      FreeMeansNotNow(then', now, free, KeySpan(cur, k));
    }
  }

  lemma FreeMeansNotNow(then': set<nat>, now: set<nat>, free: set<nat>, whole: set<nat>)
    requires then' <= whole && free == whole - now
    ensures Passes(then', free) <==> forall a :: IsRun(then', a) ==> !(SegBytes(a) !! now)
    ensures then' <= now ==> Passes(then', free)
  {
    forall a | IsRun(then', a)
      ensures SegBytes(a) <= free <==> SegBytes(a) !! now
    {
      assert SegBytes(a) <= whole;
    }
    if then' <= now {
      assert then' !! free;
      IntactPasses(then', free);
    }
  }

  /** Without a space map, a load as free succeeds only if it stays empty. */
  lemma EmptyLoad(p: Pool, k: Key)
    requires IsKey(p, k) && p.vdevs[k.0].msSize > 0 && EntriesInside(p, k) && MetaslabOf(p, k).sm.None?
    requires Loaded(p, SM_ALLOC, k, |p.log|).Some?
    ensures Loaded(p, SM_FREE, k, |p.log|).Some? ==> Loaded(p, SM_FREE, k, |p.log|) == Some({})
  {
    var u := Unflushed(p, p.log, k);
    UnflushedIsSince(p, p.log, k);
    assert p.log[..|p.log|] == p.log;
    if u != [] {
      assert u[0].offset in Span(u[0].offset, u[0].run);
      assert Loaded(p, SM_ALLOC, k, |p.log|) == Replay(SM_ALLOC, Apply(SM_ALLOC, {}, u[0]), u[1..]);
      assert Loaded(p, SM_FREE, k, |p.log|) == Replay(SM_FREE, Apply(SM_FREE, {}, u[0]), u[1..]);
      assert Apply(SM_ALLOC, {}, u[0]).Some?;
      assert Apply(SM_FREE, {}, u[0]).None?;
    }
  }
}
