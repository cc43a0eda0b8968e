/**
  The whole metaslab pass of zdb's livelist validation: for every metaslab of every concrete
  vdev, take the left-over ALLOCs inside it, run its space map and log entries past them, and
  report what is freed although a livelist still holds it.
  */
module LivelistCheck {
  import opened Ranges
  import opened SpaceMapReplay
  import opened LivelistTree
  import MP = MetaslabPartition

  function VdevsOf(p: Pool): seq<MP.Vdev> {
    seq(|p.vdevs|, v requires 0 <= v < |p.vdevs| =>
      MP.Vdev(p.vdevs[v].concrete, p.vdevs[v].msSize, |p.vdevs[v].ms|))
  }

  ghost predicate PositiveEntries(p: Pool) {
    forall k: Key, i :: IsKey(p, k) && 0 <= i < |EntriesOf(p, k)| ==> EntriesOf(p, k)[i].run > 0
  }

  /** Some FREE entry frees the block at or after its txg. */
  ghost predicate FreedBy(x: Svb, vdev: nat, es: seq<Entry>) {
    exists i :: 0 <= i < |es| && es[i].kind != SM_ALLOC && Freed(x, vdev, es[i].txg, es[i].offset, es[i].run)
  }

  lemma FreedByLast(x: Svb, vdev: nat, es: seq<Entry>)
    requires es != []
    ensures var e := es[|es| - 1];
            FreedBy(x, vdev, es) <==>
            FreedBy(x, vdev, es[..|es| - 1]) || (e.kind != SM_ALLOC && Freed(x, vdev, e.txg, e.offset, e.run))
  {
    var front := es[..|es| - 1];
    if FreedBy(x, vdev, front) {
      var i :| 0 <= i < |front| && front[i].kind != SM_ALLOC &&
               Freed(x, vdev, front[i].txg, front[i].offset, front[i].run);
      assert es[i] == front[i];
    }
    if FreedBy(x, vdev, es) {
      var i :| 0 <= i < |es| && es[i].kind != SM_ALLOC && Freed(x, vdev, es[i].txg, es[i].offset, es[i].run);
      assert i < |front| ==> front[i] == es[i];
    }
  }

  /** The errors of a metaslab are its ALLOCs that an entry frees. */
  lemma {:induction false} ErrorsAre(allocs: seq<Svb>, vdev: nat, es: seq<Entry>, x: Svb)
    ensures x in AllErrors(allocs, vdev, es) <==> x in allocs && FreedBy(x, vdev, es)
  {
    if es != [] {
      var e := es[|es| - 1];
      ErrorsAre(allocs, vdev, es[..|es| - 1], x);
      ScanFinds(allocs, vdev, e.txg, e.offset, e.run, x);
      FreedByLast(x, vdev, es);
    }
  }

  // ----- one metaslab

  ghost predicate ReachesEnd(p: Pool, k: Key) {
    IsKey(p, k) ==> Checked({}, EntriesOf(p, k)).Some?
  }

  ghost predicate NoComplaint(p: Pool, k: Key) {
    IsKey(p, k) ==> AllFine({}, EntriesOf(p, k))
  }

  /** The block lies in metaslab k, and an entry of that metaslab frees it. */
  ghost predicate FreedAt(p: Pool, x: Svb, k: Key) {
    IsKey(p, k) && MP.FitsMs(VdevsOf(p), x, k) && FreedBy(x, k.0, EntriesOf(p, k))
  }

  method CheckMetaslab(p: Pool, k: Key, left: seq<Svb>)
    returns (ok: bool, clean: bool, freed: set<Svb>, allocs: seq<Svb>, rest: seq<Svb>, crossing: set<Svb>)
    requires IsKey(p, k) && PositiveEntries(p) && Sorted(left)
    ensures Sorted(allocs) && Sorted(rest)
    ensures forall x :: x in allocs <==> x in left && MP.FitsMs(VdevsOf(p), x, k)
    ensures forall x :: x in rest <==> x in left && !MP.FitsMs(VdevsOf(p), x, k)
    ensures forall x :: x in crossing <==> x in left && MP.CrossesMs(VdevsOf(p), x, k)
    ensures ok <==> ReachesEnd(p, k)
    ensures ok ==> (clean <==> NoComplaint(p, k))
    ensures ok ==> forall x :: x in freed <==> x in left && FreedAt(p, x, k)
  {
    var size := p.vdevs[k.0].msSize;
    allocs, rest, crossing := MP.Populate(left, k.0, k.1 * size, k.1 * size + size);
    assert MP.IsMs(VdevsOf(p), k);
    var errors, tree;
    ok, clean, errors, tree := ValidateAll(allocs, k.0, EntriesOf(p, k));
    freed := set x | x in errors;
    forall x: Svb
      ensures x in AllErrors(allocs, k.0, EntriesOf(p, k)) <==> x in left && FreedAt(p, x, k)
    {
      ErrorsAre(allocs, k.0, EntriesOf(p, k), x);
    }
  }

  // ----- all metaslabs

  /** What has been said once the loops stand at (v, m). */
  ghost predicate Told(p: Pool, left: seq<Svb>, v: nat, m: nat, clean: bool, freed: set<Svb>) {
    && (forall k: Key :: MP.Passed(k, v, m) ==> ReachesEnd(p, k))
    && (clean <==> forall k: Key :: MP.Passed(k, v, m) ==> NoComplaint(p, k))
    && (forall x :: x in freed <==> x in left && exists k: Key :: MP.Passed(k, v, m) && FreedAt(p, x, k))
  }

  /** A block that fits a metaslab has not been taken by another one. */
  lemma StillThere(p: Pool, left: seq<Svb>, v: nat, m: nat,
                   moved: map<Key, seq<Svb>>, crossing: set<Svb>, rest: seq<Svb>, x: Svb)
    requires MP.Done(VdevsOf(p), left, v, m, moved, crossing, rest) && x in left && FreedAt(p, x, (v, m))
    ensures x in rest
  {
    forall j: Key | MP.Passed(j, v, m)
      ensures !MP.FitsMs(VdevsOf(p), x, j)
    {
      if MP.FitsMs(VdevsOf(p), x, j) { MP.OneMetaslab(VdevsOf(p), x, j, (v, m)); }
    }
  }

  lemma ToldStep(p: Pool, left: seq<Svb>, v: nat, m: nat,
                 moved: map<Key, seq<Svb>>, crossing: set<Svb>, rest: seq<Svb>,
                 clean: bool, freed: set<Svb>, clean': bool, freed': set<Svb>)
    requires MP.Done(VdevsOf(p), left, v, m, moved, crossing, rest) && Told(p, left, v, m, clean, freed)
    requires ReachesEnd(p, (v, m)) && (clean' <==> NoComplaint(p, (v, m)))
    requires forall x :: x in freed' <==> x in rest && FreedAt(p, x, (v, m))
    ensures Told(p, left, v, m + 1, clean && clean', freed + freed')
  {
    MP.PassedStep(VdevsOf(p), v, m);
    forall x
      ensures x in freed + freed' <==> x in left && exists k: Key :: MP.Passed(k, v, m + 1) && FreedAt(p, x, k)
    {
      if x in left && FreedAt(p, x, (v, m)) {
        StillThere(p, left, v, m, moved, crossing, rest, x);
        assert MP.Passed((v, m), v, m + 1);
      }
    }
  }

  lemma ToldNextVdev(p: Pool, left: seq<Svb>, v: nat, clean: bool, freed: set<Svb>)
    requires v < |p.vdevs| && Told(p, left, v, if p.vdevs[v].concrete then |p.vdevs[v].ms| else 0, clean, freed)
    ensures Told(p, left, v + 1, 0, clean, freed)
  {
    var m := if p.vdevs[v].concrete then |p.vdevs[v].ms| else 0;
    forall k: Key | IsKey(p, k)
      ensures MP.Passed(k, v, m) <==> MP.Passed(k, v + 1, 0)
    {
    }
  }

  /** What has been moved, reported and kept, and what has been said. */
  ghost predicate At(p: Pool, left: seq<Svb>, v: nat, m: nat, moved: map<Key, seq<Svb>>, now: Progress) {
    && MP.Done(VdevsOf(p), left, v, m, moved, now.crossing, now.rest)
    && Told(p, left, v, m, now.clean, now.freed)
  }

  datatype Progress = Progress(clean: bool, freed: set<Svb>, crossing: set<Svb>, rest: seq<Svb>)

  /** One turn of the inner loop. */
  method NextMetaslab(p: Pool, ghost left: seq<Svb>, v: nat, m: nat, ghost moved: map<Key, seq<Svb>>, now: Progress)
    returns (ok: bool, next: Progress, ghost moved': map<Key, seq<Svb>>)
    requires IsKey(p, (v, m)) && PositiveEntries(p) && At(p, left, v, m, moved, now)
    ensures ok <==> ReachesEnd(p, (v, m))
    ensures ok ==> At(p, left, v, m + 1, moved', next)
  {
    var clean, freed, allocs, rest, crossing;
    ok, clean, freed, allocs, rest, crossing := CheckMetaslab(p, (v, m), now.rest);
    next, moved' := now, moved;
    if ok {
      ToldStep(p, left, v, m, moved, now.crossing, now.rest, now.clean, now.freed, clean, freed);
      MP.DoneStep(VdevsOf(p), left, v, m, moved, now.crossing, now.rest, allocs, rest, crossing);
      next := Progress(now.clean && clean, now.freed + freed, now.crossing + crossing, rest);
      moved' := moved[(v, m) := allocs];
    }
  }

  lemma AtNextVdev(p: Pool, left: seq<Svb>, v: nat, moved: map<Key, seq<Svb>>, now: Progress)
    requires v < |p.vdevs|
    requires At(p, left, v, if p.vdevs[v].concrete then |p.vdevs[v].ms| else 0, moved, now)
    ensures At(p, left, v + 1, 0, moved, now)
  {
    ToldNextVdev(p, left, v, now.clean, now.freed);
    MP.NextVdev(VdevsOf(p), left, v, moved, now.crossing, now.rest);
  }

  lemma AtStart(p: Pool, left: seq<Svb>)
    requires Sorted(left)
    ensures At(p, left, 0, 0, map[], Progress(true, {}, {}, left))
  {
  }

  /** The inner loop; `bad` is the metaslab at which it aborts. */
  method WalkVdev(p: Pool, ghost left: seq<Svb>, v: nat, ghost moved: map<Key, seq<Svb>>, now: Progress)
    returns (ok: bool, next: Progress, ghost moved': map<Key, seq<Svb>>, ghost bad: Key)
    requires v < |p.vdevs| && PositiveEntries(p) && At(p, left, v, 0, moved, now)
    ensures ok ==> At(p, left, v + 1, 0, moved', next)
    ensures !ok ==> !ReachesEnd(p, bad)
  {
    ok, next, moved', bad := true, now, moved, (v, 0);
    if p.vdevs[v].concrete {
      var m := 0;
      while m < |p.vdevs[v].ms| && ok
        invariant m <= |p.vdevs[v].ms|
        invariant if ok then At(p, left, v, m, moved', next) else !ReachesEnd(p, bad)
      {
        bad := (v, m);
        ok, next, moved' := NextMetaslab(p, left, v, m, moved', next);
        m := m + 1;
      }
    }
    if ok {
      AtNextVdev(p, left, v, moved', next);
    }
  }

  /** livelist_metaslab_validate below the livelists: `ok` is false where it would abort. */
  method ValidatePool(p: Pool, left: seq<Svb>)
    returns (ok: bool, end: Progress, ghost moved: map<Key, seq<Svb>>)
    requires PositiveEntries(p) && Sorted(left)
    ensures ok <==> forall k: Key :: ReachesEnd(p, k)
    ensures ok ==> (end.clean <==> forall k: Key :: NoComplaint(p, k))
    ensures ok ==> forall x :: x in end.freed <==> x in left && exists k: Key :: FreedAt(p, x, k)
    ensures ok ==> MP.Done(VdevsOf(p), left, |p.vdevs|, 0, moved, end.crossing, end.rest)
  {
    ghost var bad: Key;
    ok, end, moved, bad := WalkPool(p, left);
    if ok {
      AllPassed(p, left, end.clean, end.freed);
    }
  }

  method WalkPool(p: Pool, left: seq<Svb>)
    returns (ok: bool, end: Progress, ghost moved: map<Key, seq<Svb>>, ghost bad: Key)
    requires PositiveEntries(p) && Sorted(left)
    ensures if ok then At(p, left, |p.vdevs|, 0, moved, end) else !ReachesEnd(p, bad)
  {
    ok, end, moved, bad := true, Progress(true, {}, {}, left), map[], (0, 0);
    AtStart(p, left);
    var v := 0;
    while v < |p.vdevs| && ok
      invariant v <= |p.vdevs|
      invariant if ok then At(p, left, v, 0, moved, end) else !ReachesEnd(p, bad)
    {
      ok, end, moved, bad := WalkVdev(p, left, v, moved, end);
      v := v + 1;
    }
  }

  lemma AllPassed(p: Pool, left: seq<Svb>, clean: bool, freed: set<Svb>)
    requires Told(p, left, |p.vdevs|, 0, clean, freed)
    ensures forall k: Key :: ReachesEnd(p, k)
    ensures clean <==> forall k: Key :: NoComplaint(p, k)
    ensures forall x :: x in freed <==> x in left && exists k: Key :: FreedAt(p, x, k)
  {
    forall k: Key | IsKey(p, k)
      ensures MP.Passed(k, |p.vdevs|, 0)
    {
    }
  }

  // ----- what the report means

  /**
    A left-over ALLOC is reported as freed exactly when it lies inside the metaslab it
    starts in, on a concrete vdev, and an entry of that metaslab frees its start at or after
    its txg.
    */
  lemma FreedWhere(p: Pool, x: Svb)
    requires WellFormed(p)
    ensures (exists k: Key :: FreedAt(p, x, k)) <==>
            && MP.OnConcrete(VdevsOf(p), x)
            && !MP.Misplaced(VdevsOf(p), x)
            && FreedBy(x, x.dva.vdev, EntriesOf(p, (x.dva.vdev, MP.StartMs(VdevsOf(p), x))))
  {
    var vdevs := VdevsOf(p);
    if MP.OnConcrete(vdevs, x) {
      var q := MP.StartMs(vdevs, x);
      MP.StartsInside(vdevs, x, q);
      forall k: Key | FreedAt(p, x, k)
        ensures k == (x.dva.vdev, q)
      {
        MP.StartsInside(vdevs, x, k.1);
      }
      assert !MP.Misplaced(vdevs, x) ==> MP.FitsMs(vdevs, x, (x.dva.vdev, q));
      assert FreedAt(p, x, (x.dva.vdev, q)) <==>
             !MP.Misplaced(vdevs, x) && FreedBy(x, x.dva.vdev, EntriesOf(p, (x.dva.vdev, q)));
    }
  }

  /** Space map or log entry e of metaslab k frees the block's start at or after the block's txg. */
  ghost predicate FreesStart(p: Pool, k: Key, e: Entry, x: Svb)
    requires IsKey(p, k)
  {
    && e in MetaslabOf(p, k).sm.GetOr([]) + Since(p, p.log, k)
    && e.kind == SM_FREE && e.offset <= x.dva.offset < e.offset + e.run && x.txg <= e.txg
  }

  /** Over the offsets and the entries alone: who is reported as freed. */
  lemma FreedIff(p: Pool, x: Svb, k: Key)
    ensures FreedAt(p, x, k) <==>
            && IsKey(p, k) && x.dva.vdev == k.0
            && k.1 * p.vdevs[k.0].msSize <= x.dva.offset < k.1 * p.vdevs[k.0].msSize + p.vdevs[k.0].msSize
            && x.dva.offset + x.dva.asize <= k.1 * p.vdevs[k.0].msSize + p.vdevs[k.0].msSize
            && exists e :: FreesStart(p, k, e, x)
  {
    if IsKey(p, k) && x.dva.vdev == k.0 {
      var es := EntriesOf(p, k);
      UnflushedIsSince(p, p.log, k);
      if FreedBy(x, k.0, es) {
        var i :| 0 <= i < |es| && es[i].kind != SM_ALLOC && Freed(x, k.0, es[i].txg, es[i].offset, es[i].run);
        assert FreesStart(p, k, es[i], x);
      }
      if exists e :: FreesStart(p, k, e, x) {
        var e :| FreesStart(p, k, e, x);
        var i :| 0 <= i < |es| && es[i] == e;
        assert Freed(x, k.0, es[i].txg, es[i].offset, es[i].run);
      }
    }
  }

  /** No double ALLOC and no double FREE is reported exactly when the leak check could load the pool. */
  lemma CleanIffPoolLoads(p: Pool)
    requires PositiveEntries(p)
    ensures (forall k: Key :: NoComplaint(p, k)) <==> Loads(p, SM_ALLOC, |p.log|)
  {
    forall k: Key | IsKey(p, k)
      ensures NoComplaint(p, k) <==> Loaded(p, SM_ALLOC, k, |p.log|).Some?
    {
      CleanIffLoads(p, k);
    }
  }
}
