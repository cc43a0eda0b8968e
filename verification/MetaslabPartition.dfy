/**
  zdb hands the left-over ALLOCs of all livelists out to the metaslabs they lie in: a loop
  over the metaslabs of every concrete vdev moves the blocks inside each one and reports
  those that cross its boundary. What nobody takes is reported at the end.
  */
module MetaslabPartition {
  import opened BlockPointers
  import opened LivelistTree
  import opened Multiples

  /** Metaslab m of a concrete vdev is the msSize bytes from m * msSize. */
  datatype Vdev = Vdev(concrete: bool, msSize: nat, msCount: nat)

  type MsKey = (nat, nat)

  /** The block lies inside the metaslab. */
  predicate Fits(x: Svb, vdev: nat, start: nat, end: nat) {
    x.dva.vdev == vdev && start <= x.dva.offset < end && x.dva.offset + x.dva.asize <= end
  }

  /** The block reaches over the metaslab's start, or starts in it and reaches over its end. */
  predicate Crosses(x: Svb, vdev: nat, start: nat, end: nat) {
    && x.dva.vdev == vdev
    && ((x.dva.offset < start < x.dva.offset + x.dva.asize) ||
        (start <= x.dva.offset < end < x.dva.offset + x.dva.asize))
  }

  lemma PrefixMembers(t: seq<Svb>, i: nat)
    requires i < |t|
    ensures forall x :: x in t[..i + 1] <==> x in t[..i] || x == t[i]
  {
  }

  /** mv_populate_livelist_allocs, first loop: collect what fits, report what crosses. */
  method Collect(left: seq<Svb>, vdev: nat, start: nat, end: nat) returns (allocs: seq<Svb>, reported: set<Svb>)
    requires Sorted(left)
    ensures Sorted(allocs)
    ensures forall x :: x in allocs <==> x in left && Fits(x, vdev, start, end)
    ensures forall x :: x in reported <==> x in left && Crosses(x, vdev, start, end)
  {
    allocs, reported := [], {};
    for i := 0 to |left|
      invariant Sorted(allocs)
      invariant forall j :: 0 <= j < |allocs| && i < |left| ==> Compare(allocs[j].dva, left[i].dva) < 0
      invariant forall x :: x in allocs <==> x in left[..i] && Fits(x, vdev, start, end)
      invariant forall x :: x in reported <==> x in left[..i] && Crosses(x, vdev, start, end)
    {
      var x := left[i];
      PrefixMembers(left, i);
      var off, asize := x.dva.offset, x.dva.asize;
      if x.dva.vdev != vdev {
      } else if off < start && off + asize > start {
        reported := reported + {x};
      } else if off < start || off >= end {
      } else if off + asize > end {
        reported := reported + {x};
      } else {
        allocs := allocs + [x];
      }
      if i + 1 < |left| { BelowNext(left, i, allocs); }
    }
    assert left[..|left|] == left;
  }

  lemma BelowNext(left: seq<Svb>, i: nat, allocs: seq<Svb>)
    requires Sorted(left) && i + 1 < |left|
    requires forall x :: x in allocs ==> x in left[..i + 1]
    ensures forall j :: 0 <= j < |allocs| ==> Compare(allocs[j].dva, left[i + 1].dva) < 0
  {
    forall j | 0 <= j < |allocs|
      ensures Compare(allocs[j].dva, left[i + 1].dva) < 0
    {
      assert allocs[j] in allocs;
      var l :| 0 <= l < |left[..i + 1]| && left[..i + 1][l] == allocs[j];
      assert Compare(left[l].dva, left[i + 1].dva) < 0;
    }
  }

  /** zfs_btree_remove of one entry. */
  method RemoveEntry(left: seq<Svb>, x: Svb) returns (out: seq<Svb>)
    requires Sorted(left) && x in left
    ensures Sorted(out)
    ensures forall y :: y in out <==> y in left && y != x
  {
    var found, at := Find(left, x.dva);
    EntryAt(left, x, at);
    out := left[..at] + left[at + 1..];
    Dropped(left, at);
  }

  lemma EntryAt(left: seq<Svb>, x: Svb, at: nat)
    requires Sorted(left) && x in left && at <= |left|
    requires forall i :: 0 <= i < at ==> Compare(left[i].dva, x.dva) < 0
    requires forall i :: at <= i < |left| ==> Compare(left[i].dva, x.dva) >= 0
    ensures at < |left| && left[at] == x
  {
  }

  lemma Dropped(left: seq<Svb>, at: nat)
    requires Sorted(left) && at < |left|
    ensures Sorted(left[..at] + left[at + 1..])
    ensures forall y :: y in left[..at] + left[at + 1..] <==> y in left && y != left[at]
  {
  }

  lemma NotYet(t: seq<Svb>, i: nat)
    requires Sorted(t) && i < |t|
    ensures t[i] !in t[..i]
  {
  }

  /** mv_populate_livelist_allocs */
  method Populate(left: seq<Svb>, vdev: nat, start: nat, end: nat)
    returns (allocs: seq<Svb>, rest: seq<Svb>, reported: set<Svb>)
    requires Sorted(left)
    ensures Sorted(allocs) && Sorted(rest)
    ensures forall x :: x in allocs <==> x in left && Fits(x, vdev, start, end)
    ensures forall x :: x in rest <==> x in left && !Fits(x, vdev, start, end)
    ensures forall x :: x in reported <==> x in left && Crosses(x, vdev, start, end)
  {
    allocs, reported := Collect(left, vdev, start, end);
    rest := left;
    for i := 0 to |allocs|
      invariant Sorted(rest)
      invariant forall x :: x in rest <==> x in left && x !in allocs[..i]
    {
      PrefixMembers(allocs, i);
      NotYet(allocs, i);
      rest := RemoveEntry(rest, allocs[i]);
    }
    assert allocs[..|allocs|] == allocs;
  }

  // ----- all metaslabs of all concrete vdevs

  predicate IsMs(vdevs: seq<Vdev>, k: MsKey) {
    k.0 < |vdevs| && vdevs[k.0].concrete && k.1 < vdevs[k.0].msCount
  }

  predicate FitsMs(vdevs: seq<Vdev>, x: Svb, k: MsKey) {
    IsMs(vdevs, k) && Fits(x, k.0, k.1 * vdevs[k.0].msSize, k.1 * vdevs[k.0].msSize + vdevs[k.0].msSize)
  }

  predicate CrossesMs(vdevs: seq<Vdev>, x: Svb, k: MsKey) {
    IsMs(vdevs, k) && Crosses(x, k.0, k.1 * vdevs[k.0].msSize, k.1 * vdevs[k.0].msSize + vdevs[k.0].msSize)
  }

  /** The loops have passed metaslab k when they stand at (v, m). */
  predicate Passed(k: MsKey, v: nat, m: nat) {
    k.0 < v || (k.0 == v && k.1 < m)
  }

  /** What has been moved, reported and kept once the loops stand at (v, m). */
  ghost predicate Done(vdevs: seq<Vdev>, left: seq<Svb>, v: nat, m: nat,
                       moved: map<MsKey, seq<Svb>>, reported: set<Svb>, rest: seq<Svb>)
  {
    && Sorted(rest)
    && (forall k: MsKey :: k in moved <==> IsMs(vdevs, k) && Passed(k, v, m))
    && (forall k: MsKey :: k in moved ==> Sorted(moved[k]))
    && (forall k: MsKey, x :: k in moved ==> (x in moved[k] <==> x in left && FitsMs(vdevs, x, k)))
    && (forall x :: x in rest <==> x in left && forall k: MsKey :: Passed(k, v, m) ==> !FitsMs(vdevs, x, k))
    && (forall x :: x in reported ==> x in left && exists k: MsKey :: CrossesMs(vdevs, x, k))
    && (forall x, k: MsKey :: x in left && Passed(k, v, m) && CrossesMs(vdevs, x, k) ==> x in reported)
  }

  /** A block lies inside at most one metaslab, and inside none if it crosses one. */
  lemma OneMetaslab(vdevs: seq<Vdev>, x: Svb, k: MsKey, j: MsKey)
    requires FitsMs(vdevs, x, k)
    ensures FitsMs(vdevs, x, j) ==> k == j
    ensures !CrossesMs(vdevs, x, j)
  {
    if k.0 == j.0 && k.1 < j.1 { LaterMultiple(k.1, j.1, vdevs[k.0].msSize); }
    if k.0 == j.0 && j.1 < k.1 { LaterMultiple(j.1, k.1, vdevs[k.0].msSize); }
  }

  lemma PassedStep(vdevs: seq<Vdev>, v: nat, m: nat)
    ensures forall k: MsKey :: Passed(k, v, m + 1) <==> Passed(k, v, m) || k == (v, m)
  {
  }

  lemma DoneStep(vdevs: seq<Vdev>, left: seq<Svb>, v: nat, m: nat,
                 moved: map<MsKey, seq<Svb>>, reported: set<Svb>, rest: seq<Svb>,
                 allocs: seq<Svb>, rest': seq<Svb>, crossing: set<Svb>)
    requires IsMs(vdevs, (v, m)) && Done(vdevs, left, v, m, moved, reported, rest)
    requires Sorted(allocs) && Sorted(rest')
    requires forall x :: x in allocs <==> x in rest && FitsMs(vdevs, x, (v, m))
    requires forall x :: x in rest' <==> x in rest && !FitsMs(vdevs, x, (v, m))
    requires forall x :: x in crossing <==> x in rest && CrossesMs(vdevs, x, (v, m))
    ensures Done(vdevs, left, v, m + 1, moved[(v, m) := allocs], reported + crossing, rest')
  {
    var k := (v, m);
    forall x | x in left && (FitsMs(vdevs, x, k) || CrossesMs(vdevs, x, k))
      ensures x in rest
    {
      forall j: MsKey | Passed(j, v, m)
        ensures !FitsMs(vdevs, x, j)
      {
        if FitsMs(vdevs, x, j) { OneMetaslab(vdevs, x, j, k); }
      }
    }
    PassedStep(vdevs, v, m);
  }

  /** The double loop of livelist_metaslab_validate. */
  method Partition(vdevs: seq<Vdev>, left: seq<Svb>)
    returns (moved: map<MsKey, seq<Svb>>, reported: set<Svb>, rest: seq<Svb>)
    requires Sorted(left)
    ensures Done(vdevs, left, |vdevs|, 0, moved, reported, rest)
  {
    moved, reported, rest := map[], {}, left;
    for v := 0 to |vdevs|
      invariant Done(vdevs, left, v, 0, moved, reported, rest)
    {
      if vdevs[v].concrete {
        for m := 0 to vdevs[v].msCount
          invariant Done(vdevs, left, v, m, moved, reported, rest)
        {
          var start := m * vdevs[v].msSize;
          var allocs, rest', crossing := Populate(rest, v, start, start + vdevs[v].msSize);
          assert IsMs(vdevs, (v, m));
          DoneStep(vdevs, left, v, m, moved, reported, rest, allocs, rest', crossing);
          moved := moved[(v, m) := allocs];
          reported := reported + crossing;
          rest := rest';
        }
      }
      NextVdev(vdevs, left, v, moved, reported, rest);
    }
  }

  lemma NextVdev(vdevs: seq<Vdev>, left: seq<Svb>, v: nat,
                 moved: map<MsKey, seq<Svb>>, reported: set<Svb>, rest: seq<Svb>)
    requires v < |vdevs|
    requires Done(vdevs, left, v, if vdevs[v].concrete then vdevs[v].msCount else 0, moved, reported, rest)
    ensures Done(vdevs, left, v + 1, 0, moved, reported, rest)
  {
  }

  // ----- who is left

  /** The metaslab a block starts in, as an index that may lie past the last one. */
  function StartMs(vdevs: seq<Vdev>, x: Svb): nat
    requires x.dva.vdev < |vdevs| && vdevs[x.dva.vdev].msSize > 0
  {
    x.dva.offset / vdevs[x.dva.vdev].msSize
  }

  /** On a concrete vdev: the block starts past the last metaslab, or runs over the end of its own. */
  predicate Misplaced(vdevs: seq<Vdev>, x: Svb)
    requires x.dva.vdev < |vdevs| && vdevs[x.dva.vdev].msSize > 0
  {
    var size := vdevs[x.dva.vdev].msSize;
    || StartMs(vdevs, x) >= vdevs[x.dva.vdev].msCount
    || x.dva.offset + x.dva.asize > StartMs(vdevs, x) * size + size
  }

  lemma StartsInside(vdevs: seq<Vdev>, x: Svb, m: nat)
    requires x.dva.vdev < |vdevs| && vdevs[x.dva.vdev].msSize > 0
    ensures var size := vdevs[x.dva.vdev].msSize;
            m * size <= x.dva.offset < m * size + size <==> m == StartMs(vdevs, x)
  {
    var size := vdevs[x.dva.vdev].msSize;
    var q := StartMs(vdevs, x);
    assert x.dva.offset == q * size + x.dva.offset % size;
    if m < q { LaterMultiple(m, q, size); }
    if q < m { LaterMultiple(q, m, size); }
  }

  /**
    After the loops: kept are the blocks of other vdevs and the misplaced ones; misplaced ones
    that start in a metaslab were reported.
    */
  lemma WhoIsLeft(vdevs: seq<Vdev>, left: seq<Svb>,
                  moved: map<MsKey, seq<Svb>>, reported: set<Svb>, rest: seq<Svb>, x: Svb)
    requires Done(vdevs, left, |vdevs|, 0, moved, reported, rest)
    requires forall v :: 0 <= v < |vdevs| && vdevs[v].concrete ==> vdevs[v].msSize > 0
    requires x in left
    ensures var concrete := x.dva.vdev < |vdevs| && vdevs[x.dva.vdev].concrete;
            && (x in rest <==> (concrete ==> Misplaced(vdevs, x)))
            && (x !in rest ==> IsMs(vdevs, (x.dva.vdev, StartMs(vdevs, x))) &&
                               x in moved[(x.dva.vdev, StartMs(vdevs, x))])
            && (x in reported <==> concrete && Misplaced(vdevs, x) && StartMs(vdevs, x) < vdevs[x.dva.vdev].msCount)
    ensures forall k: MsKey :: k in moved && x in moved[k] ==>
              k.0 == x.dva.vdev && k.0 < |vdevs| && vdevs[k.0].msSize > 0 && k.1 == StartMs(vdevs, x) && x !in rest
  {
    if x.dva.vdev < |vdevs| && vdevs[x.dva.vdev].concrete {
      var q := StartMs(vdevs, x);
      StartsInside(vdevs, x, q);
      forall k: MsKey
        ensures FitsMs(vdevs, x, k) ==> k == (x.dva.vdev, q) && !Misplaced(vdevs, x)
      {
        if FitsMs(vdevs, x, k) { StartsInside(vdevs, x, k.1); }
      }
      forall k: MsKey | CrossesMs(vdevs, x, k)
        ensures Misplaced(vdevs, x) && q < vdevs[x.dva.vdev].msCount
      {
        CrossingIsMisplaced(vdevs, x, k);
      }
      if q < vdevs[x.dva.vdev].msCount {
        assert Passed((x.dva.vdev, q), |vdevs|, 0);
        assert Misplaced(vdevs, x) ==> CrossesMs(vdevs, x, (x.dva.vdev, q));
        assert !Misplaced(vdevs, x) ==> FitsMs(vdevs, x, (x.dva.vdev, q));
      }
    }
  }

  /** Whoever crosses the boundary of some metaslab starts in one and runs over its end. */
  lemma CrossingIsMisplaced(vdevs: seq<Vdev>, x: Svb, k: MsKey)
    requires CrossesMs(vdevs, x, k) && vdevs[k.0].msSize > 0
    ensures Misplaced(vdevs, x) && StartMs(vdevs, x) < vdevs[k.0].msCount
  {
    var size := vdevs[k.0].msSize;
    var q := StartMs(vdevs, x);
    StartsInside(vdevs, x, q);
    StartsInside(vdevs, x, k.1);
    if q < k.1 { LaterMultiple(q, k.1, size); }
    if k.1 < q { LaterMultiple(k.1, q, size); }
  }

  predicate OnConcrete(vdevs: seq<Vdev>, x: Svb) {
    x.dva.vdev < |vdevs| && vdevs[x.dva.vdev].concrete
  }

  /**
    What is left is taken to belong to removed vdevs, and asserted to. That holds exactly
    when no block of a concrete vdev starts past its last metaslab or runs over the end of
    its own.
    */
  lemma LeftAreRemovedIff(vdevs: seq<Vdev>, left: seq<Svb>,
                          moved: map<MsKey, seq<Svb>>, reported: set<Svb>, rest: seq<Svb>)
    requires Done(vdevs, left, |vdevs|, 0, moved, reported, rest)
    requires forall v :: 0 <= v < |vdevs| && vdevs[v].concrete ==> vdevs[v].msSize > 0
    ensures (forall x :: x in rest ==> !OnConcrete(vdevs, x)) <==>
            (forall x :: x in left && OnConcrete(vdevs, x) ==> !Misplaced(vdevs, x))
  {
    forall x | x in left && OnConcrete(vdevs, x)
      ensures x in rest <==> Misplaced(vdevs, x)
    {
      WhoIsLeft(vdevs, left, moved, reported, rest, x);
    }
  }

  /** A block of two bytes on a concrete vdev with one metaslab of one byte is left over. */
  lemma CrossingBlockIsLeft(moved: map<MsKey, seq<Svb>>, reported: set<Svb>, rest: seq<Svb>)
    requires Done([Vdev(true, 1, 1)], [Svb(Dva(0, 0, 2), 0)], 1, 0, moved, reported, rest)
    ensures Svb(Dva(0, 0, 2), 0) in rest && OnConcrete([Vdev(true, 1, 1)], Svb(Dva(0, 0, 2), 0))
  {
    var vdevs, x := [Vdev(true, 1, 1)], Svb(Dva(0, 0, 2), 0);
    assert vdevs[0].msSize == 1 && x in [x];
    WhoIsLeft(vdevs, [x], moved, reported, rest, x);
  }
}
