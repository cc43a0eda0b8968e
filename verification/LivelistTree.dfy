/**
  The ordered tree of left-over ALLOCs that zdb searches when a space map frees a range,
  and the checks it makes on each space map entry.
  */
module LivelistTree {
  import opened Ranges
  import opened RangeTrees
  import opened BlockPointers
  import opened SpaceMapReplay

  /** A left-over ALLOC and the txg it was allocated in. */
  datatype Svb = Svb(dva: Dva, txg: nat)

  /** livelist_block_compare: by vdev, then offset, then size. */
  function Compare(l: Dva, r: Dva): int {
    if l.vdev < r.vdev then -1 else if l.vdev > r.vdev then 1
    else if l.offset < r.offset then -1 else if l.offset > r.offset then 1
    else if l.asize < r.asize then -1 else if l.asize > r.asize then 1
    else 0
  }

  /** The comparator is a strict total order on DVAs. */
  lemma CompareIsTotalOrder(a: Dva, b: Dva, c: Dva)
    ensures Compare(a, b) == 0 <==> a == b
    ensures Compare(a, b) == -Compare(b, a)
    ensures Compare(a, b) < 0 && Compare(b, c) < 0 ==> Compare(a, c) < 0
  {
  }

  ghost predicate Sorted(t: seq<Svb>) {
    forall i, j :: 0 <= i < j < |t| ==> Compare(t[i].dva, t[j].dva) < 0
  }

  /** zfs_btree_find: the entry, or where it would be. */
  method Find(t: seq<Svb>, d: Dva) returns (found: bool, at: nat)
    requires Sorted(t)
    ensures at <= |t|
    ensures forall i :: 0 <= i < at ==> Compare(t[i].dva, d) < 0
    ensures forall i :: at <= i < |t| ==> Compare(t[i].dva, d) >= 0
    ensures found <==> at < |t| && t[at].dva == d
  {
    var lo, hi := 0, |t|;
    while lo < hi
      invariant 0 <= lo <= hi <= |t|
      invariant forall i :: 0 <= i < lo ==> Compare(t[i].dva, d) < 0
      invariant forall i :: hi <= i < |t| ==> Compare(t[i].dva, d) >= 0
    {
      var mid := lo + (hi - lo) / 2;
      if Compare(t[mid].dva, d) < 0 {
        lo := mid + 1;
      } else {
        hi := mid;
      }
    }
    return lo < |t| && t[lo].dva == d, lo;
  }

  // ----- the range search

  /** The ALLOC starts in the freed range and is not younger than the free. */
  predicate Freed(x: Svb, vdev: nat, txg: nat, offset: nat, size: nat) {
    x.dva.vdev == vdev && offset <= x.dva.offset < offset + size && x.txg <= txg
  }

  /** The plain scan: every entry of the tree is looked at. */
  function Scan(t: seq<Svb>, vdev: nat, txg: nat, offset: nat, size: nat): seq<Svb> {
    if t == [] then []
    else Scan(t[..|t| - 1], vdev, txg, offset, size) +
         (if Freed(t[|t| - 1], vdev, txg, offset, size) then [t[|t| - 1]] else [])
  }

  lemma {:induction false} ScanIgnores(a: seq<Svb>, b: seq<Svb>, vdev: nat, txg: nat, offset: nat, size: nat)
    requires forall i :: 0 <= i < |b| ==> !Freed(b[i], vdev, txg, offset, size)
    ensures Scan(a + b, vdev, txg, offset, size) == Scan(a, vdev, txg, offset, size)
    decreases |b|
  {
    if b == [] {
      assert a + b == a;
    } else {
      ScanIgnores(a, b[..|b| - 1], vdev, txg, offset, size);
      assert (a + b)[..|a + b| - 1] == a + b[..|b| - 1];
    }
  }

  /** Entries before the probe, and entries from the first one beyond the range on, are none of them freed. */
  lemma OutsideRange(t: seq<Svb>, at: nat, i: nat, vdev: nat, txg: nat, offset: nat, size: nat)
    requires Sorted(t) && at <= i <= |t|
    requires forall j :: 0 <= j < at ==> Compare(t[j].dva, Dva(vdev, offset, 0)) < 0
    requires forall j :: at <= j < |t| ==> Compare(t[j].dva, Dva(vdev, offset, 0)) >= 0
    requires i < |t| ==> t[i].dva.vdev != vdev || t[i].dva.offset >= offset + size
    ensures forall j :: 0 <= j < at ==> !Freed(t[j], vdev, txg, offset, size)
    ensures forall j :: i <= j < |t| ==> !Freed(t[j], vdev, txg, offset, size)
  {
  }

  /** `at` is where the probe for the start of the range belongs. */
  ghost predicate StartsAt(t: seq<Svb>, at: nat, vdev: nat, offset: nat) {
    && at <= |t|
    && (forall j :: 0 <= j < at ==> Compare(t[j].dva, Dva(vdev, offset, 0)) < 0)
    && (forall j :: at <= j < |t| ==> Compare(t[j].dva, Dva(vdev, offset, 0)) >= 0)
  }

  lemma NothingBefore(t: seq<Svb>, at: nat, vdev: nat, txg: nat, offset: nat, size: nat)
    requires Sorted(t) && StartsAt(t, at, vdev, offset)
    ensures Scan(t[..at], vdev, txg, offset, size) == []
  {
    OutsideRange(t, at, |t|, vdev, txg, offset, size);
    ScanIgnores([], t[..at], vdev, txg, offset, size);
    assert [] + t[..at] == t[..at];
  }

  lemma NothingAfter(t: seq<Svb>, at: nat, i: nat, vdev: nat, txg: nat, offset: nat, size: nat)
    requires Sorted(t) && StartsAt(t, at, vdev, offset) && at <= i <= |t|
    requires i < |t| ==> t[i].dva.vdev != vdev || t[i].dva.offset >= offset + size
    ensures Scan(t[..i], vdev, txg, offset, size) == Scan(t, vdev, txg, offset, size)
  {
    OutsideRange(t, at, i, vdev, txg, offset, size);
    ScanIgnores(t[..i], t[i..], vdev, txg, offset, size);
    assert t == t[..i] + t[i..];
  }

  /** verify_livelist_allocs: start at the first entry not below the range, stop at the first beyond it. */
  method VerifyAllocs(t: seq<Svb>, vdev: nat, txg: nat, offset: nat, size: nat) returns (errors: seq<Svb>)
    requires Sorted(t)
    ensures errors == Scan(t, vdev, txg, offset, size)
  {
    var found, at := Find(t, Dva(vdev, offset, 0));
    assert StartsAt(t, at, vdev, offset);
    NothingBefore(t, at, vdev, txg, offset, size);
    errors := [];
    var i := at;
    while i < |t| && t[i].dva.vdev == vdev && t[i].dva.offset < offset + size
      invariant at <= i <= |t|
      invariant errors == Scan(t[..i], vdev, txg, offset, size)
    {
      ScanStep(t, i, vdev, txg, offset, size);
      assert Compare(t[i].dva, Dva(vdev, offset, 0)) >= 0;
      if t[i].txg <= txg {
        errors := errors + [t[i]];
      }
      i := i + 1;
    }
    NothingAfter(t, at, i, vdev, txg, offset, size);
  }

  lemma ScanStep(t: seq<Svb>, i: nat, vdev: nat, txg: nat, offset: nat, size: nat)
    requires i < |t|
    ensures Scan(t[..i + 1], vdev, txg, offset, size) ==
            Scan(t[..i], vdev, txg, offset, size) + if Freed(t[i], vdev, txg, offset, size) then [t[i]] else []
  {
    assert t[..i + 1][..i] == t[..i];
  }

  lemma {:induction false} ScanFinds(t: seq<Svb>, vdev: nat, txg: nat, offset: nat, size: nat, x: Svb)
    ensures x in Scan(t, vdev, txg, offset, size) <==> x in t && Freed(x, vdev, txg, offset, size)
  {
    if t != [] {
      ScanFinds(t[..|t| - 1], vdev, txg, offset, size, x);
      assert t == t[..|t| - 1] + [t[|t| - 1]];
    }
  }

  // ----- space map entries, without blowing up

  datatype Outcome = Fine | DoubleAlloc | DoubleFree | Fatal

  /** metaslab_spacemap_validation_cb on the metaslab's tree of allocated space. */
  function Validated(t: set<nat>, e: Entry): (Outcome, set<nat>) {
    if e.kind == SM_ALLOC then
      if Span(e.offset, e.run) <= t then (DoubleAlloc, t)
      else if TreeAdd(t, e.offset, e.run).None? then (Fatal, t)
      else (Fine, TreeAdd(t, e.offset, e.run).value)
    else
      if !(Span(e.offset, e.run) <= t) then (DoubleFree, t)
      else (Fine, TreeRemove(t, e.offset, e.run).value)
  }

  /** What is said about an entry, by whether its bytes are allocated. */
  lemma OutcomeMeans(t: set<nat>, e: Entry)
    requires e.run > 0
    ensures Validated(t, e).0 == DoubleAlloc <==> e.kind == SM_ALLOC && forall x: nat :: Touches(e, x) ==> x in t
    ensures Validated(t, e).0 == DoubleFree <==> e.kind == SM_FREE && exists x: nat :: Touches(e, x) && x !in t
    ensures Validated(t, e).0 == Fine <==>
            if e.kind == SM_ALLOC then forall x: nat :: Touches(e, x) ==> x !in t
            else forall x: nat :: Touches(e, x) ==> x in t
  {
    assert forall x: nat :: x in Span(e.offset, e.run) <==> Touches(e, x);
    assert Touches(e, e.offset);
  }

  /** An ALLOC of which some is allocated and some is not. */
  ghost predicate Partly(t: set<nat>, e: Entry) {
    e.kind == SM_ALLOC && !(Span(e.offset, e.run) <= t) && !(Span(e.offset, e.run) !! t)
  }

  lemma FatalIff(t: set<nat>, e: Entry)
    ensures Validated(t, e).0 == Fatal <==> Partly(t, e)
  {
  }

  /** metaslab_spacemap_validation_cb; `errors` are the live ALLOCs that the entry frees. */
  method ValidateEntry(tree: RangeTree, allocs: seq<Svb>, vdev: nat, e: Entry)
    returns (outcome: Outcome, errors: seq<Svb>)
    requires tree.Valid() && e.run > 0 && Sorted(allocs)
    modifies tree
    ensures tree.Valid()
    ensures (outcome, tree.contents) == Validated(old(tree.contents), e)
    ensures errors == if e.kind == SM_ALLOC then [] else Scan(allocs, vdev, e.txg, e.offset, e.run)
  {
    outcome, errors := Fine, [];
    var present := tree.Contains(e.offset, e.run);
    var ok := true;
    if e.kind == SM_ALLOC {
      if present {
        outcome := DoubleAlloc;
      } else {
        ok := tree.Add(e.offset, e.run);
      }
    } else {
      if !present {
        outcome := DoubleFree;
      } else {
        ok := tree.Remove(e.offset, e.run);
      }
      errors := VerifyAllocs(allocs, vdev, e.txg, e.offset, e.run);
    }
    if !ok {
      outcome := Fatal;
    }
  }

  // ----- a metaslab's whole list of entries

  /** The tree after all entries, complaints or not; None where the check would abort. */
  function Checked(t: set<nat>, es: seq<Entry>): Option<set<nat>> {
    if es == [] then Some(t)
    else
      var before := Checked(t, es[..|es| - 1]);
      if before.None? then None
      else
        var v := Validated(before.value, es[|es| - 1]);
        if v.0 == Fatal then None else Some(v.1)
  }

  /** The tree of a check that cannot abort: every ALLOC allocates, a FREE counts only if all of it is allocated. */
  ghost function Lenient(t: set<nat>, es: seq<Entry>): set<nat> {
    if es == [] then t
    else
      var before, e := Lenient(t, es[..|es| - 1]), es[|es| - 1];
      if e.kind == SM_ALLOC then before + Span(e.offset, e.run)
      else if Span(e.offset, e.run) <= before then before - Span(e.offset, e.run)
      else before
  }

  lemma LenientStep(t: set<nat>, e: Entry, v: (Outcome, set<nat>))
    requires v == Validated(t, e) && v.0 != Fatal
    ensures v.1 == if e.kind == SM_ALLOC then t + Span(e.offset, e.run)
                   else if Span(e.offset, e.run) <= t then t - Span(e.offset, e.run) else t
  {
    if e.kind == SM_ALLOC && Span(e.offset, e.run) <= t {
      assert t + Span(e.offset, e.run) == t;
    }
  }

  /** Entry i comes when part, but not all, of it is allocated. */
  ghost predicate PartlyAt(t: set<nat>, es: seq<Entry>, i: nat)
    requires i < |es|
  {
    Partly(Lenient(t, es[..i]), es[i])
  }

  /** The check goes through to the end exactly when no ALLOC is allocated in part when its turn comes. */
  lemma {:induction false} ReachesEndIff(t: set<nat>, es: seq<Entry>)
    ensures Checked(t, es).Some? <==> forall i :: 0 <= i < |es| ==> !PartlyAt(t, es, i)
    ensures Checked(t, es).Some? ==> Checked(t, es).value == Lenient(t, es)
  {
    if es != [] {
      var last := |es| - 1;
      ReachesEndIff(t, es[..last]);
      PartlyBefore(t, es);
      if Checked(t, es[..last]).Some? {
        var u := Lenient(t, es[..last]);
        FatalIff(u, es[last]);
        if !Partly(u, es[last]) { LenientStep(u, es[last], Validated(u, es[last])); }
      }
    }
  }

  lemma PartlyBefore(t: set<nat>, es: seq<Entry>)
    requires es != []
    ensures var last := |es| - 1;
            (forall i :: 0 <= i < |es| ==> !PartlyAt(t, es, i)) <==>
            (forall i :: 0 <= i < last ==> !PartlyAt(t, es[..last], i)) && !PartlyAt(t, es, last)
  {
    var last := |es| - 1;
    forall i | 0 <= i < last
      ensures PartlyAt(t, es[..last], i) == PartlyAt(t, es, i)
    {
      assert es[..last][..i] == es[..i];
    }
  }

  /** The entries that nothing was said about. */
  ghost function Accepted(t: set<nat>, es: seq<Entry>): seq<Entry> {
    if es == [] then []
    else
      var front, e := es[..|es| - 1], es[|es| - 1];
      Accepted(t, front) + (if Validated(Lenient(t, front), e).0 == Fine then [e] else [])
  }

  /** The tree is then what the entries that were not complained about make of it. */
  lemma {:induction false} AcceptedReplay(t: set<nat>, es: seq<Entry>)
    requires Checked(t, es).Some?
    ensures Replay(SM_ALLOC, Some(t), Accepted(t, es)) == Checked(t, es)
  {
    if es != [] {
      var front, e := es[..|es| - 1], es[|es| - 1];
      AcceptedReplay(t, front);
      ReachesEndIff(t, front);
      var u := Lenient(t, front);
      if Validated(u, e).0 == Fine {
        ReplayConcat(SM_ALLOC, Some(t), Accepted(t, front), [e]);
        ReplayOne(u, e);
        FineIsApply(u, e);
      } else {
        assert Accepted(t, front) + [] == Accepted(t, front);
      }
    }
  }

  lemma ReplayOne(t: set<nat>, e: Entry)
    ensures Replay(SM_ALLOC, Some(t), [e]) == Apply(SM_ALLOC, t, e)
  {
    assert [e][1..] == [];
    assert Replay(SM_ALLOC, Some(t), [e]) == Replay(SM_ALLOC, Apply(SM_ALLOC, t, e), []);
  }

  lemma FineIsApply(t: set<nat>, e: Entry)
    ensures Validated(t, e).0 == Fine ==> Apply(SM_ALLOC, t, e) == Some(Validated(t, e).1)
    ensures e.run > 0 && Apply(SM_ALLOC, t, e).Some? ==> Validated(t, e).0 == Fine
  {
    if e.run > 0 { assert e.offset in Span(e.offset, e.run); }
  }

  /** No entry is complained about. */
  ghost predicate AllFine(t: set<nat>, es: seq<Entry>) {
    es == [] || (AllFine(t, es[..|es| - 1]) && Validated(Lenient(t, es[..|es| - 1]), es[|es| - 1]).0 == Fine)
  }

  /** Nothing is reported exactly when the entries replay as a history, from any starting point. */
  lemma {:induction false} FineIffReplays(t: set<nat>, es: seq<Entry>)
    requires forall i :: 0 <= i < |es| ==> es[i].run > 0
    ensures AllFine(t, es) <==> Replay(SM_ALLOC, Some(t), es).Some?
    ensures AllFine(t, es) ==> Replay(SM_ALLOC, Some(t), es) == Some(Lenient(t, es))
  {
    if es != [] {
      var front, e := es[..|es| - 1], es[|es| - 1];
      FineIffReplays(t, front);
      assert es == front + [e];
      ReplayConcat(SM_ALLOC, Some(t), front, [e]);
      if AllFine(t, front) {
        ReplayOne(Lenient(t, front), e);
        FineIsApply(Lenient(t, front), e);
        if Validated(Lenient(t, front), e).0 == Fine {
          LenientStep(Lenient(t, front), e, Validated(Lenient(t, front), e));
        }
      }
    }
  }

  /** The live ALLOCs that the entries free. */
  ghost function AllErrors(allocs: seq<Svb>, vdev: nat, es: seq<Entry>): seq<Svb> {
    if es == [] then []
    else
      var e := es[|es| - 1];
      AllErrors(allocs, vdev, es[..|es| - 1]) +
      (if e.kind == SM_ALLOC then [] else Scan(allocs, vdev, e.txg, e.offset, e.run))
  }

  /** The next entry of the list. */
  method ValidateNext(tree: RangeTree, allocs: seq<Svb>, vdev: nat, es: seq<Entry>, i: nat)
    returns (outcome: Outcome, freed: seq<Svb>)
    requires tree.Valid() && Sorted(allocs) && i < |es| && es[i].run > 0
    requires Checked({}, es[..i]) == Some(tree.contents)
    modifies tree
    ensures tree.Valid()
    ensures Checked({}, es[..i + 1]) == if outcome == Fatal then None else Some(tree.contents)
    ensures AllFine({}, es[..i + 1]) <==> AllFine({}, es[..i]) && outcome == Fine
    ensures AllErrors(allocs, vdev, es[..i + 1]) == AllErrors(allocs, vdev, es[..i]) + freed
  {
    assert es[..i + 1][..i] == es[..i];
    ReachesEndIff({}, es[..i]);
    outcome, freed := ValidateEntry(tree, allocs, vdev, es[i]);
  }

  /** spacemap_check_ms_sm and spacemap_check_sm_log over the entries of one metaslab, starting from nothing. */
  method ValidateAll(allocs: seq<Svb>, vdev: nat, es: seq<Entry>)
    returns (ok: bool, clean: bool, errors: seq<Svb>, tree: RangeTree)
    requires Sorted(allocs) && forall i :: 0 <= i < |es| ==> es[i].run > 0
    ensures fresh(tree) && tree.Valid()
    ensures ok <==> Checked({}, es).Some?
    ensures ok ==> Checked({}, es) == Some(tree.contents)
    ensures ok ==> (clean <==> AllFine({}, es)) && errors == AllErrors(allocs, vdev, es)
  {
    ok, clean, errors := true, true, [];
    tree := new RangeTree();
    for i := 0 to |es|
      invariant fresh(tree) && tree.Valid()
      invariant Checked({}, es[..i]) == Some(tree.contents)
      invariant clean <==> AllFine({}, es[..i])
      invariant errors == AllErrors(allocs, vdev, es[..i])
    {
      var outcome, freed := ValidateNext(tree, allocs, vdev, es, i);
      if outcome == Fatal {
        AbortsForGood({}, es, i + 1);
        return false, false, errors, tree;
      }
      clean := clean && outcome == Fine;
      errors := errors + freed;
    }
    assert es[..|es|] == es;
    ok := true;
  }

  lemma {:induction false} AbortsForGood(t: set<nat>, es: seq<Entry>, n: nat)
    requires n <= |es| && Checked(t, es[..n]).None?
    ensures Checked(t, es).None?
    decreases |es|
  {
    if n == |es| {
      assert es[..n] == es;
    } else {
      assert es[..|es| - 1][..n] == es[..n];
      AbortsForGood(t, es[..|es| - 1], n);
    }
  }

  /** The entries that concern metaslab k: its space map, then the log entries it has not flushed. */
  function EntriesOf(p: Pool, k: Key): seq<Entry>
    requires IsKey(p, k)
  {
    MetaslabOf(p, k).sm.GetOr([]) + Unflushed(p, p.log, k)
  }

  /** A metaslab gives no complaint exactly when the leak check could load it, and the trees are the same. */
  lemma CleanIffLoads(p: Pool, k: Key)
    requires IsKey(p, k) && forall i :: 0 <= i < |EntriesOf(p, k)| ==> EntriesOf(p, k)[i].run > 0
    ensures AllFine({}, EntriesOf(p, k)) <==> Loaded(p, SM_ALLOC, k, |p.log|).Some?
    ensures AllFine({}, EntriesOf(p, k)) ==> Loaded(p, SM_ALLOC, k, |p.log|) == Some(Lenient({}, EntriesOf(p, k)))
  {
    var sm, u := MetaslabOf(p, k).sm.GetOr([]), Unflushed(p, p.log, k);
    assert p.log[..|p.log|] == p.log;
    ReplayConcat(SM_ALLOC, Some({}), sm, u);
    FineIffReplays({}, EntriesOf(p, k));
  }

  /** Two entries for which the check, meant to go on after errors, aborts. */
  lemma PartlyAllocated()
    ensures Checked({}, [Entry(SM_ALLOC, 0, 0, 1, 0), Entry(SM_ALLOC, 0, 0, 2, 0)]) == None
  {
    var a, b := Entry(SM_ALLOC, 0, 0, 1, 0), Entry(SM_ALLOC, 0, 0, 2, 0);
    assert [a, b][..1] == [a] && [a][..0] == [];
    assert Span(0, 1) == {0};
    assert Lenient({}, [a]) == {0};
    assert 0 in Span(0, 2) && 1 in Span(0, 2);
    assert Partly({0}, b);
    assert [a, b][1] == b;
    ReachesEndIff({}, [a, b]);
  }
}
