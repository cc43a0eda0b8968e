/**
  Loading a pool's allocated (or free) space the way zdb does: each metaslab's own space
  map first, then one pass over the log space maps, whose entries are kept only when they
  are newer than what the metaslab has flushed.
  */
module SpaceMapReplay {
  import opened Ranges
  import opened Multiples

  datatype MapType = SM_ALLOC | SM_FREE

  datatype Entry = Entry(kind: MapType, vdev: nat, offset: nat, run: nat, txg: nat)

  /** `sm` is None for a metaslab that never had a space map. */
  datatype Metaslab = Metaslab(unflushedTxg: nat, sm: Option<seq<Entry>>)

  /** Metaslab m of a vdev holds the msSize bytes from m * msSize. */
  datatype Vdev = Vdev(concrete: bool, msSize: nat, ms: seq<Metaslab>)

  /** `log` is all log space maps in txg order; every entry carries its log's txg. */
  datatype Pool = Pool(vdevs: seq<Vdev>, log: seq<Entry>)

  type Key = (nat, nat)
  type Trees = map<Key, set<nat>>

  ghost predicate WellFormed(p: Pool) {
    && (forall v :: 0 <= v < |p.vdevs| ==> p.vdevs[v].msSize > 0)
    && (forall i :: 0 <= i < |p.log| ==> LogEntryOk(p, p.log[i]))
  }

  ghost predicate LogEntryOk(p: Pool, e: Entry) {
    && e.vdev < |p.vdevs|
    && p.vdevs[e.vdev].msSize > 0
    && (p.vdevs[e.vdev].concrete ==> e.offset / p.vdevs[e.vdev].msSize < |p.vdevs[e.vdev].ms|)
  }

  predicate IsKey(p: Pool, k: Key) {
    k.0 < |p.vdevs| && p.vdevs[k.0].concrete && k.1 < |p.vdevs[k.0].ms|
  }

  function MetaslabOf(p: Pool, k: Key): Metaslab
    requires IsKey(p, k)
  {
    p.vdevs[k.0].ms[k.1]
  }

  function KeySpan(p: Pool, k: Key): set<nat>
    requires k.0 < |p.vdevs|
  {
    MsSpan(k.1, p.vdevs[k.0].msSize)
  }

  // ----- one tree

  /** space_map_load_callback and load_unflushed_cb: add what matches the map type, remove the rest. */
  function Apply(kind: MapType, t: set<nat>, e: Entry): Option<set<nat>> {
    if e.kind == kind then TreeAdd(t, e.offset, e.run) else TreeRemove(t, e.offset, e.run)
  }

  function Replay(kind: MapType, t: Option<set<nat>>, es: seq<Entry>): Option<set<nat>>
    decreases |es|
  {
    if t.None? then None
    else if es == [] then t
    else Replay(kind, Apply(kind, t.value, es[0]), es[1..])
  }

  lemma {:induction false} ReplayConcat(kind: MapType, t: Option<set<nat>>, a: seq<Entry>, b: seq<Entry>)
    ensures Replay(kind, t, a + b) == Replay(kind, Replay(kind, t, a), b)
    decreases |a|
  {
    if t.Some? {
      if a == [] {
        assert a + b == b;
      } else {
        ReplayConcat(kind, Apply(kind, t.value, a[0]), a[1..], b);
        assert (a + b)[1..] == a[1..] + b;
      }
    }
  }

  lemma {:induction false} ReplayStays(kind: MapType, whole: set<nat>, t: Option<set<nat>>, es: seq<Entry>)
    requires Inside(es, whole) && (t.Some? ==> t.value <= whole)
    ensures Replay(kind, t, es).Some? ==> Replay(kind, t, es).value <= whole
    decreases |es|
  {
    if t.Some? && es != [] {
      ReplayStays(kind, whole, Apply(kind, t.value, es[0]), es[1..]);
    }
  }

  /**
    space_map_load_callback also verifies that there is room for the entries it adds: that
    never fails where all entries lie inside the map.
    */
  lemma RoomIsLeft(kind: MapType, whole: set<nat>, t: set<nat>, es: seq<Entry>, i: nat)
    requires t <= whole && Inside(es, whole) && i < |es| && es[i].kind == kind
    requires Replay(kind, Some(t), es[..i + 1]).Some?
    ensures var before := Replay(kind, Some(t), es[..i]);
            before.Some? && |before.value| + es[i].run <= |whole|
  {
    var before := Replay(kind, Some(t), es[..i]);
    assert es[..i + 1] == es[..i] + [es[i]];
    ReplayConcat(kind, Some(t), es[..i], [es[i]]);
    ReplayStays(kind, whole, Some(t), es[..i]);
    Room(whole, before.value, es[i].offset, es[i].run);
  }

  lemma Room(whole: set<nat>, t: set<nat>, start: nat, size: nat)
    requires t <= whole && Span(start, size) <= whole && t !! Span(start, size)
    ensures |t| + size <= |whole|
  {
    SpanSize(start, size);
    DisjointSize(t, Span(start, size));
    SubsetSize(whole, t + Span(start, size));
  }

  function Complement(whole: set<nat>, t: Option<set<nat>>): Option<set<nat>> {
    if t.None? then None else Some(whole - t.value)
  }

  ghost predicate Inside(es: seq<Entry>, whole: set<nat>) {
    forall i :: 0 <= i < |es| ==> Span(es[i].offset, es[i].run) <= whole
  }

  /** Loading as free is loading as allocated, complemented; and one is fatal exactly when the other is. */
  lemma {:induction false} ReplayComplement(whole: set<nat>, t: Option<set<nat>>, es: seq<Entry>)
    requires t.Some? ==> t.value <= whole
    requires Inside(es, whole)
    ensures Replay(SM_FREE, Complement(whole, t), es) == Complement(whole, Replay(SM_ALLOC, t, es))
    ensures Replay(SM_ALLOC, t, es).Some? ==> Replay(SM_ALLOC, t, es).value <= whole
    decreases |es|
  {
    if t.Some? && es != [] {
      ApplyComplement(whole, t.value, es[0]);
      ReplayComplement(whole, Apply(SM_ALLOC, t.value, es[0]), es[1..]);
    }
  }

  lemma ApplyComplement(whole: set<nat>, t: set<nat>, e: Entry)
    requires t <= whole && Span(e.offset, e.run) <= whole
    ensures Apply(SM_FREE, whole - t, e) == Complement(whole, Apply(SM_ALLOC, t, e))
    ensures Apply(SM_ALLOC, t, e).Some? ==> Apply(SM_ALLOC, t, e).value <= whole
  {
    var r := Span(e.offset, e.run);
    if e.kind == SM_ALLOC {
      assert r <= whole - t <==> t !! r;
      assert whole - t - r == whole - (t + r);
    } else {
      assert r <= t <==> (whole - t) !! r;
      if r <= t {
        assert (whole - t) + r == whole - (t - r);
      }
    }
  }

  // ----- entries that reach a metaslab

  /** The metaslab an entry of a concrete vdev belongs to. */
  function KeyOf(p: Pool, e: Entry): Key
    requires e.vdev < |p.vdevs| && p.vdevs[e.vdev].msSize > 0
  {
    (e.vdev, e.offset / p.vdevs[e.vdev].msSize)
  }

  predicate Relevant(p: Pool, e: Entry, k: Key) {
    && e.vdev < |p.vdevs| && p.vdevs[e.vdev].msSize > 0 && IsKey(p, k)
    && KeyOf(p, e) == k
    && MetaslabOf(p, k).unflushedTxg <= e.txg
  }

  /** The log entries that zdb applies to metaslab k, in order. */
  function Unflushed(p: Pool, es: seq<Entry>, k: Key): seq<Entry> {
    if es == [] then []
    else Unflushed(p, es[..|es| - 1], k) +
         (if Relevant(p, es[|es| - 1], k) then [es[|es| - 1]] else [])
  }

  /** The tree of metaslab k from its own space map alone. */
  function Flushed(p: Pool, kind: MapType, k: Key): Option<set<nat>>
    requires IsKey(p, k)
  {
    var ms := MetaslabOf(p, k);
    if ms.sm.None? then Some({})
    else Replay(kind, Some(if kind == SM_FREE then KeySpan(p, k) else {}), ms.sm.value)
  }

  /** The tree of metaslab k once the first n log entries have been seen. */
  function Loaded(p: Pool, kind: MapType, k: Key, n: nat): Option<set<nat>>
    requires IsKey(p, k) && n <= |p.log|
  {
    Replay(kind, Flushed(p, kind, k), Unflushed(p, p.log[..n], k))
  }

  lemma LoadedStep(p: Pool, kind: MapType, k: Key, n: nat)
    requires IsKey(p, k) && n < |p.log|
    ensures Loaded(p, kind, k, n + 1) ==
            var t := Loaded(p, kind, k, n);
            if Relevant(p, p.log[n], k) && t.Some? then Apply(kind, t.value, p.log[n]) else t
  {
    assert p.log[..n + 1][..n] == p.log[..n];
    var u := Unflushed(p, p.log[..n], k);
    if Relevant(p, p.log[n], k) {
      ReplayConcat(kind, Flushed(p, kind, k), u, [p.log[n]]);
      var t := Loaded(p, kind, k, n);
      if t.Some? {
        assert [p.log[n]][1..] == [];
        assert Replay(kind, t, [p.log[n]]) == Replay(kind, Apply(kind, t.value, p.log[n]), []);
      }
    } else {
      assert u + [] == u;
    }
  }

  // ----- the loading pass

  /** `trees` holds the right tree for every metaslab after n log entries. */
  ghost predicate TreesAre(p: Pool, kind: MapType, trees: Trees, n: nat)
    requires n <= |p.log|
  {
    && (forall k: Key :: k in trees <==> IsKey(p, k))
    && (forall k: Key :: k in trees ==> Loaded(p, kind, k, n) == Some(trees[k]))
  }

  ghost function KeySet(p: Pool): set<Key> {
    set v, m | 0 <= v < |p.vdevs| && 0 <= m < |p.vdevs[v].ms| && IsKey(p, (v, m)) :: (v, m)
  }

  /** Every metaslab's entries replay. */
  ghost predicate Loads(p: Pool, kind: MapType, n: nat)
    requires n <= |p.log|
  {
    forall k: Key :: IsKey(p, k) ==> Loaded(p, kind, k, n).Some?
  }

  /** The trees of all metaslabs once the first n log entries have been seen. */
  ghost function TreesAt(p: Pool, kind: MapType, n: nat): Trees
    requires n <= |p.log|
  {
    map k: Key | k in KeySet(p) :: Loaded(p, kind, k, n).GetOr({})
  }

  lemma TreesAreUnique(p: Pool, kind: MapType, trees: Trees, n: nat)
    requires n <= |p.log| && TreesAre(p, kind, trees, n)
    ensures trees == TreesAt(p, kind, n) && Loads(p, kind, n)
  {
    forall k: Key
      ensures k in trees <==> k in KeySet(p)
    {
    }
  }

  /** space_map_load into an emptied tree; `ok` is false where the program would panic. */
  method LoadSpaceMap(p: Pool, kind: MapType, k: Key) returns (ok: bool, t: set<nat>)
    requires IsKey(p, k)
    ensures ok <==> Flushed(p, kind, k).Some?
    ensures ok ==> Flushed(p, kind, k) == Some(t)
  {
    t := {};
    var sm := MetaslabOf(p, k).sm;
    if sm.None? {
      return true, t;
    }
    if kind == SM_FREE {
      t := KeySpan(p, k);
    }
    ghost var t0 := t;
    for i := 0 to |sm.value|
      invariant Replay(kind, Some(t0), sm.value) == Replay(kind, Some(t), sm.value[i..])
    {
      var r := Apply(kind, t, sm.value[i]);
      assert sm.value[i..][1..] == sm.value[i + 1..];
      if r.None? {
        return false, t;
      }
      t := r.value;
    }
    return true, t;
  }

  /** The first half of load_concrete_ms_allocatable_trees. */
  method LoadSpaceMaps(p: Pool, kind: MapType) returns (ok: bool, trees: Trees)
    ensures ok <==> forall k: Key :: IsKey(p, k) ==> Flushed(p, kind, k).Some?
    ensures ok ==> (forall k: Key :: k in trees <==> IsKey(p, k))
    ensures ok ==> (forall k: Key :: k in trees ==> Flushed(p, kind, k) == Some(trees[k]))
  {
    trees := map[];
    for v := 0 to |p.vdevs|
      invariant forall k: Key :: k in trees <==> IsKey(p, k) && k.0 < v
      invariant forall k: Key :: k in trees ==> Flushed(p, kind, k) == Some(trees[k])
    {
      if p.vdevs[v].concrete {
        for m := 0 to |p.vdevs[v].ms|
          invariant forall k: Key :: k in trees <==> IsKey(p, k) && (k.0 < v || (k.0 == v && k.1 < m))
          invariant forall k: Key :: k in trees ==> Flushed(p, kind, k) == Some(trees[k])
        {
          var loaded, t := LoadSpaceMap(p, kind, (v, m));
          if !loaded {
            assert IsKey(p, (v, m));
            return false, trees;
          }
          trees := trees[(v, m) := t];
        }
      }
    }
    return true, trees;
  }

  /** load_unflushed_cb on one log entry. */
  method LoadUnflushed(p: Pool, kind: MapType, trees: Trees, e: Entry) returns (ok: bool, out: Trees)
    requires LogEntryOk(p, e)
    requires forall k: Key :: k in trees <==> IsKey(p, k)
    ensures out.Keys == trees.Keys
    ensures ok <==> forall k: Key :: k in trees && Relevant(p, e, k) ==> Apply(kind, trees[k], e).Some?
    ensures ok ==> forall k: Key :: k in trees ==>
              Some(out[k]) == if Relevant(p, e, k) then Apply(kind, trees[k], e) else Some(trees[k])
  {
    out := trees;
    var vd := p.vdevs[e.vdev];
    if !vd.concrete {
      return true, out;
    }
    var k := (e.vdev, e.offset / vd.msSize);
    assert IsKey(p, k);
    if e.txg < vd.ms[k.1].unflushedTxg {
      return true, out;
    }
    assert Relevant(p, e, k);
    var r := Apply(kind, trees[k], e);
    if r.None? {
      return false, out;
    }
    return true, trees[k := r.value];
  }

  /** One entry of the pass over the logs. */
  method ReplayNext(p: Pool, kind: MapType, trees: Trees, n: nat) returns (ok: bool, out: Trees)
    requires WellFormed(p) && n < |p.log| && TreesAre(p, kind, trees, n)
    ensures ok ==> TreesAre(p, kind, out, n + 1)
    ensures !ok ==> exists k: Key :: IsKey(p, k) && Loaded(p, kind, k, n + 1).None?
  {
    NextTrees(p, kind, trees, n);
    assert LogEntryOk(p, p.log[n]);
    ok, out := LoadUnflushed(p, kind, trees, p.log[n]);
  }

  /** The pass over the logs. */
  method ReplayLogs(p: Pool, kind: MapType, flushed: Trees) returns (ok: bool, trees: Trees)
    requires WellFormed(p) && TreesAre(p, kind, flushed, 0)
    ensures if ok then TreesAre(p, kind, trees, |p.log|) else !Loads(p, kind, |p.log|)
  {
    ok, trees := true, flushed;
    var n := 0;
    while n < |p.log| && ok
      invariant n <= |p.log|
      invariant if ok then TreesAre(p, kind, trees, n) else !Loads(p, kind, n)
    {
      ok, trees := ReplayNext(p, kind, trees, n);
      n := n + 1;
    }
    if !ok {
      FailsForGood(p, kind, n);
    }
  }

  /** load_concrete_ms_allocatable_trees */
  method LoadConcreteTrees(p: Pool, kind: MapType) returns (ok: bool, trees: Trees)
    requires WellFormed(p)
    ensures ok <==> forall k: Key :: IsKey(p, k) ==> Loaded(p, kind, k, |p.log|).Some?
    ensures ok ==> TreesAre(p, kind, trees, |p.log|)
  {
    ok, trees := LoadSpaceMaps(p, kind);
    NothingReplayed(p, kind);
    if ok {
      ok, trees := ReplayLogs(p, kind, trees);
    } else {
      FailsForGood(p, kind, 0);
    }
  }

  /** What one more log entry does to all trees. */
  lemma NextTrees(p: Pool, kind: MapType, trees: Trees, n: nat)
    requires n < |p.log| && TreesAre(p, kind, trees, n)
    ensures forall k: Key :: IsKey(p, k) ==>
              Loaded(p, kind, k, n + 1) ==
              if Relevant(p, p.log[n], k) then Apply(kind, trees[k], p.log[n]) else Some(trees[k])
  {
    forall k: Key | IsKey(p, k)
      ensures Loaded(p, kind, k, n + 1) ==
              if Relevant(p, p.log[n], k) then Apply(kind, trees[k], p.log[n]) else Some(trees[k])
    {
      LoadedStep(p, kind, k, n);
    }
  }

  lemma NothingReplayed(p: Pool, kind: MapType)
    ensures forall k: Key :: IsKey(p, k) ==> Loaded(p, kind, k, 0) == Flushed(p, kind, k)
  {
  }

  lemma {:induction false} FailsForGood(p: Pool, kind: MapType, n: nat)
    requires n <= |p.log|
    requires exists k: Key :: IsKey(p, k) && Loaded(p, kind, k, n).None?
    ensures exists k: Key :: IsKey(p, k) && Loaded(p, kind, k, |p.log|).None?
    decreases |p.log| - n
  {
    if n < |p.log| {
      var k :| IsKey(p, k) && Loaded(p, kind, k, n).None?;
      LoadedStep(p, kind, k, n);
      FailsForGood(p, kind, n + 1);
    } else {
      assert p.log[..n] == p.log;
    }
  }

  // ----- the pass computes the whole history

  ghost predicate SortedByTxg(es: seq<Entry>) {
    forall i, j :: 0 <= i < j < |es| ==> es[i].txg <= es[j].txg
  }

  /** The entry starts in metaslab k. */
  ghost predicate StartsIn(p: Pool, e: Entry, k: Key) {
    && IsKey(p, k) && e.vdev == k.0
    && k.1 * p.vdevs[k.0].msSize <= e.offset < k.1 * p.vdevs[k.0].msSize + p.vdevs[k.0].msSize
  }

  /** Everything that ever happened to metaslab k. */
  ghost function HistoryOf(p: Pool, es: seq<Entry>, k: Key): seq<Entry> {
    if es == [] then []
    else HistoryOf(p, es[..|es| - 1], k) + (if StartsIn(p, es[|es| - 1], k) then [es[|es| - 1]] else [])
  }

  /** The part of it before the first txg that metaslab k has not flushed to its own space map. */
  ghost function Before(p: Pool, es: seq<Entry>, k: Key): seq<Entry>
    requires IsKey(p, k)
  {
    if es == [] then []
    else
      var e := es[|es| - 1];
      Before(p, es[..|es| - 1], k) + (if StartsIn(p, e, k) && e.txg < MetaslabOf(p, k).unflushedTxg then [e] else [])
  }

  /** And the part from that txg on. */
  ghost function Since(p: Pool, es: seq<Entry>, k: Key): seq<Entry>
    requires IsKey(p, k)
  {
    if es == [] then []
    else
      var e := es[|es| - 1];
      Since(p, es[..|es| - 1], k) + (if StartsIn(p, e, k) && e.txg >= MetaslabOf(p, k).unflushedTxg then [e] else [])
  }

  /** zdb keeps a log entry for the metaslab it starts in, unless it is older than what that one has not flushed. */
  lemma RelevantIff(p: Pool, e: Entry, k: Key)
    ensures Relevant(p, e, k) <==> StartsIn(p, e, k) && e.txg >= MetaslabOf(p, k).unflushedTxg
  {
    if IsKey(p, k) && e.vdev == k.0 && p.vdevs[k.0].msSize > 0 {
      var size := p.vdevs[k.0].msSize;
      assert e.offset == e.offset / size * size + e.offset % size;
      if StartsIn(p, e, k) {
        QuotientUnique(e.offset / size, k.1, size, e.offset % size, e.offset - k.1 * size);
      }
    }
  }

  lemma {:induction false} UnflushedIsSince(p: Pool, es: seq<Entry>, k: Key)
    requires IsKey(p, k)
    ensures Unflushed(p, es, k) == Since(p, es, k)
  {
    if es != [] {
      UnflushedIsSince(p, es[..|es| - 1], k);
      RelevantIff(p, es[|es| - 1], k);
    }
  }

  lemma {:induction false} HistorySplits(p: Pool, es: seq<Entry>, k: Key)
    requires IsKey(p, k) && SortedByTxg(es)
    ensures HistoryOf(p, es, k) == Before(p, es, k) + Since(p, es, k)
  {
    if es != [] {
      var front, last := es[..|es| - 1], es[|es| - 1];
      HistorySplits(p, front, k);
      if StartsIn(p, last, k) && last.txg < MetaslabOf(p, k).unflushedTxg {
        NothingSince(p, front, k, last.txg);
      }
    }
  }

  lemma {:induction false} NothingSince(p: Pool, es: seq<Entry>, k: Key, txg: nat)
    requires IsKey(p, k) && txg < MetaslabOf(p, k).unflushedTxg
    requires forall i :: 0 <= i < |es| ==> es[i].txg <= txg
    ensures Since(p, es, k) == []
  {
    if es != [] {
      NothingSince(p, es[..|es| - 1], k, txg);
    }
  }

  /** Metaslab k's space map nets out to its history before that txg, and the logs hold the rest. */
  ghost predicate Records(p: Pool, history: seq<Entry>, k: Key)
    requires IsKey(p, k)
  {
    && Replay(SM_ALLOC, Some({}), MetaslabOf(p, k).sm.GetOr([])) == Replay(SM_ALLOC, Some({}), Before(p, history, k))
    && Since(p, p.log, k) == Since(p, history, k)
  }

  /** Loading a metaslab as allocated gives the state after its whole history. */
  lemma LoadedIsHistory(p: Pool, history: seq<Entry>, k: Key)
    requires IsKey(p, k) && SortedByTxg(history) && Records(p, history, k)
    ensures Loaded(p, SM_ALLOC, k, |p.log|) == Replay(SM_ALLOC, Some({}), HistoryOf(p, history, k))
  {
    assert p.log[..|p.log|] == p.log;
    UnflushedIsSince(p, p.log, k);
    HistorySplits(p, history, k);
    ReplayConcat(SM_ALLOC, Some({}), Before(p, history, k), Since(p, history, k));
  }

  // ----- what a replay means, byte by byte

  predicate Touches(e: Entry, x: nat) {
    e.offset <= x < e.offset + e.run
  }

  /** Offset x is held after the entries: the last one that touches it adds it, or none does and it was there. */
  ghost predicate HeldAfter(kind: MapType, t: set<nat>, es: seq<Entry>, x: nat) {
    if exists i :: LastTouch(es, x, i) then exists i :: LastTouch(es, x, i) && es[i].kind == kind else x in t
  }

  /** Entry i touches x and no later one does. */
  ghost predicate LastTouch(es: seq<Entry>, x: nat, i: int) {
    0 <= i < |es| && Touches(es[i], x) && forall j :: i < j < |es| ==> !Touches(es[j], x)
  }

  lemma LastTouchNext(es: seq<Entry>, x: nat, i: int)
    requires es != []
    ensures LastTouch(es, x, i) <==>
            if Touches(es[|es| - 1], x) then i == |es| - 1 else LastTouch(es[..|es| - 1], x, i)
  {
    var front := es[..|es| - 1];
    assert forall j :: 0 <= j < |front| ==> front[j] == es[j];
    if Touches(es[|es| - 1], x) && 0 <= i < |es| - 1 {
      assert !LastTouch(es, x, i);
    }
  }

  lemma HeldNext(kind: MapType, t: set<nat>, es: seq<Entry>, x: nat)
    requires es != []
    ensures var e := es[|es| - 1];
            HeldAfter(kind, t, es, x) <==> if Touches(e, x) then e.kind == kind else HeldAfter(kind, t, es[..|es| - 1], x)
  {
    forall i
      ensures LastTouch(es, x, i) <==>
              if Touches(es[|es| - 1], x) then i == |es| - 1 else LastTouch(es[..|es| - 1], x, i)
    {
      LastTouchNext(es, x, i);
    }
    var front := es[..|es| - 1];
    if Touches(es[|es| - 1], x) {
      assert LastTouch(es, x, |es| - 1);
    } else if exists i :: LastTouch(front, x, i) {
      var i :| LastTouch(front, x, i);
      assert LastTouch(es, x, i) && front[i] == es[i];
      forall j | LastTouch(front, x, j)
        ensures j == i
      {
      }
    }
  }

  /** Entry i adds what is not there, or takes what is. */
  ghost predicate FitsIn(kind: MapType, t: set<nat>, es: seq<Entry>, i: nat)
    requires i < |es|
  {
    forall x: nat :: Touches(es[i], x) ==> (HeldAfter(kind, t, es[..i], x) <==> es[i].kind != kind)
  }

  /** A replay goes through exactly when every entry fits, and then holds what the last entries say. */
  lemma {:induction false} ReplayMeans(kind: MapType, t: set<nat>, es: seq<Entry>)
    ensures Replay(kind, Some(t), es).Some? <==> forall i :: 0 <= i < |es| ==> FitsIn(kind, t, es, i)
    ensures Replay(kind, Some(t), es).Some? ==>
              forall x: nat :: x in Replay(kind, Some(t), es).value <==> HeldAfter(kind, t, es, x)
  {
    if es != [] {
      var front, e := es[..|es| - 1], es[|es| - 1];
      ReplayMeans(kind, t, front);
      assert es == front + [e];
      ReplayConcat(kind, Some(t), front, [e]);
      FitsFront(kind, t, es);
      if Replay(kind, Some(t), front).Some? {
        ReplayLast(kind, t, es, Replay(kind, Some(t), front).value);
      }
    }
  }

  lemma FitsFront(kind: MapType, t: set<nat>, es: seq<Entry>)
    requires es != []
    ensures var front := es[..|es| - 1];
            (forall i :: 0 <= i < |es| ==> FitsIn(kind, t, es, i)) <==>
            (forall i :: 0 <= i < |front| ==> FitsIn(kind, t, front, i)) && FitsIn(kind, t, es, |es| - 1)
  {
    var front := es[..|es| - 1];
    forall i | 0 <= i < |es| - 1
      ensures FitsIn(kind, t, front, i) == FitsIn(kind, t, es, i)
    {
      assert front[..i] == es[..i];
    }
  }

  lemma ReplayLast(kind: MapType, t: set<nat>, es: seq<Entry>, before: set<nat>)
    requires es != [] && forall x: nat :: x in before <==> HeldAfter(kind, t, es[..|es| - 1], x)
    ensures var after := Replay(kind, Some(before), [es[|es| - 1]]);
            && (after.Some? <==> FitsIn(kind, t, es, |es| - 1))
            && (after.Some? ==> forall x: nat :: x in after.value <==> HeldAfter(kind, t, es, x))
  {
    var e := es[|es| - 1];
    assert [e][1..] == [];
    assert Replay(kind, Some(before), [e]) == Apply(kind, before, e);
    forall x: nat
      ensures HeldAfter(kind, t, es, x) <==> if Touches(e, x) then e.kind == kind else x in before
    {
      HeldNext(kind, t, es, x);
    }
    assert forall x: nat :: x in Span(e.offset, e.run) <==> Touches(e, x);
  }

  /** Byte x is loaded as allocated exactly when the last entry of the metaslab's history that touches it is an ALLOC. */
  lemma LoadedByte(p: Pool, history: seq<Entry>, k: Key, x: nat)
    requires IsKey(p, k) && SortedByTxg(history) && Records(p, history, k)
    requires Loaded(p, SM_ALLOC, k, |p.log|).Some?
    ensures x in Loaded(p, SM_ALLOC, k, |p.log|).value <==>
            exists i :: LastTouch(HistoryOf(p, history, k), x, i) && HistoryOf(p, history, k)[i].kind == SM_ALLOC
  {
    LoadedIsHistory(p, history, k);
    ReplayMeans(SM_ALLOC, {}, HistoryOf(p, history, k));
  }

  // ----- the two map types

  ghost predicate EntriesInside(p: Pool, k: Key)
    requires IsKey(p, k)
  {
    && Inside(Since(p, p.log, k), KeySpan(p, k))
    && (MetaslabOf(p, k).sm.Some? ==> Inside(MetaslabOf(p, k).sm.value, KeySpan(p, k)))
    && (forall i :: 0 <= i < |Since(p, p.log, k)| ==> Since(p, p.log, k)[i].run > 0)
  }

  /** The SM_FREE load is the complement of the SM_ALLOC load exactly when the metaslab has a space map. */
  lemma FreeIsComplementIff(p: Pool, k: Key)
    requires IsKey(p, k) && p.vdevs[k.0].msSize > 0 && EntriesInside(p, k)
    requires Loaded(p, SM_ALLOC, k, |p.log|).Some?
    ensures Loaded(p, SM_FREE, k, |p.log|) == Complement(KeySpan(p, k), Loaded(p, SM_ALLOC, k, |p.log|))
            <==> MetaslabOf(p, k).sm.Some?
  {
    var whole := KeySpan(p, k);
    var u := Unflushed(p, p.log, k);
    UnflushedIsSince(p, p.log, k);
    assert p.log[..|p.log|] == p.log;
    if MetaslabOf(p, k).sm.Some? {
      ReplayComplement(whole, Some({}), MetaslabOf(p, k).sm.value);
      assert whole - {} == whole;
      ReplayComplement(whole, Flushed(p, SM_ALLOC, k), u);
    } else {
      assert k.1 * p.vdevs[k.0].msSize in whole;
      assert whole - {} == whole && whole != {};
      if u != [] {
        assert u[0].offset in Span(u[0].offset, u[0].run);
        assert TreeRemove({}, u[0].offset, u[0].run).None?;
        assert Loaded(p, SM_ALLOC, k, |p.log|) == Replay(SM_ALLOC, Apply(SM_ALLOC, {}, u[0]), u[1..]);
        assert Apply(SM_ALLOC, {}, u[0]).Some?;
        assert Apply(SM_FREE, {}, u[0]).None?;
        assert Loaded(p, SM_FREE, k, |p.log|) == Replay(SM_FREE, Apply(SM_FREE, {}, u[0]), u[1..]);
      }
    }
  }

  /** A metaslab that never had a space map is loaded as having nothing free. */
  lemma NoSpaceMapNoFree()
    ensures var p := Pool([Vdev(true, 1, [Metaslab(0, None)])], []);
            Loaded(p, SM_ALLOC, (0, 0), 0) == Some({}) && Loaded(p, SM_FREE, (0, 0), 0) == Some({})
            && KeySpan(p, (0, 0)) == {0}
  {
  }

  // ----- sizes

  function SignedRun(e: Entry): int {
    var run: int := e.run;
    if e.kind == SM_ALLOC then run else -run
  }

  /** What the log entries that zdb does not skip add up to. */
  function SignedUnflushed(p: Pool, es: seq<Entry>): int
    requires forall i :: 0 <= i < |es| ==> LogEntryOk(p, es[i])
  {
    if es == [] then 0
    else
      var e := es[|es| - 1];
      assert LogEntryOk(p, e);
      SignedUnflushed(p, es[..|es| - 1]) + (if Relevant(p, e, KeyOf(p, e)) then SignedRun(e) else 0)
  }

  /** get_unflushed_alloc_space */
  method CountUnflushed(p: Pool) returns (total: int)
    requires WellFormed(p)
    ensures total == SignedUnflushed(p, p.log)
  {
    total := 0;
    for n := 0 to |p.log|
      invariant total == SignedUnflushed(p, p.log[..n])
    {
      var e := p.log[n];
      assert p.log[..n + 1][..n] == p.log[..n];
      assert LogEntryOk(p, e);
      var vd := p.vdevs[e.vdev];
      if vd.concrete && vd.ms[e.offset / vd.msSize].unflushedTxg <= e.txg {
        if e.kind == SM_ALLOC {
          total := total + e.run;
        } else {
          total := total - e.run;
        }
      }
    }
    assert p.log[..|p.log|] == p.log;
  }

  /** Every byte of the pool that some tree holds. */
  ghost function AllBytes(trees: Trees): set<(Key, nat)> {
    set k, x | k in trees && x in trees[k] :: (k, x)
  }

  function Tagged(k: Key, r: set<nat>): set<(Key, nat)> {
    set x | x in r :: (k, x)
  }

  lemma {:induction false} TaggedSize(k: Key, r: set<nat>)
    ensures |Tagged(k, r)| == |r|
    decreases |r|
  {
    if r == {} {
      assert Tagged(k, r) == {};
    } else {
      var x :| x in r;
      TaggedSize(k, r - {x});
      assert Tagged(k, r) == Tagged(k, r - {x}) + {(k, x)};
    }
  }

  lemma BytesAdded(trees: Trees, k: Key, r: set<nat>)
    requires k in trees && trees[k] !! r
    ensures |AllBytes(trees[k := trees[k] + r])| == |AllBytes(trees)| + |r|
  {
    TaggedSize(k, r);
    assert AllBytes(trees[k := trees[k] + r]) == AllBytes(trees) + Tagged(k, r);
    DisjointSize(AllBytes(trees), Tagged(k, r));
  }

  lemma BytesRemoved(trees: Trees, k: Key, r: set<nat>)
    requires k in trees && r <= trees[k]
    ensures |AllBytes(trees[k := trees[k] - r])| == |AllBytes(trees)| - |r|
  {
    TaggedSize(k, r);
    assert AllBytes(trees[k := trees[k] - r]) == AllBytes(trees) - Tagged(k, r);
    SubsetSize(AllBytes(trees), Tagged(k, r));
  }

  lemma ApplySize(trees: Trees, k: Key, e: Entry)
    requires k in trees && Apply(SM_ALLOC, trees[k], e).Some?
    ensures |AllBytes(trees[k := Apply(SM_ALLOC, trees[k], e).value])| == |AllBytes(trees)| + SignedRun(e)
  {
    SpanSize(e.offset, e.run);
    if e.kind == SM_ALLOC {
      BytesAdded(trees, k, Span(e.offset, e.run));
    } else {
      BytesRemoved(trees, k, Span(e.offset, e.run));
    }
  }

  /** `after` is `before` with log entry e applied wherever it is relevant. */
  ghost predicate Stepped(p: Pool, e: Entry, before: Trees, after: Trees) {
    && before.Keys == after.Keys
    && forall k: Key :: k in after ==>
         Some(after[k]) == if Relevant(p, e, k) then Apply(SM_ALLOC, before[k], e) else Some(before[k])
  }

  /** The tree of one metaslab one log entry earlier. */
  lemma TreeEarlier(p: Pool, n: nat, k: Key, after: set<nat>) returns (before: set<nat>)
    requires IsKey(p, k) && 0 < n <= |p.log| && Loaded(p, SM_ALLOC, k, n) == Some(after)
    ensures Loaded(p, SM_ALLOC, k, n - 1) == Some(before)
    ensures Some(after) == if Relevant(p, p.log[n - 1], k) then Apply(SM_ALLOC, before, p.log[n - 1]) else Some(before)
  {
    LoadedStep(p, SM_ALLOC, k, n - 1);
    before := Loaded(p, SM_ALLOC, k, n - 1).value;
  }

  /** All trees one log entry earlier. */
  lemma OneEntryEarlier(p: Pool, n: nat, trees: Trees) returns (before: Trees)
    requires WellFormed(p) && 0 < n <= |p.log| && TreesAre(p, SM_ALLOC, trees, n)
    ensures TreesAre(p, SM_ALLOC, before, n - 1)
    ensures Stepped(p, p.log[n - 1], before, trees)
  {
    before := TreesAt(p, SM_ALLOC, n - 1);
    TreesAreUnique(p, SM_ALLOC, trees, n);
    forall k: Key | k in trees
      ensures Loaded(p, SM_ALLOC, k, n - 1) == Some(before[k])
      ensures Some(trees[k]) ==
              if Relevant(p, p.log[n - 1], k) then Apply(SM_ALLOC, before[k], p.log[n - 1]) else Some(before[k])
    {
      var t := TreeEarlier(p, n, k, trees[k]);
    }
  }

  lemma StepSize(p: Pool, e: Entry, before: Trees, after: Trees)
    requires LogEntryOk(p, e) && Stepped(p, e, before, after)
    requires forall k: Key :: k in before <==> IsKey(p, k)
    ensures |AllBytes(after)| - |AllBytes(before)| ==
            if Relevant(p, e, KeyOf(p, e)) then SignedRun(e) else 0
  {
    var k := KeyOf(p, e);
    if Relevant(p, e, k) {
      assert after == before[k := Apply(SM_ALLOC, before[k], e).value];
      ApplySize(before, k, e);
    } else {
      assert after == before;
    }
  }

  /** The signed total is exactly how much more is allocated than the space maps alone say. */
  lemma {:induction false} SignedTotalIsGrowth(p: Pool, n: nat, flushed: Trees, trees: Trees)
    requires WellFormed(p) && n <= |p.log|
    requires TreesAre(p, SM_ALLOC, flushed, 0) && TreesAre(p, SM_ALLOC, trees, n)
    ensures SignedUnflushed(p, p.log[..n]) == |AllBytes(trees)| - |AllBytes(flushed)|
    decreases n
  {
    if n == 0 {
      assert trees == flushed;
    } else {
      var before := OneEntryEarlier(p, n, trees);
      assert p.log[..n][..n - 1] == p.log[..n - 1];
      SignedTotalIsGrowth(p, n - 1, flushed, before);
      assert LogEntryOk(p, p.log[n - 1]);
      StepSize(p, p.log[n - 1], before, trees);
    }
  }
}
