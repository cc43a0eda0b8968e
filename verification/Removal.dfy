/**
  A device removal that has not finished: what of the vdev is allocated and already copied,
  and where the copies are, for zdb to claim them there.
  */
module Removal {
  import opened Ranges
  import opened RangeTrees
  import opened Multiples
  import opened BlockPointers
  import opened SpaceMapReplay
  import opened LeakCheck

  /** A mapping entry: `len` bytes from `src` of the vdev being removed were copied to `offset` of `vdev`. */
  datatype Move = Move(src: nat, len: nat, vdev: nat, offset: nat)

  /** Everything below `maxOffset` has been copied; the vdev is `asize` bytes long. */
  datatype Removing = Removing(vdev: nat, maxOffset: nat, asize: nat, moves: seq<Move>)

  ghost predicate RemovingOk(p: Pool, rem: Removing) {
    rem.vdev < |p.vdevs| && p.vdevs[rem.vdev].concrete && rem.maxOffset <= rem.asize
  }

  /** A space map has no way to write an empty run. */
  ghost predicate RunsPositive(p: Pool) {
    && (forall i :: 0 <= i < |p.log| ==> p.log[i].run > 0)
    && (forall k: Key :: IsKey(p, k) && MetaslabOf(p, k).sm.Some? ==> PositiveRuns(MetaslabOf(p, k).sm.value))
  }

  ghost predicate PositiveRuns(es: seq<Entry>) {
    forall i :: 0 <= i < |es| ==> es[i].run > 0
  }

  // ----- the allocated space of the vdev, in one tree

  /** Two trees in one; None where they would collide. */
  ghost function Joined(a: Option<set<nat>>, b: Option<set<nat>>): Option<set<nat>> {
    if a.Some? && b.Some? && a.value !! b.value then Some(a.value + b.value) else None
  }

  /** The first m of some trees, in one. */
  ghost function Joint(ts: seq<Option<set<nat>>>, m: nat): Option<set<nat>>
    requires m <= |ts|
  {
    if m == 0 then Some({}) else Joined(Joint(ts, m - 1), ts[m - 1])
  }

  /** The trees of vdev v's metaslabs from their space maps, and after n log entries. */
  ghost function FlushedTrees(p: Pool, v: nat): seq<Option<set<nat>>>
    requires v < |p.vdevs| && p.vdevs[v].concrete
  {
    seq(|p.vdevs[v].ms|, m requires 0 <= m < |p.vdevs[v].ms| => Flushed(p, SM_ALLOC, (v, m)))
  }

  ghost function LoadedTrees(p: Pool, v: nat, n: nat): seq<Option<set<nat>>>
    requires v < |p.vdevs| && p.vdevs[v].concrete && n <= |p.log|
  {
    seq(|p.vdevs[v].ms|, m requires 0 <= m < |p.vdevs[v].ms| => Loaded(p, SM_ALLOC, (v, m), n))
  }

  predicate OfVdev(p: Pool, e: Entry, v: nat) {
    e.vdev == v && v < |p.vdevs| && p.vdevs[v].msSize > 0 && Relevant(p, e, KeyOf(p, e))
  }

  /** What an entry does to a tree that is not broken yet. */
  ghost function Next(t: Option<set<nat>>, e: Entry): Option<set<nat>> {
    if t.Some? then Apply(SM_ALLOC, t.value, e) else None
  }

  /** What log entry n makes of the vdev's tree. */
  ghost function After(p: Pool, v: nat, n: nat, t: Option<set<nat>>): Option<set<nat>>
    requires n < |p.log|
  {
    if OfVdev(p, p.log[n], v) then Next(t, p.log[n]) else t
  }

  /** What zdb finds allocated on vdev v: the space maps in one tree, then the log entries of the vdev that are not skipped. */
  ghost function Whole(p: Pool, v: nat, n: nat): Option<set<nat>>
    requires v < |p.vdevs| && p.vdevs[v].concrete && n <= |p.log|
  {
    if n == 0 then Joint(FlushedTrees(p, v), |p.vdevs[v].ms|)
    else After(p, v, n - 1, Whole(p, v, n - 1))
  }

  lemma {:induction false} NeverAgain(p: Pool, v: nat, n: nat, m: nat)
    requires v < |p.vdevs| && p.vdevs[v].concrete && n <= m <= |p.log| && Whole(p, v, n).None?
    ensures Whole(p, v, m).None?
    decreases m
  {
    if n < m {
      NeverAgain(p, v, n, m - 1);
    }
  }

  lemma {:induction false} JointFails(ts: seq<Option<set<nat>>>, m: nat, n: nat)
    requires m <= n <= |ts| && Joint(ts, m).None?
    ensures Joint(ts, n).None?
    decreases n
  {
    if m < n { JointFails(ts, m, n - 1); }
  }

  method ApplyTo(tree: RangeTree, e: Entry) returns (ok: bool)
    requires tree.Valid() && e.run > 0
    modifies tree
    ensures tree.Valid()
    ensures ok <==> Apply(SM_ALLOC, old(tree.contents), e).Some?
    ensures ok ==> Apply(SM_ALLOC, old(tree.contents), e) == Some(tree.contents)
  {
    if e.kind == SM_ALLOC {
      ok := tree.Add(e.offset, e.run);
    } else {
      ok := tree.Remove(e.offset, e.run);
    }
  }

  /** space_map_load into an empty tree. */
  method LoadTree(p: Pool, k: Key) returns (ok: bool, tree: RangeTree)
    requires IsKey(p, k) && RunsPositive(p)
    ensures fresh(tree) && tree.Valid()
    ensures ok <==> Flushed(p, SM_ALLOC, k).Some?
    ensures ok ==> Flushed(p, SM_ALLOC, k) == Some(tree.contents)
  {
    tree := new RangeTree();
    var sm := MetaslabOf(p, k).sm;
    if sm.None? {
      return true, tree;
    }
    var es := sm.value;
    assert PositiveRuns(es);
    for i := 0 to |es|
      invariant fresh(tree) && tree.Valid()
      invariant Replay(SM_ALLOC, Some({}), es) == Replay(SM_ALLOC, Some(tree.contents), es[i..])
    {
      assert es[i..][1..] == es[i + 1..];
      ok := ApplyTo(tree, es[i]);
      if !ok {
        return false, tree;
      }
    }
    return true, tree;
  }

  /** The offsets that the first n segments cover. */
  ghost function FirstBytes(segs: seq<Seg>, n: nat): set<nat>
    requires n <= |segs|
  {
    if n == 0 then {}
    else FirstBytes(segs, n - 1) + SegBytes(segs[n - 1])
  }

  lemma {:induction false} FirstBytesAre(segs: seq<Seg>, n: nat, x: nat)
    requires n <= |segs|
    ensures x in FirstBytes(segs, n) <==> exists i :: 0 <= i < n && segs[i].start <= x < segs[i].end
  {
    if n > 0 { FirstBytesAre(segs, n - 1, x); }
  }

  lemma AllFirstBytes(segs: seq<Seg>, t: set<nat>)
    requires Denotes(segs, t)
    ensures FirstBytes(segs, |segs|) == t
  {
    forall x: nat
      ensures x in FirstBytes(segs, |segs|) <==> x in t
    {
      FirstBytesAre(segs, |segs|, x);
      assert x in t <==> Covers(segs, x);
    }
  }

  lemma FirstBytesGrow(segs: seq<Seg>, n: nat, m: nat)
    requires n <= m <= |segs|
    ensures FirstBytes(segs, n) <= FirstBytes(segs, m)
    decreases m
  {
    if n < m { FirstBytesGrow(segs, n, m - 1); }
  }

  /** A segment does not meet those before it. */
  lemma NextSegment(segs: seq<Seg>, n: nat)
    requires Canonical(segs) && n < |segs|
    ensures segs[n].start < segs[n].end
    ensures FirstBytes(segs, n) !! SegBytes(segs[n])
  {
    forall x: nat | x in FirstBytes(segs, n)
      ensures x < segs[n].start
    {
      FirstBytesAre(segs, n, x);
    }
  }

  /** Segment n is part of `t` and does not meet those before it. */
  ghost predicate Fresh(segs: seq<Seg>, n: nat, t: set<nat>)
    requires n < |segs|
  {
    && segs[n].start < segs[n].end
    && FirstBytes(segs, n) !! SegBytes(segs[n])
    && FirstBytes(segs, n) + SegBytes(segs[n]) <= t
  }

  lemma NextOf(segs: seq<Seg>, n: nat, t: set<nat>)
    requires Denotes(segs, t) && n < |segs|
    ensures Fresh(segs, n, t)
  {
    AllFirstBytes(segs, t);
    NextSegment(segs, n);
    FirstBytesGrow(segs, n + 1, |segs|);
  }

  /** `prev` has joined t0. */
  ghost predicate Moved(now: set<nat>, t0: set<nat>, prev: set<nat>) {
    now == t0 + prev && t0 !! prev
  }

  /** zfs_range_tree_vacate with zfs_range_tree_add: fails exactly where the trees meet. */
  method Vacate(segs: seq<Seg>, ghost t: set<nat>, to: RangeTree) returns (ok: bool)
    requires to.Valid() && Denotes(segs, t)
    modifies to
    ensures to.Valid()
    ensures ok <==> old(to.contents) !! t
    ensures ok ==> to.contents == old(to.contents) + t
  {
    ghost var t0 := to.contents;
    for i := 0 to |segs|
      invariant to.Valid() && Moved(to.contents, t0, FirstBytes(segs, i))
    {
      ok := VacateNext(segs, i, t, t0, to);
      if !ok {
        return;
      }
    }
    AllFirstBytes(segs, t);
    return true;
  }

  method VacateNext(segs: seq<Seg>, i: nat, ghost t: set<nat>, ghost t0: set<nat>, to: RangeTree) returns (ok: bool)
    requires to.Valid() && Denotes(segs, t) && i < |segs| && Moved(to.contents, t0, FirstBytes(segs, i))
    modifies to
    ensures to.Valid()
    ensures if ok then Moved(to.contents, t0, FirstBytes(segs, i + 1)) else !(t0 !! t)
  {
    NextOf(segs, i, t);
    ok := VacateFresh(segs, i, t, t0, to);
  }

  method VacateFresh(segs: seq<Seg>, i: nat, ghost t: set<nat>, ghost t0: set<nat>, to: RangeTree) returns (ok: bool)
    requires to.Valid() && i < |segs| && Fresh(segs, i, t) && Moved(to.contents, t0, FirstBytes(segs, i))
    modifies to
    ensures to.Valid()
    ensures if ok then Moved(to.contents, t0, FirstBytes(segs, i + 1)) else !(t0 !! t)
  {
    ok := VacateOne(segs[i], t0, FirstBytes(segs, i), t, to);
  }

  /** One more segment of `t`, after `prev`. */
  method VacateOne(s: Seg, ghost t0: set<nat>, ghost prev: set<nat>, ghost t: set<nat>, to: RangeTree) returns (ok: bool)
    requires to.Valid() && s.start < s.end && Moved(to.contents, t0, prev)
    requires prev !! SegBytes(s) && prev + SegBytes(s) <= t
    modifies to
    ensures to.Valid()
    ensures if ok then Moved(to.contents, t0, prev + SegBytes(s)) else !(t0 !! t)
  {
    ok := to.Add(s.start, s.end - s.start);
  }

  /** One metaslab: load its space map, then move it over. */
  method GatherOne(p: Pool, v: nat, m: nat, ghost t: Option<set<nat>>, tree: RangeTree) returns (ok: bool)
    requires v < |p.vdevs| && p.vdevs[v].concrete && m < |p.vdevs[v].ms| && RunsPositive(p)
    requires tree.Valid() && t == Flushed(p, SM_ALLOC, (v, m))
    modifies tree
    ensures tree.Valid()
    ensures ok <==> Joined(Some(old(tree.contents)), t).Some?
    ensures ok ==> Joined(Some(old(tree.contents)), t) == Some(tree.contents)
  {
    var own;
    ok, own := LoadTree(p, (v, m));
    if ok {
      ok := Vacate(own.segs, own.contents, tree);
    }
  }

  /** The loop over the metaslabs. */
  method Gather(p: Pool, v: nat) returns (ok: bool, tree: RangeTree)
    requires v < |p.vdevs| && p.vdevs[v].concrete && RunsPositive(p)
    ensures fresh(tree) && tree.Valid()
    ensures ok <==> Joint(FlushedTrees(p, v), |p.vdevs[v].ms|).Some?
    ensures ok ==> Joint(FlushedTrees(p, v), |p.vdevs[v].ms|) == Some(tree.contents)
  {
    ok, tree := GatherTrees(p, v, FlushedTrees(p, v));
  }

  method GatherTrees(p: Pool, v: nat, ghost ts: seq<Option<set<nat>>>) returns (ok: bool, tree: RangeTree)
    requires v < |p.vdevs| && p.vdevs[v].concrete && RunsPositive(p)
    requires |ts| == |p.vdevs[v].ms| && forall m :: 0 <= m < |ts| ==> ts[m] == Flushed(p, SM_ALLOC, (v, m))
    ensures fresh(tree) && tree.Valid()
    ensures ok <==> Joint(ts, |ts|).Some?
    ensures ok ==> Joint(ts, |ts|) == Some(tree.contents)
  {
    tree := new RangeTree();
    for m := 0 to |p.vdevs[v].ms|
      invariant fresh(tree) && tree.Valid() && Joint(ts, m) == Some(tree.contents)
    {
      ok := GatherOne(p, v, m, ts[m], tree);
      if !ok {
        JointFails(ts, m + 1, |ts|);
        return false, tree;
      }
    }
    return true, tree;
  }

  method LoadStart(p: Pool, v: nat) returns (ok: bool, tree: RangeTree)
    requires RunsPositive(p) && v < |p.vdevs| && p.vdevs[v].concrete
    ensures fresh(tree) && tree.Valid()
    ensures ok <==> Whole(p, v, 0).Some?
    ensures ok ==> Whole(p, v, 0) == Some(tree.contents)
  {
    ok, tree := Gather(p, v);
  }

  /** The space maps, then the logs. */
  method LoadWhole(p: Pool, v: nat) returns (ok: bool, tree: RangeTree)
    requires WellFormed(p) && RunsPositive(p) && v < |p.vdevs| && p.vdevs[v].concrete
    ensures fresh(tree) && tree.Valid()
    ensures ok <==> Whole(p, v, |p.log|).Some?
    ensures ok ==> Whole(p, v, |p.log|) == Some(tree.contents)
  {
    ok, tree := LoadStart(p, v);
    var n := 0;
    while n < |p.log| && ok
      invariant fresh(tree) && tree.Valid() && n <= |p.log|
      invariant Whole(p, v, n).Some? <==> ok
      invariant ok ==> Whole(p, v, n) == Some(tree.contents)
    {
      assert LogEntryOk(p, p.log[n]);
      ok := LoadNext(p, v, n, tree);
      n := n + 1;
    }
    if !ok {
      NeverAgain(p, v, n, |p.log|);
    }
  }

  /** load_unflushed_svr_segs_cb on log entry n. */
  method LoadNext(p: Pool, v: nat, n: nat, tree: RangeTree) returns (ok: bool)
    requires v < |p.vdevs| && p.vdevs[v].concrete && n < |p.log| && LogEntryOk(p, p.log[n]) && p.log[n].run > 0
    requires tree.Valid() && Whole(p, v, n) == Some(tree.contents)
    modifies tree
    ensures tree.Valid()
    ensures ok <==> Whole(p, v, n + 1).Some?
    ensures ok ==> Whole(p, v, n + 1) == Some(tree.contents)
  {
    var e := p.log[n];
    ok := true;
    if e.vdev == v && p.vdevs[v].ms[e.offset / p.vdevs[v].msSize].unflushedTxg <= e.txg {
      ok := ApplyTo(tree, e);
    }
  }

  // ----- it is the metaslabs' trees, together

  /** No entry of vdev v leaves the metaslab it starts in. */
  ghost predicate Tidy(p: Pool, v: nat) {
    && (forall i :: 0 <= i < |p.log| && p.log[i].vdev == v ==> InOneMetaslab(p, p.log[i]))
    && (forall k: Key :: IsKey(p, k) && k.0 == v && MetaslabOf(p, k).sm.Some? ==>
          Inside(MetaslabOf(p, k).sm.value, KeySpan(p, k)))
  }

  ghost predicate InOneMetaslab(p: Pool, e: Entry) {
    e.vdev < |p.vdevs| && p.vdevs[e.vdev].msSize > 0 && Span(e.offset, e.run) <= KeySpan(p, KeyOf(p, e))
  }

  lemma {:induction false} LoadedInside(p: Pool, k: Key, n: nat)
    requires IsKey(p, k) && Tidy(p, k.0) && n <= |p.log|
    ensures Loaded(p, SM_ALLOC, k, n).GetOr({}) <= KeySpan(p, k)
    decreases n
  {
    if n == 0 {
      assert p.log[..0] == [];
      if MetaslabOf(p, k).sm.Some? {
        ReplayStays(SM_ALLOC, KeySpan(p, k), Some({}), MetaslabOf(p, k).sm.value);
      }
    } else {
      LoadedInside(p, k, n - 1);
      LoadedStep(p, SM_ALLOC, k, n - 1);
    }
  }

  lemma SpansApart(p: Pool, v: nat, m: nat, q: nat)
    requires v < |p.vdevs| && m != q
    ensures KeySpan(p, (v, m)) !! KeySpan(p, (v, q))
  {
    if m < q { LaterMultiple(m, q, p.vdevs[v].msSize); } else { LaterMultiple(q, m, p.vdevs[v].msSize); }
  }

  /** Each tree lies in a span of its own. */
  ghost predicate Housed(ts: seq<Option<set<nat>>>, spans: seq<set<nat>>) {
    && |ts| == |spans|
    && (forall i :: 0 <= i < |ts| && ts[i].Some? ==> ts[i].value <= spans[i])
    && (forall i, j :: 0 <= i < j < |spans| ==> spans[i] !! spans[j])
  }

  /** Housed trees do not collide, and what they hold together of one span is the tree that lives there. */
  lemma {:induction false} JointAt(ts: seq<Option<set<nat>>>, spans: seq<set<nat>>, m: nat, q: nat)
    requires Housed(ts, spans) && m <= |ts| && q < |ts|
    ensures Joint(ts, m).Some? <==> forall i :: 0 <= i < m ==> ts[i].Some?
    ensures Joint(ts, m).Some? && q < m ==> Joint(ts, m).value * spans[q] == ts[q].value
    ensures Joint(ts, m).Some? && q >= m ==> Joint(ts, m).value * spans[q] == {}
    decreases m
  {
    if m > 0 {
      JointAt(ts, spans, m - 1, q);
      JointAt(ts, spans, m - 1, m - 1);
      if Joint(ts, m - 1).Some? && ts[m - 1].Some? {
        NotThere(Joint(ts, m - 1).value, spans[m - 1], ts[m - 1].value);
        Meet(Joint(ts, m - 1).value, ts[m - 1].value, spans[q]);
      }
    }
  }

  lemma NotThere(u: set<nat>, span: set<nat>, own: set<nat>)
    requires u * span == {} && own <= span
    ensures u !! own
  {
    assert u * own <= u * span;
    assert forall x :: x in u && x in own ==> x in u * own;
  }

  lemma Meet(u: set<nat>, own: set<nat>, span: set<nat>)
    ensures own <= span ==> (u + own) * span == u * span + own
    ensures own !! span ==> (u + own) * span == u * span
  {
  }

  lemma Swap(u: set<nat>, own: set<nat>, span: set<nat>, t: set<nat>)
    ensures own <= span ==> u + own - span == u - span
    ensures own !! span ==> u - span + t + own == u + own - span + t
    ensures u * span == {} ==> u - span == u
  {
    assert forall x :: x in u && x in span ==> x in u * span;
  }

  /** Replacing one tree replaces what all hold of its span. */
  lemma {:induction false} JointUpdate(ts: seq<Option<set<nat>>>, spans: seq<set<nat>>, m: nat, q: nat, t: set<nat>)
    requires Housed(ts, spans) && m <= |ts| && q < |ts| && t <= spans[q] && Joint(ts, m).Some?
    ensures Joint(ts[q := Some(t)], m) ==
            if q < m then Some(Joint(ts, m).value - spans[q] + t) else Joint(ts, m)
    decreases m
  {
    if m > 0 {
      JointUpdate(ts, spans, m - 1, q, t);
      var ts' := ts[q := Some(t)];
      var u, own := Joint(ts, m - 1).value, ts[m - 1].value;
      JointAt(ts, spans, m - 1, q);
      Swap(u, own, spans[q], t);
      if q == m - 1 {
        NotThere(u, spans[q], t);
        assert ts'[m - 1] == Some(t);
      } else {
        assert ts'[m - 1] == Some(own);
        if q < m - 1 { Disjoint3(u, spans[q], t, own, spans[m - 1]); }
      }
    }
  }

  lemma Disjoint3(u: set<nat>, span: set<nat>, t: set<nat>, own: set<nat>, home: set<nat>)
    requires u !! own && t <= span && own <= home && span !! home
    ensures (u - span + t) !! own
  {
  }

  /** An entry inside one span does to the union what it does to the tree that lives there. */
  lemma ApplyInUnion(u: set<nat>, span: set<nat>, t: set<nat>, e: Entry)
    requires u * span == t && Span(e.offset, e.run) <= span
    ensures Apply(SM_ALLOC, u, e).Some? <==> Apply(SM_ALLOC, t, e).Some?
    ensures Apply(SM_ALLOC, t, e).Some? ==>
              Apply(SM_ALLOC, t, e).value <= span && Apply(SM_ALLOC, u, e) == Some(u - span + Apply(SM_ALLOC, t, e).value)
  {
    var r := Span(e.offset, e.run);
    assert u !! r <==> t !! r by {
      assert forall x :: x in r ==> (x in u <==> x in u * span);
    }
    assert r <= u <==> r <= t by {
      assert forall x :: x in r ==> (x in u <==> x in u * span);
    }
    assert u + r == u - span + (t + r);
    assert u - r == u - span + (t - r);
  }

  lemma JointStep(ts: seq<Option<set<nat>>>, spans: seq<set<nat>>, q: nat, e: Entry)
    requires Housed(ts, spans) && q < |ts| && Span(e.offset, e.run) <= spans[q]
    ensures Joint(ts[q := Next(ts[q], e)], |ts|) == Next(Joint(ts, |ts|), e)
  {
    JointAt(ts, spans, |ts|, q);
    if Joint(ts, |ts|).None? {
      var i :| 0 <= i < |ts| && ts[i].None?;
      JointBroken(ts[q := Next(ts[q], e)], |ts|, i);
    } else {
      ApplyInUnion(Joint(ts, |ts|).value, spans[q], ts[q].value, e);
      if Next(ts[q], e).Some? {
        JointUpdate(ts, spans, |ts|, q, Next(ts[q], e).value);
      } else {
        JointBroken(ts[q := Next(ts[q], e)], |ts|, q);
      }
    }
  }

  lemma {:induction false} JointBroken(ts: seq<Option<set<nat>>>, m: nat, i: nat)
    requires i < m <= |ts| && ts[i].None?
    ensures Joint(ts, m).None?
    decreases m
  {
    if i < m - 1 { JointBroken(ts, m - 1, i); }
  }

  ghost function VdevSpans(p: Pool, v: nat): seq<set<nat>>
    requires v < |p.vdevs|
  {
    seq(|p.vdevs[v].ms|, m requires 0 <= m < |p.vdevs[v].ms| => KeySpan(p, (v, m)))
  }

  lemma TreesHoused(p: Pool, v: nat, n: nat)
    requires v < |p.vdevs| && p.vdevs[v].concrete && n <= |p.log| && Tidy(p, v)
    ensures Housed(LoadedTrees(p, v, n), VdevSpans(p, v))
  {
    forall m | 0 <= m < |p.vdevs[v].ms|
      ensures Loaded(p, SM_ALLOC, (v, m), n).GetOr({}) <= VdevSpans(p, v)[m]
    {
      LoadedInside(p, (v, m), n);
    }
    forall i, j | 0 <= i < j < |p.vdevs[v].ms|
      ensures VdevSpans(p, v)[i] !! VdevSpans(p, v)[j]
    {
      SpansApart(p, v, i, j);
    }
  }

  lemma TreesAtStart(p: Pool, v: nat)
    requires v < |p.vdevs| && p.vdevs[v].concrete
    ensures LoadedTrees(p, v, 0) == FlushedTrees(p, v)
  {
    assert p.log[..0] == [];
  }

  /** A log entry changes the tree of one metaslab, or none. */
  lemma TreesStep(p: Pool, v: nat, n: nat)
    requires WellFormed(p) && v < |p.vdevs| && p.vdevs[v].concrete && n < |p.log|
    ensures var ts := LoadedTrees(p, v, n);
            LoadedTrees(p, v, n + 1) ==
              if OfVdev(p, p.log[n], v) then
                var q := KeyOf(p, p.log[n]).1; ts[q := Next(ts[q], p.log[n])]
              else ts
  {
    forall m | 0 <= m < |p.vdevs[v].ms|
      ensures Loaded(p, SM_ALLOC, (v, m), n + 1) ==
              if OfVdev(p, p.log[n], v) && m == KeyOf(p, p.log[n]).1
              then Next(Loaded(p, SM_ALLOC, (v, m), n), p.log[n]) else Loaded(p, SM_ALLOC, (v, m), n)
    {
      LoadedStep(p, SM_ALLOC, (v, m), n);
    }
  }

  lemma LoadedJointStep(p: Pool, v: nat, n: nat)
    requires WellFormed(p) && v < |p.vdevs| && p.vdevs[v].concrete && n < |p.log| && Tidy(p, v)
    ensures JointAfter(p, v, n + 1) == After(p, v, n, JointAfter(p, v, n))
  {
    TreesStep(p, v, n);
    if OfVdev(p, p.log[n], v) {
      assert InOneMetaslab(p, p.log[n]);
      TreesHoused(p, v, n);
      JointStep(LoadedTrees(p, v, n), VdevSpans(p, v), KeyOf(p, p.log[n]).1, p.log[n]);
    }
  }

  /** One tree for the vdev holds what its metaslabs' trees hold, and fails exactly when one of them does. */
  lemma WholeIsJoint(p: Pool, v: nat, n: nat)
    requires WellFormed(p) && v < |p.vdevs| && p.vdevs[v].concrete && n <= |p.log| && Tidy(p, v)
    ensures Whole(p, v, n) == Joint(LoadedTrees(p, v, n), |p.vdevs[v].ms|)
  {
    JointsFollow(p, v);
    WholeAlong(p, v, Joints(p, v), n);
  }

  ghost function Joints(p: Pool, v: nat): seq<Option<set<nat>>>
    requires v < |p.vdevs| && p.vdevs[v].concrete
  {
    seq(|p.log| + 1, i requires 0 <= i <= |p.log| => JointAfter(p, v, i))
  }

  ghost function JointAfter(p: Pool, v: nat, n: nat): Option<set<nat>>
    requires v < |p.vdevs| && p.vdevs[v].concrete && n <= |p.log|
  {
    Joint(LoadedTrees(p, v, n), |p.vdevs[v].ms|)
  }

  ghost predicate Along(p: Pool, v: nat, js: seq<Option<set<nat>>>)
    requires v < |p.vdevs| && p.vdevs[v].concrete
  {
    && |js| == |p.log| + 1 && js[0] == Whole(p, v, 0)
    && forall i :: 0 <= i < |p.log| ==> js[i + 1] == After(p, v, i, js[i])
  }

  lemma JointsFollow(p: Pool, v: nat)
    requires WellFormed(p) && v < |p.vdevs| && p.vdevs[v].concrete && Tidy(p, v)
    ensures Along(p, v, Joints(p, v))
  {
    JointsStart(p, v);
    forall i | 0 <= i < |p.log|
      ensures Joints(p, v)[i + 1] == After(p, v, i, Joints(p, v)[i])
    {
      JointsNext(p, v, i);
    }
  }

  lemma JointsNext(p: Pool, v: nat, n: nat)
    requires WellFormed(p) && v < |p.vdevs| && p.vdevs[v].concrete && n < |p.log| && Tidy(p, v)
    ensures Joints(p, v)[n + 1] == After(p, v, n, Joints(p, v)[n])
  {
    LoadedJointStep(p, v, n);
    JointsAt(p, v, n);
  }

  lemma JointsAt(p: Pool, v: nat, n: nat)
    requires v < |p.vdevs| && p.vdevs[v].concrete && n < |p.log|
    requires JointAfter(p, v, n + 1) == After(p, v, n, JointAfter(p, v, n))
    ensures Joints(p, v)[n + 1] == After(p, v, n, Joints(p, v)[n])
  {
  }

  lemma JointsStart(p: Pool, v: nat)
    requires v < |p.vdevs| && p.vdevs[v].concrete
    ensures Joints(p, v)[0] == Whole(p, v, 0)
  {
    TreesAtStart(p, v);
  }

  lemma {:induction false} WholeAlong(p: Pool, v: nat, js: seq<Option<set<nat>>>, n: nat)
    requires v < |p.vdevs| && p.vdevs[v].concrete && n <= |p.log| && Along(p, v, js)
    ensures Whole(p, v, n) == js[n]
  {
    if n > 0 {
      WholeAlong(p, v, js, n - 1);
      assert js[n - 1 + 1] == After(p, v, n - 1, js[n - 1]);
    }
  }

  // ----- where the copies are

  ghost predicate Ordered(moves: seq<Move>) {
    && (forall i :: 0 <= i < |moves| ==> moves[i].len > 0)
    && (forall i, j :: 0 <= i < j < |moves| ==> moves[i].src + moves[i].len <= moves[j].src)
  }

  predicate Holds(m: Move, x: nat) {
    m.src <= x < m.src + m.len
  }

  ghost predicate IsMapped(moves: seq<Move>, x: nat) {
    exists i :: 0 <= i < |moves| && Holds(moves[i], x)
  }

  ghost predicate AllWithin(moves: seq<Move>, off: nat, size: nat) {
    forall x: nat :: Within(x, off, size) ==> IsMapped(moves, x)
  }

  /** Follow the entries from number i; None where an assertion would fail. */
  function RemapFrom(moves: seq<Move>, i: nat, off: nat, size: nat): Option<seq<Dva>>
    decreases |moves| - i
  {
    if size == 0 then Some([])
    else if i >= |moves| || !Holds(moves[i], off) then None
    else
      var inner := off - moves[i].src;
      var n := if size < moves[i].len - inner then size else moves[i].len - inner;
      var rest := RemapFrom(moves, i + 1, off + n, size - n);
      if rest.None? then None else Some([Dva(moves[i].vdev, moves[i].offset + inner, n)] + rest.value)
  }

  /** The first entry that does not end at or before the offset. */
  method EntryFor(moves: seq<Move>, off: nat) returns (i: nat)
    requires Ordered(moves)
    ensures i <= |moves|
    ensures forall j :: 0 <= j < i ==> moves[j].src + moves[j].len <= off
    ensures i < |moves| ==> off < moves[i].src + moves[i].len
  {
    var lo, hi := 0, |moves|;
    while lo < hi
      invariant 0 <= lo <= hi <= |moves|
      invariant forall j :: 0 <= j < lo ==> moves[j].src + moves[j].len <= off
      invariant hi < |moves| ==> off < moves[hi].src + moves[hi].len
    {
      var mid := lo + (hi - lo) / 2;
      if moves[mid].src + moves[mid].len <= off {
        lo := mid + 1;
      } else {
        hi := mid;
      }
    }
    return lo;
  }

  ghost function FirstFor(moves: seq<Move>, off: nat, n: nat): nat
    requires n <= |moves|
  {
    if n == 0 || moves[n - 1].src + moves[n - 1].len <= off then n else FirstFor(moves, off, n - 1)
  }

  lemma {:induction false} FirstForIs(moves: seq<Move>, off: nat, n: nat, i: nat)
    requires Ordered(moves) && i <= n <= |moves|
    requires forall j :: 0 <= j < i ==> moves[j].src + moves[j].len <= off
    requires i < |moves| ==> off < moves[i].src + moves[i].len
    ensures FirstFor(moves, off, n) == i
    decreases n
  {
    if i < n {
      assert i < n - 1 ==> moves[i].src + moves[i].len <= moves[n - 1].src;
      FirstForIs(moves, off, n - 1, i);
    }
  }

  /** vdev_indirect_remap of one segment. */
  ghost function Remap(moves: seq<Move>, off: nat, size: nat): Option<seq<Dva>> {
    RemapFrom(moves, FirstFor(moves, off, |moves|), off, size)
  }

  /** What was found so far, and the rest if it can be found. */
  ghost function Glue(pieces: seq<Dva>, rest: Option<seq<Dva>>): Option<seq<Dva>> {
    if rest.None? then None else Some(pieces + rest.value)
  }

  lemma GlueStep(pieces: seq<Dva>, piece: Dva, rest: Option<seq<Dva>>)
    ensures Glue(pieces, Glue([piece], rest)) == Glue(pieces + [piece], rest)
    ensures Glue([], rest) == rest
    ensures Glue(pieces, Some([])) == Some(pieces)
  {
    assert pieces + [] == pieces;
    if rest.Some? {
      assert pieces + ([piece] + rest.value) == pieces + [piece] + rest.value;
      assert [] + rest.value == rest.value;
    }
  }

  method RemapSegment(moves: seq<Move>, off: nat, size: nat) returns (ok: bool, pieces: seq<Dva>)
    requires Ordered(moves)
    ensures ok <==> Remap(moves, off, size).Some?
    ensures ok ==> Remap(moves, off, size) == Some(pieces)
  {
    var i: nat := EntryFor(moves, off);
    FirstForIs(moves, off, |moves|, i);
    pieces := [];
    var at: nat, left: nat := off, size;
    GlueStep([], Dva(0, 0, 0), Remap(moves, off, size));
    while left > 0
      invariant Remap(moves, off, size) == Glue(pieces, RemapFrom(moves, i, at, left))
      decreases |moves| - i
    {
      if i >= |moves| || !Holds(moves[i], at) {
        return false, pieces;
      }
      var inner := at - moves[i].src;
      var n := if left < moves[i].len - inner then left else moves[i].len - inner;
      var piece := Dva(moves[i].vdev, moves[i].offset + inner, n);
      GlueStep(pieces, piece, RemapFrom(moves, i + 1, at + n, left - n));
      assert RemapFrom(moves, i, at, left) == Glue([piece], RemapFrom(moves, i + 1, at + n, left - n));
      pieces := pieces + [piece];
      at, left, i := at + n, left - n, i + 1;
    }
    GlueStep(pieces, Dva(0, 0, 0), None);
    return true, pieces;
  }

  /** The pieces are as long as the segment. */
  lemma {:induction false} RemapSum(moves: seq<Move>, i: nat, off: nat, size: nat)
    requires RemapFrom(moves, i, off, size).Some?
    ensures SumAsize(RemapFrom(moves, i, off, size).value) == size
    decreases |moves| - i
  {
    if size > 0 {
      var inner := off - moves[i].src;
      var n := if size < moves[i].len - inner then size else moves[i].len - inner;
      RemapSum(moves, i + 1, off + n, size - n);
      var rest := RemapFrom(moves, i + 1, off + n, size - n).value;
      assert ([Dva(moves[i].vdev, moves[i].offset + inner, n)] + rest)[1..] == rest;
    }
  }

  /** The entry that holds the offset after an entry's end is the next one. */
  lemma NextEntry(moves: seq<Move>, i: nat, x: nat)
    requires Ordered(moves) && i < |moves| && x == moves[i].src + moves[i].len && IsMapped(moves, x)
    ensures i + 1 < |moves| && Holds(moves[i + 1], x)
  {
    var j :| 0 <= j < |moves| && Holds(moves[j], x);
    assert i < j;
    assert moves[i + 1].len > 0 && x <= moves[i + 1].src;
    assert j == i + 1;
  }

  lemma WithinSplit(moves: seq<Move>, off: nat, n: nat, rest: nat)
    ensures AllWithin(moves, off, n + rest) <==> AllWithin(moves, off, n) && AllWithin(moves, off + n, rest)
  {
    if AllWithin(moves, off, n) && AllWithin(moves, off + n, rest) {
      forall x: nat | Within(x, off, n + rest)
        ensures IsMapped(moves, x)
      {
        assert Within(x, off, n) || Within(x, off + n, rest);
      }
    }
    if AllWithin(moves, off, n + rest) {
      forall x: nat | Within(x, off, n) || Within(x, off + n, rest)
        ensures IsMapped(moves, x)
      {
        assert Within(x, off, n + rest);
      }
    }
  }

  lemma EntryMaps(moves: seq<Move>, i: nat, off: nat, n: nat)
    requires i < |moves| && moves[i].src <= off && off + n <= moves[i].src + moves[i].len
    ensures AllWithin(moves, off, n)
  {
    forall x: nat | Within(x, off, n)
      ensures IsMapped(moves, x)
    {
      assert Holds(moves[i], x);
    }
  }

  lemma {:induction false} RemapFromIff(moves: seq<Move>, i: nat, off: nat, size: nat)
    requires Ordered(moves) && i < |moves| && Holds(moves[i], off)
    ensures RemapFrom(moves, i, off, size).Some? <==> AllWithin(moves, off, size)
    decreases |moves| - i, 1
  {
    var left := moves[i].len - (off - moves[i].src);
    if size <= left {
      EntryMaps(moves, i, off, size);
      assert size > 0 ==> RemapFrom(moves, i + 1, off + size, 0) == Some([]);
    } else {
      EntryMaps(moves, i, off, left);
      WithinSplit(moves, off, left, size - left);
      RemapRestIff(moves, i, off + left, size - left);
    }
  }

  /** What comes after an entry's end. */
  lemma {:induction false} RemapRestIff(moves: seq<Move>, i: nat, off: nat, size: nat)
    requires Ordered(moves) && i < |moves| && off == moves[i].src + moves[i].len && size > 0
    ensures RemapFrom(moves, i + 1, off, size).Some? <==> AllWithin(moves, off, size)
    decreases |moves| - i, 0
  {
    assert Within(off, off, size);
    if IsMapped(moves, off) {
      NextEntry(moves, i, off);
      RemapFromIff(moves, i + 1, off, size);
    } else {
      assert !(i + 1 < |moves| && Holds(moves[i + 1], off));
    }
  }

  /** A segment can be remapped exactly when all of it is mapped. */
  lemma RemapIff(moves: seq<Move>, off: nat, size: nat)
    requires Ordered(moves)
    ensures Remap(moves, off, size).Some? <==> AllWithin(moves, off, size)
  {
    var i := FirstEntry(moves, off);
    if i < |moves| && Holds(moves[i], off) {
      RemapFromIff(moves, i, off, size);
    } else if size > 0 {
      forall j | 0 <= j < |moves|
        ensures !Holds(moves[j], off)
      {
        if i < j { assert moves[i].src + moves[i].len <= moves[j].src; }
      }
      assert !IsMapped(moves, off);
    }
  }

  lemma FirstEntry(moves: seq<Move>, off: nat) returns (i: nat)
    requires Ordered(moves)
    ensures i <= |moves| && FirstFor(moves, off, |moves|) == i
    ensures forall j :: 0 <= j < i ==> moves[j].src + moves[j].len <= off
    ensures i < |moves| ==> off < moves[i].src + moves[i].len
  {
    i := 0;
    while i < |moves| && moves[i].src + moves[i].len <= off
      invariant 0 <= i <= |moves|
      invariant forall j :: 0 <= j < i ==> moves[j].src + moves[j].len <= off
    {
      i := i + 1;
    }
    FirstForIs(moves, off, |moves|, i);
  }

  // ----- the whole of it

  ghost function Both(a: Option<seq<Dva>>, b: Option<seq<Dva>>): Option<seq<Dva>> {
    if a.None? || b.None? then None else Some(a.value + b.value)
  }

  ghost function RemapSeg(moves: seq<Move>, s: Seg): Option<seq<Dva>> {
    if s.start <= s.end then Remap(moves, s.start, s.end - s.start) else None
  }

  /** The pieces of the first n segments. */
  ghost function RemapAll(moves: seq<Move>, segs: seq<Seg>, n: nat): Option<seq<Dva>>
    requires n <= |segs|
  {
    if n == 0 then Some([]) else Both(RemapAll(moves, segs, n - 1), RemapSeg(moves, segs[n - 1]))
  }

  lemma {:induction false} RemapAllFails(moves: seq<Move>, segs: seq<Seg>, n: nat, m: nat)
    requires n <= m <= |segs| && RemapAll(moves, segs, n).None?
    ensures RemapAll(moves, segs, m).None?
    decreases m
  {
    if n < m { RemapAllFails(moves, segs, n, m - 1); }
  }

  lemma {:induction false} SumAppend(a: seq<Dva>, b: seq<Dva>)
    ensures SumAsize(a + b) == SumAsize(a) + SumAsize(b)
    decreases |a|
  {
    if a == [] {
      assert a + b == b;
    } else {
      SumAppend(a[1..], b);
      assert (a + b)[1..] == a[1..] + b;
    }
  }

  /** The lengths of the first n segments, added up. */
  ghost function Lengths(segs: seq<Seg>, n: nat): int
    requires n <= |segs|
  {
    if n == 0 then 0 else Lengths(segs, n - 1) + (segs[n - 1].end - segs[n - 1].start)
  }

  lemma {:induction false} RemapAllSum(moves: seq<Move>, segs: seq<Seg>, n: nat)
    requires n <= |segs| && RemapAll(moves, segs, n).Some?
    ensures SumAsize(RemapAll(moves, segs, n).value) == Lengths(segs, n)
  {
    if n > 0 {
      SumStep(moves, segs, n - 1);
      RemapAllSum(moves, segs, n - 1);
    }
  }

  lemma LengthsAre(segs: seq<Seg>)
    requires Canonical(segs)
    ensures Lengths(segs, |segs|) == |FirstBytes(segs, |segs|)|
  {
    forall i | 0 <= i < |segs|
      ensures Grows(segs, i)
    {
      OneMoreSegment(segs, i);
    }
    LengthsTo(segs, |segs|);
  }

  ghost predicate Grows(segs: seq<Seg>, n: nat)
    requires n < |segs|
  {
    |FirstBytes(segs, n + 1)| == |FirstBytes(segs, n)| + (segs[n].end - segs[n].start)
  }

  lemma {:induction false} LengthsTo(segs: seq<Seg>, n: nat)
    requires n <= |segs| && forall i :: 0 <= i < |segs| ==> Grows(segs, i)
    ensures Lengths(segs, n) == |FirstBytes(segs, n)|
  {
    if n > 0 {
      LengthsTo(segs, n - 1);
      assert Grows(segs, n - 1);
    }
  }

  lemma SumStep(moves: seq<Move>, segs: seq<Seg>, n: nat)
    requires n < |segs| && RemapAll(moves, segs, n + 1).Some?
    ensures RemapAll(moves, segs, n).Some?
    ensures SumAsize(RemapAll(moves, segs, n + 1).value) ==
            SumAsize(RemapAll(moves, segs, n).value) + (segs[n].end - segs[n].start)
  {
    SegSum(moves, segs[n]);
    SumAppend(RemapAll(moves, segs, n).value, RemapSeg(moves, segs[n]).value);
  }

  lemma SegSum(moves: seq<Move>, s: Seg)
    requires RemapSeg(moves, s).Some?
    ensures SumAsize(RemapSeg(moves, s).value) == s.end - s.start
  {
    RemapSum(moves, FirstFor(moves, s.start, |moves|), s.start, s.end - s.start);
  }

  lemma OneMoreSegment(segs: seq<Seg>, n: nat)
    requires Canonical(segs) && n < |segs|
    ensures Grows(segs, n)
  {
    NextSegment(segs, n);
    GrowBy(FirstBytes(segs, n), segs[n]);
  }

  lemma GrowBy(a: set<nat>, s: Seg)
    requires s.start < s.end && a !! SegBytes(s)
    ensures |a + SegBytes(s)| == |a| + (s.end - s.start)
  {
    DisjointSize(a, SegBytes(s));
    SpanSize(s.start, s.end - s.start);
  }

  /** The part of the vdev that is allocated and has been copied. */
  ghost function Copied(p: Pool, rem: Removing): Option<set<nat>>
    requires RemovingOk(p, rem)
  {
    var t := Whole(p, rem.vdev, |p.log|);
    if t.None? then None else Some(t.value - Span(rem.maxOffset, rem.asize - rem.maxOffset))
  }

  /** The extents that zdb claims for it. */
  ghost function Extents(p: Pool, rem: Removing): Option<seq<Dva>>
    requires RemovingOk(p, rem)
  {
    var t := Copied(p, rem);
    if t.None? then None else RemapAll(rem.moves, SegsOf(t.value), |SegsOf(t.value)|)
  }

  /** Remap one more segment. */
  method RemapNextSegment(moves: seq<Move>, segs: seq<Seg>, i: nat, extents: seq<Dva>)
    returns (ok: bool, out: seq<Dva>)
    requires Ordered(moves) && i < |segs| && segs[i].start < segs[i].end && RemapAll(moves, segs, i) == Some(extents)
    ensures ok <==> RemapAll(moves, segs, i + 1).Some?
    ensures ok ==> RemapAll(moves, segs, i + 1) == Some(out)
  {
    var pieces;
    ok, pieces := RemapSegment(moves, segs[i].start, segs[i].end - segs[i].start);
    out := extents + pieces;
  }

  /** Vacating the tree with a remap of every segment. */
  method RemapTree(moves: seq<Move>, segs: seq<Seg>) returns (ok: bool, extents: seq<Dva>)
    requires Ordered(moves) && Canonical(segs)
    ensures ok <==> RemapAll(moves, segs, |segs|).Some?
    ensures ok ==> RemapAll(moves, segs, |segs|) == Some(extents)
  {
    extents := [];
    for i := 0 to |segs|
      invariant RemapAll(moves, segs, i) == Some(extents)
    {
      ok, extents := RemapNextSegment(moves, segs, i, extents);
      if !ok {
        RemapAllFails(moves, segs, i + 1, |segs|);
        return;
      }
    }
    ok := true;
  }

  /** The sum of the pieces is the size of the set. */
  lemma PiecesSum(moves: seq<Move>, segs: seq<Seg>, t: set<nat>)
    requires Denotes(segs, t) && RemapAll(moves, segs, |segs|).Some?
    ensures SumAsize(RemapAll(moves, segs, |segs|).value) == |t|
  {
    RemapAllSum(moves, segs, |segs|);
    LengthsAre(segs);
    AllFirstBytes(segs, t);
  }

  /** Load the vdev, then clear what lies past the last copied offset. */
  method LoadCopied(p: Pool, rem: Removing) returns (ok: bool, tree: RangeTree)
    requires WellFormed(p) && RunsPositive(p) && RemovingOk(p, rem)
    ensures fresh(tree) && tree.Valid()
    ensures ok <==> Copied(p, rem).Some?
    ensures ok ==> Copied(p, rem) == Some(tree.contents)
  {
    ok, tree := LoadWhole(p, rem.vdev);
    if ok {
      CopiedIs(p, rem, tree.contents);
      tree.Clear(rem.maxOffset, rem.asize - rem.maxOffset);
    }
  }

  lemma CopiedIs(p: Pool, rem: Removing, t: set<nat>)
    requires RemovingOk(p, rem) && Whole(p, rem.vdev, |p.log|) == Some(t)
    ensures Copied(p, rem) == Some(t - Span(rem.maxOffset, rem.asize - rem.maxOffset))
  {
  }

  /** zdb_claim_removing up to its claims: the extents to claim and their size. */
  method FindRemoving(p: Pool, rem: Removing) returns (ok: bool, extents: seq<Dva>, size: nat)
    requires WellFormed(p) && RunsPositive(p) && RemovingOk(p, rem) && Ordered(rem.moves)
    ensures ok <==> Extents(p, rem).Some?
    ensures ok ==> Extents(p, rem) == Some(extents) && size == SumAsize(extents)
    ensures ok ==> size == |Copied(p, rem).value|
  {
    extents, size := [], 0;
    var tree;
    ok, tree := LoadCopied(p, rem);
    if !ok {
      return;
    }
    size := tree.space;
    SegsOfIs(tree.segs, tree.contents);
    ok, extents := RemapTree(rem.moves, tree.segs);
    if ok {
      PiecesSum(rem.moves, tree.segs, tree.contents);
    }
  }

  ghost predicate AllMapped(moves: seq<Move>, t: set<nat>) {
    forall x :: x in t ==> IsMapped(moves, x)
  }

  /** Extents are found exactly when the vdev's metaslabs load and all that was copied is mapped. */
  lemma ExtentsIff(p: Pool, rem: Removing)
    requires WellFormed(p) && RemovingOk(p, rem) && Ordered(rem.moves) && Tidy(p, rem.vdev)
    ensures var all := Joint(LoadedTrees(p, rem.vdev, |p.log|), |p.vdevs[rem.vdev].ms|);
            Extents(p, rem).Some? <==>
            all.Some? && AllMapped(rem.moves, all.value - Span(rem.maxOffset, rem.asize - rem.maxOffset))
  {
    WholeIsJoint(p, rem.vdev, |p.log|);
    if Copied(p, rem).Some? {
      SetRemapIff(rem.moves, Copied(p, rem).value);
    }
  }

  lemma SetRemapIff(moves: seq<Move>, t: set<nat>)
    requires Ordered(moves)
    ensures RemapAll(moves, SegsOf(t), |SegsOf(t)|).Some? <==> AllMapped(moves, t)
  {
    forall i | 0 <= i < |SegsOf(t)|
      ensures SegMappedIff(moves, SegsOf(t)[i])
    {
      SegMapped(moves, SegsOf(t)[i]);
    }
    RemapAllIff(moves, SegsOf(t), |SegsOf(t)|);
    AllFirstBytes(SegsOf(t), t);
  }

  ghost predicate RemapsIff(moves: seq<Move>, segs: seq<Seg>, n: nat)
    requires n <= |segs|
  {
    RemapAll(moves, segs, n).Some? <==> AllMapped(moves, FirstBytes(segs, n))
  }

  ghost predicate SegMappedIff(moves: seq<Move>, s: Seg) {
    s.start < s.end && (RemapSeg(moves, s).Some? <==> AllMapped(moves, SegBytes(s)))
  }

  lemma {:induction false} RemapAllIff(moves: seq<Move>, segs: seq<Seg>, n: nat)
    requires n <= |segs| && forall i :: 0 <= i < |segs| ==> SegMappedIff(moves, segs[i])
    ensures RemapsIff(moves, segs, n)
  {
    if n > 0 {
      RemapAllIff(moves, segs, n - 1);
      assert SegMappedIff(moves, segs[n - 1]);
      RemapNextIff(moves, segs, n - 1);
    }
  }

  lemma RemapNextIff(moves: seq<Move>, segs: seq<Seg>, n: nat)
    requires n < |segs| && SegMappedIff(moves, segs[n]) && RemapsIff(moves, segs, n)
    ensures RemapsIff(moves, segs, n + 1)
  {
    MappedUnion(moves, FirstBytes(segs, n), SegBytes(segs[n]));
  }

  lemma MappedUnion(moves: seq<Move>, a: set<nat>, b: set<nat>)
    ensures AllMapped(moves, a + b) <==> AllMapped(moves, a) && AllMapped(moves, b)
  {
  }

  lemma SegMapped(moves: seq<Move>, s: Seg)
    requires Ordered(moves) && s.start < s.end
    ensures SegMappedIff(moves, s)
  {
    RemapIff(moves, s.start, s.end - s.start);
    SpanMapped(moves, s.start, s.end - s.start);
  }

  lemma SpanMapped(moves: seq<Move>, off: nat, size: nat)
    ensures AllWithin(moves, off, size) <==> AllMapped(moves, Span(off, size))
  {
    if AllMapped(moves, Span(off, size)) {
      forall x: nat | Within(x, off, size)
        ensures IsMapped(moves, x)
      {
        assert x in Span(off, size);
      }
    }
  }
}
