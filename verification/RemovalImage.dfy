/**
  Where the copies of a device removal lie: what zdb claims for it is the image of what is
  allocated and copied, byte by byte, under the mapping.
  */
module RemovalImage {
  import opened Ranges
  import opened RangeTrees
  import opened BlockPointers
  import opened SpaceMapReplay
  import opened LeakCheck
  import opened Removal

  /** The entry takes byte x of the removed vdev to byte y of vdev v. */
  predicate Takes(m: Move, x: nat, v: nat, y: nat) {
    m.src <= x < m.src + m.len && v == m.vdev && y == m.offset + (x - m.src)
  }

  ghost predicate CopiedTo(moves: seq<Move>, x: nat, v: nat, y: nat) {
    exists j :: 0 <= j < |moves| && Takes(moves[j], x, v, y)
  }

  predicate InDva(d: Dva, v: nat, y: nat) {
    v == d.vdev && d.offset <= y < d.offset + d.asize
  }

  ghost predicate Covered(ds: seq<Dva>, v: nat, y: nat) {
    exists i :: 0 <= i < |ds| && InDva(ds[i], v, y)
  }

  /** Some byte of t was copied to byte y of vdev v. */
  ghost predicate ImageOf(moves: seq<Move>, t: set<nat>, v: nat, y: nat) {
    exists x :: x in t && CopiedTo(moves, x, v, y)
  }

  lemma CoveredConcat(a: seq<Dva>, b: seq<Dva>, v: nat, y: nat)
    ensures Covered(a + b, v, y) <==> Covered(a, v, y) || Covered(b, v, y)
  {
    if Covered(a, v, y) {
      var i :| 0 <= i < |a| && InDva(a[i], v, y);
      assert (a + b)[i] == a[i];
    }
    if Covered(b, v, y) {
      var i :| 0 <= i < |b| && InDva(b[i], v, y);
      assert (a + b)[|a| + i] == b[i];
    }
    if Covered(a + b, v, y) {
      var i :| 0 <= i < |a + b| && InDva((a + b)[i], v, y);
      assert (a + b)[i] == if i < |a| then a[i] else b[i - |a|];
    }
  }

  lemma ImageUnion(moves: seq<Move>, a: set<nat>, b: set<nat>, v: nat, y: nat)
    ensures ImageOf(moves, a + b, v, y) <==> ImageOf(moves, a, v, y) || ImageOf(moves, b, v, y)
  {
  }

  /** A stretch inside one entry goes to one piece. */
  lemma EntryImage(moves: seq<Move>, i: nat, off: nat, n: nat, v: nat, y: nat)
    requires Ordered(moves) && i < |moves| && moves[i].src <= off && off + n <= moves[i].src + moves[i].len
    ensures ImageOf(moves, Span(off, n), v, y) <==>
            InDva(Dva(moves[i].vdev, moves[i].offset + (off - moves[i].src), n), v, y)
  {
    if ImageOf(moves, Span(off, n), v, y) {
      var x :| x in Span(off, n) && CopiedTo(moves, x, v, y);
      var j :| 0 <= j < |moves| && Takes(moves[j], x, v, y);
      assert j == i;
    }
    if InDva(Dva(moves[i].vdev, moves[i].offset + (off - moves[i].src), n), v, y) {
      var x := moves[i].src + (y - moves[i].offset);
      assert x in Span(off, n) && Takes(moves[i], x, v, y);
    }
  }

  lemma {:induction false} RemapFromImage(moves: seq<Move>, i: nat, off: nat, size: nat, v: nat, y: nat)
    requires Ordered(moves) && RemapFrom(moves, i, off, size).Some?
    ensures Covered(RemapFrom(moves, i, off, size).value, v, y) <==> ImageOf(moves, Span(off, size), v, y)
    decreases |moves| - i
  {
    if size == 0 {
      assert Span(off, size) == {};
    } else {
      var inner := off - moves[i].src;
      var n := if size < moves[i].len - inner then size else moves[i].len - inner;
      var piece := Dva(moves[i].vdev, moves[i].offset + inner, n);
      RemapFromImage(moves, i + 1, off + n, size - n, v, y);
      EntryImage(moves, i, off, n, v, y);
      SpanSplit(off, n, size - n);
      ImageUnion(moves, Span(off, n), Span(off + n, size - n), v, y);
      CoveredConcat([piece], RemapFrom(moves, i + 1, off + n, size - n).value, v, y);
      CoveredOne(piece, v, y);
    }
  }

  lemma CoveredOne(d: Dva, v: nat, y: nat)
    ensures Covered([d], v, y) <==> InDva(d, v, y)
  {
    assert [d][0] == d;
  }

  /** The pieces of a segment are the image of the segment. */
  lemma RemapImage(moves: seq<Move>, off: nat, size: nat, v: nat, y: nat)
    requires Ordered(moves) && Remap(moves, off, size).Some?
    ensures Covered(Remap(moves, off, size).value, v, y) <==> ImageOf(moves, Span(off, size), v, y)
  {
    RemapFromImage(moves, FirstFor(moves, off, |moves|), off, size, v, y);
  }

  lemma {:induction false} RemapAllImage(moves: seq<Move>, segs: seq<Seg>, n: nat, v: nat, y: nat)
    requires Ordered(moves) && n <= |segs| && RemapAll(moves, segs, n).Some?
    ensures Covered(RemapAll(moves, segs, n).value, v, y) <==> ImageOf(moves, FirstBytes(segs, n), v, y)
  {
    if n > 0 {
      RemapAllImage(moves, segs, n - 1, v, y);
      var s := segs[n - 1];
      RemapImage(moves, s.start, s.end - s.start, v, y);
      ImageUnion(moves, FirstBytes(segs, n - 1), SegBytes(s), v, y);
      CoveredConcat(RemapAll(moves, segs, n - 1).value, RemapSeg(moves, s).value, v, y);
    }
  }

  /** Byte y of vdev v is claimed exactly when some byte that is allocated and copied was copied to it. */
  lemma ExtentsImage(p: Pool, rem: Removing, v: nat, y: nat)
    requires RemovingOk(p, rem) && Ordered(rem.moves) && Extents(p, rem).Some?
    ensures Covered(Extents(p, rem).value, v, y) <==>
            exists x :: x in Copied(p, rem).value && CopiedTo(rem.moves, x, v, y)
  {
    var t := Copied(p, rem).value;
    RemapAllImage(rem.moves, SegsOf(t), |SegsOf(t)|, v, y);
    AllFirstBytes(SegsOf(t), t);
  }

  lemma {:induction false} JointHolds(ts: seq<Option<set<nat>>>, m: nat, x: nat)
    requires m <= |ts| && Joint(ts, m).Some?
    ensures x in Joint(ts, m).value <==> exists i :: 0 <= i < m && ts[i].Some? && x in ts[i].value
  {
    if m > 0 { JointHolds(ts, m - 1, x); }
  }

  /** What is allocated and copied: in some metaslab's tree, and not past the last copied offset. */
  lemma CopiedByte(p: Pool, rem: Removing, x: nat)
    requires WellFormed(p) && RemovingOk(p, rem) && Tidy(p, rem.vdev) && Copied(p, rem).Some?
    ensures x in Copied(p, rem).value <==>
            && !(rem.maxOffset <= x < rem.asize)
            && exists m :: 0 <= m < |p.vdevs[rem.vdev].ms| && InTree(p, (rem.vdev, m), x)
  {
    WholeIsJoint(p, rem.vdev, |p.log|);
    InJoint(p, rem.vdev, x);
  }

  lemma InJoint(p: Pool, v: nat, x: nat)
    requires v < |p.vdevs| && p.vdevs[v].concrete && Joint(LoadedTrees(p, v, |p.log|), |p.vdevs[v].ms|).Some?
    ensures x in Joint(LoadedTrees(p, v, |p.log|), |p.vdevs[v].ms|).value <==>
            exists m :: 0 <= m < |p.vdevs[v].ms| && InTree(p, (v, m), x)
  {
    var ts := LoadedTrees(p, v, |p.log|);
    JointHolds(ts, |ts|, x);
    forall m | 0 <= m < |ts|
      ensures InTree(p, (v, m), x) <==> ts[m].Some? && x in ts[m].value
    {
    }
  }

  ghost predicate InTree(p: Pool, k: Key, x: nat) {
    IsKey(p, k) && Loaded(p, SM_ALLOC, k, |p.log|).Some? && x in Loaded(p, SM_ALLOC, k, |p.log|).value
  }
}
