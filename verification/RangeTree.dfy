/**
  The range tree of module/zfs/range_tree.c without gap support (rt_gap == 0), held as
  the ordered sequence of its segments, and proved to be the set of offsets it covers.
  */
module RangeTrees {
  import opened Ranges

  /** [start, end) */
  datatype Seg = Seg(start: nat, end: nat)

  /** The tree's comparator: overlapping segments compare equal. */
  function Compare(a: Seg, b: Seg): int {
    (if a.start >= b.end then 1 else 0) - (if a.end <= b.start then 1 else 0)
  }

  /** Segments are non-empty, ordered, and neither overlap nor touch. */
  ghost predicate Canonical(s: seq<Seg>) {
    && (forall i :: 0 <= i < |s| ==> s[i].start < s[i].end)
    && (forall i, j :: 0 <= i < j < |s| ==> s[i].end < s[j].start)
  }

  function SegBytes(a: Seg): set<nat> {
    if a.start <= a.end then Span(a.start, a.end - a.start) else {}
  }

  ghost predicate Covers(s: seq<Seg>, x: nat) {
    exists i :: 0 <= i < |s| && s[i].start <= x < s[i].end
  }

  /** `s` is the canonical list of the segments of the set `t`. */
  ghost predicate Denotes(s: seq<Seg>, t: set<nat>) {
    Canonical(s) && forall x: nat {:trigger Covers(s, x)} :: x in t <==> Covers(s, x)
  }

  // ----- replacing a stretch of segments

  function Splice(s: seq<Seg>, lo: nat, hi: nat, mid: seq<Seg>): seq<Seg>
    requires lo <= hi <= |s|
  {
    s[..lo] + mid + s[hi..]
  }

  /** x lies in a segment of s outside the stretch from lo to hi. */
  ghost predicate CoversOutside(s: seq<Seg>, lo: nat, hi: nat, x: nat) {
    exists i :: (0 <= i < lo || hi <= i < |s|) && i < |s| && s[i].start <= x < s[i].end
  }

  lemma SpliceCovers(s: seq<Seg>, lo: nat, hi: nat, mid: seq<Seg>, x: nat)
    requires lo <= hi <= |s|
    ensures Covers(Splice(s, lo, hi, mid), x) <==> Covers(mid, x) || CoversOutside(s, lo, hi, x)
  {
    var r := Splice(s, lo, hi, mid);
    if Covers(r, x) {
      var i :| 0 <= i < |r| && r[i].start <= x < r[i].end;
      if i < lo {
        assert s[i] == r[i];
      } else if i < lo + |mid| {
        assert mid[i - lo] == r[i];
      } else {
        assert s[i - lo - |mid| + hi] == r[i];
      }
    }
    if Covers(mid, x) {
      var i :| 0 <= i < |mid| && mid[i].start <= x < mid[i].end;
      assert r[lo + i] == mid[i];
    }
    if CoversOutside(s, lo, hi, x) {
      var i :| (0 <= i < lo || hi <= i < |s|) && i < |s| && s[i].start <= x < s[i].end;
      if i < lo {
        assert r[i] == s[i];
      } else {
        assert r[i - hi + lo + |mid|] == s[i];
      }
    }
  }

  /** r is s with the stretch from lo to hi replaced by mid, as far as what it covers goes. */
  ghost predicate Replaced(s: seq<Seg>, lo: nat, hi: nat, mid: seq<Seg>, r: seq<Seg>) {
    forall x: nat {:trigger Covers(r, x)} :: Covers(r, x) <==> Covers(mid, x) || CoversOutside(s, lo, hi, x)
  }

  lemma SpliceReplaces(s: seq<Seg>, lo: nat, hi: nat, mid: seq<Seg>)
    requires lo <= hi <= |s|
    ensures Replaced(s, lo, hi, mid, Splice(s, lo, hi, mid))
  {
    forall x: nat
      ensures Covers(Splice(s, lo, hi, mid), x) <==> Covers(mid, x) || CoversOutside(s, lo, hi, x)
    {
      SpliceCovers(s, lo, hi, mid, x);
    }
  }

  lemma SpliceCanonical(s: seq<Seg>, lo: nat, hi: nat, mid: seq<Seg>)
    requires Canonical(s) && Canonical(mid) && lo <= hi <= |s|
    requires lo > 0 && mid != [] ==> s[lo - 1].end < mid[0].start
    requires hi < |s| && mid != [] ==> mid[|mid| - 1].end < s[hi].start
    ensures Canonical(Splice(s, lo, hi, mid))
  {
    var r := Splice(s, lo, hi, mid);
    forall i, j | 0 <= i < j < |r|
      ensures r[i].end < r[j].start
    {
      if i < lo {
        assert r[i] == s[i];
        if lo <= j < lo + |mid| {
          assert r[i].end <= s[lo - 1].end;
        }
      } else if i < lo + |mid| {
        assert r[i].end <= mid[|mid| - 1].end;
        if j >= lo + |mid| {
          assert r[j] == s[hi + (j - lo - |mid|)];
        }
      }
    }
  }

  // ----- what a segment list says about its set

  /** Segment `at` is a maximal run of the set. */
  lemma SegmentAt(s: seq<Seg>, t: set<nat>, at: nat)
    requires Denotes(s, t) && at < |s|
    ensures Span(s[at].start, s[at].end - s[at].start) <= t
    ensures s[at].end !in t
    ensures s[at].start > 0 ==> s[at].start - 1 !in t
  {
    assert !Covers(s, s[at].end);
    assert s[at].start > 0 ==> !Covers(s, s[at].start - 1);
    forall x: nat | s[at].start <= x < s[at].end
      ensures x in t
    {
      assert Covers(s, x);
    }
  }

  /** A range is wholly present exactly when one segment covers all of it. */
  lemma ContainedInOneSegment(s: seq<Seg>, t: set<nat>, start: nat, size: nat)
    requires Denotes(s, t) && size > 0
    ensures Span(start, size) <= t <==>
            exists i :: 0 <= i < |s| && s[i].start <= start && start + size <= s[i].end
  {
    if Span(start, size) <= t {
      assert start in Span(start, size) && Covers(s, start);
      var i :| 0 <= i < |s| && s[i].start <= start < s[i].end;
      SegmentAt(s, t, i);
      assert s[i].end !in Span(start, size);
    }
    forall i | 0 <= i < |s| && s[i].start <= start && start + size <= s[i].end
      ensures Span(start, size) <= t
    {
      SegmentAt(s, t, i);
    }
  }

  /** A set has one canonical list: the tree's shape does not depend on its history. */
  lemma {:induction false} CanonicalUnique(a: seq<Seg>, b: seq<Seg>, t: set<nat>)
    requires Denotes(a, t) && Denotes(b, t)
    ensures a == b
    decreases |a|
  {
    assert a != [] ==> Covers(a, a[0].start) && Covers(b, a[0].start);
    assert b != [] ==> Covers(b, b[0].start) && Covers(a, b[0].start);
    if a != [] {
      FirstAgrees(a, b, t);
      TailDenotes(a, t);
      TailDenotes(b, t);
      CanonicalUnique(a[1..], b[1..], t - Span(a[0].start, a[0].end - a[0].start));
      assert a == [a[0]] + a[1..] && b == [b[0]] + b[1..];
    }
  }

  lemma FirstAgrees(a: seq<Seg>, b: seq<Seg>, t: set<nat>)
    requires Denotes(a, t) && Denotes(b, t) && a != [] && b != []
    ensures a[0] == b[0]
  {
    SegmentAt(a, t, 0);
    SegmentAt(b, t, 0);
    assert Covers(a, a[0].start) && Covers(b, a[0].start);
    assert Covers(b, b[0].start) && Covers(a, b[0].start);
    assert a[0].start == b[0].start;
    assert a[0].end !in Span(b[0].start, b[0].end - b[0].start);
    assert b[0].end !in Span(a[0].start, a[0].end - a[0].start);
  }

  lemma TailDenotes(a: seq<Seg>, t: set<nat>)
    requires Denotes(a, t) && a != []
    ensures Denotes(a[1..], t - Span(a[0].start, a[0].end - a[0].start))
  {
    forall x: nat
      ensures Covers(a[1..], x) <==> Covers(a, x) && !(a[0].start <= x < a[0].end)
    {
      if Covers(a[1..], x) {
        var i :| 0 <= i < |a[1..]| && a[1..][i].start <= x < a[1..][i].end;
        assert a[i + 1] == a[1..][i];
      }
      if Covers(a, x) && !(a[0].start <= x < a[0].end) {
        var i :| 0 <= i < |a| && a[i].start <= x < a[i].end;
        assert a[1..][i - 1] == a[i];
      }
    }
  }

  /** Every set has a canonical list. */
  lemma {:induction false} CanonicalExists(t: set<nat>) returns (s: seq<Seg>)
    ensures Denotes(s, t)
    decreases |t|
  {
    if t == {} {
      s := [];
    } else {
      var x := Largest(t);
      var front := CanonicalExists(t - {x});
      s := AppendOffset(front, t - {x}, x);
      assert t - {x} + {x} == t;
    }
  }

  lemma {:induction false} Largest(t: set<nat>) returns (x: nat)
    requires t != {}
    ensures x in t && forall y :: y in t ==> y <= x
    decreases |t|
  {
    x :| x in t;
    var rest := t - {x};
    assert forall w :: w in t ==> w == x || w in rest;
    if rest != {} {
      var y := Largest(rest);
      x := if x < y then y else x;
    }
  }

  /** An offset above all others lengthens the last segment or starts a new one. */
  lemma AppendOffset(s: seq<Seg>, t: set<nat>, x: nat) returns (r: seq<Seg>)
    requires Denotes(s, t) && x !in t && forall y :: y in t ==> y < x
    ensures Denotes(r, t + {x})
  {
    assert forall i :: 0 <= i < |s| ==> s[i].end <= x by {
      forall i | 0 <= i < |s|
        ensures s[i].end <= x
      {
        assert Covers(s, s[i].end - 1);
      }
    }
    assert Gap(s, |s|, x, x + 1);
    r := Insert(s, |s|, x, x + 1);
    InsertDenotes(s, t, |s|, x, 1);
    assert Span(x, 1) == {x};
  }

  /** The segments of a set. */
  ghost function SegsOf(t: set<nat>): (s: seq<Seg>)
    ensures Denotes(s, t)
  {
    assert exists s :: Denotes(s, t) by { var s := CanonicalExists(t); }
    var s :| Denotes(s, t); s
  }

  lemma SegsOfIs(s: seq<Seg>, t: set<nat>)
    requires Denotes(s, t)
    ensures SegsOf(t) == s
  {
    CanonicalUnique(SegsOf(t), s, t);
  }

  // ----- searching

  /** `at` is where a range that overlaps nothing belongs. */
  ghost predicate Gap(s: seq<Seg>, at: nat, start: nat, end: nat) {
    && at <= |s|
    && (forall i :: 0 <= i < at ==> s[i].end <= start)
    && (forall i :: at <= i < |s| ==> end <= s[i].start)
  }

  /** The overlap search of the underlying tree, over the ordered segments. */
  method Find(s: seq<Seg>, probe: Seg) returns (found: bool, at: nat)
    requires Canonical(s) && probe.start < probe.end
    ensures at <= |s|
    ensures found ==> at < |s| && Compare(s[at], probe) == 0
    ensures !found ==> Gap(s, at, probe.start, probe.end)
  {
    var lo, hi := 0, |s|;
    while lo < hi
      invariant 0 <= lo <= hi <= |s|
      invariant forall i :: 0 <= i < lo ==> s[i].end <= probe.start
      invariant forall i :: hi <= i < |s| ==> probe.end <= s[i].start
    {
      var mid := lo + (hi - lo) / 2;
      var c := Compare(s[mid], probe);
      if c == 0 {
        return true, mid;
      } else if c < 0 {
        lo := mid + 1;
      } else {
        hi := mid;
      }
    }
    return false, lo;
  }

  /** The search misses exactly when the range and the set are disjoint. */
  lemma Missed(s: seq<Seg>, t: set<nat>, at: nat, start: nat, size: nat)
    requires Denotes(s, t) && Gap(s, at, start, start + size)
    ensures t !! Span(start, size)
  {
    forall x: nat | start <= x < start + size
      ensures x !in t
    {
      assert !Covers(s, x);
    }
  }

  lemma Hit(s: seq<Seg>, t: set<nat>, at: nat, start: nat, size: nat)
    requires Denotes(s, t) && at < |s| && size > 0
    requires Compare(s[at], Seg(start, start + size)) == 0
    ensures !(t !! Span(start, size))
  {
    SegmentAt(s, t, at);
    var x := if s[at].start < start then start else s[at].start;
    assert x in Span(s[at].start, s[at].end - s[at].start) && x in Span(start, size);
  }

  /** The segment that was hit decides whether the range is wholly present. */
  lemma HitDecides(s: seq<Seg>, t: set<nat>, at: nat, start: nat, size: nat)
    requires Denotes(s, t) && at < |s| && size > 0
    requires Compare(s[at], Seg(start, start + size)) == 0
    ensures Span(start, size) <= t <==> s[at].start <= start && start + size <= s[at].end
  {
    ContainedInOneSegment(s, t, start, size);
    forall i | 0 <= i < |s| && i != at
      ensures !(s[i].start <= start && start + size <= s[i].end)
    {
      if i < at { assert s[i].end < s[at].start; } else { assert s[at].end < s[i].start; }
    }
  }

  // ----- insertion and removal, as replacements of a stretch

  lemma OneSegment(a: Seg, x: nat)
    ensures Covers([a], x) <==> a.start <= x < a.end
  {
    assert [a][0] == a;
  }

  /** The stretch that an added range replaces, and the segment that takes its place. */
  function InsertLo(s: seq<Seg>, at: nat, start: nat): nat
    requires at <= |s|
  {
    if at > 0 && s[at - 1].end >= start then at - 1 else at
  }

  function InsertHi(s: seq<Seg>, at: nat, end: nat): nat
    requires at <= |s|
  {
    if at < |s| && s[at].start <= end then at + 1 else at
  }

  function InsertSeg(s: seq<Seg>, at: nat, start: nat, end: nat): Seg
    requires at <= |s|
  {
    Seg(if InsertLo(s, at, start) < at then s[at - 1].start else start,
        if at < InsertHi(s, at, end) then s[at].end else end)
  }

  function Insert(s: seq<Seg>, at: nat, start: nat, end: nat): seq<Seg>
    requires at <= |s|
  {
    Splice(s, InsertLo(s, at, start), InsertHi(s, at, end), [InsertSeg(s, at, start, end)])
  }

  /** The four ways an added range meets its neighbours. */
  lemma InsertCases(s: seq<Seg>, at: nat, start: nat, end: nat)
    requires at <= |s|
    ensures var mergeBefore := at > 0 && s[at - 1].end >= start;
            var mergeAfter := at < |s| && s[at].start <= end;
            Insert(s, at, start, end) ==
              if mergeBefore && mergeAfter then s[..at - 1] + [Seg(s[at - 1].start, s[at].end)] + s[at + 1..]
              else if mergeBefore then s[..at - 1] + [Seg(s[at - 1].start, end)] + s[at..]
              else if mergeAfter then s[..at] + [Seg(start, s[at].end)] + s[at + 1..]
              else s[..at] + [Seg(start, end)] + s[at..]
  {
  }

  lemma InsertCanonical(s: seq<Seg>, at: nat, start: nat, end: nat)
    requires Canonical(s) && start < end && Gap(s, at, start, end)
    ensures Canonical(Insert(s, at, start, end))
  {
    SpliceCanonical(s, InsertLo(s, at, start), InsertHi(s, at, end), [InsertSeg(s, at, start, end)]);
  }

  /** The replaced neighbours are part of the new segment. */
  lemma InsertCovers(s: seq<Seg>, at: nat, start: nat, end: nat, x: nat)
    requires Canonical(s) && start < end && Gap(s, at, start, end)
    ensures var lo, hi, seg := InsertLo(s, at, start), InsertHi(s, at, end), InsertSeg(s, at, start, end);
            (seg.start <= x < seg.end) || CoversOutside(s, lo, hi, x) <==> Covers(s, x) || start <= x < end
  {
    var lo, hi, seg := InsertLo(s, at, start), InsertHi(s, at, end), InsertSeg(s, at, start, end);
    if Covers(s, x) {
      var i :| 0 <= i < |s| && s[i].start <= x < s[i].end;
      assert i < lo || hi <= i < |s| || (lo < at && i == at - 1) || (at < hi && i == at);
    }
    if seg.start <= x < seg.end && !(start <= x < end) {
      assert (lo < at && s[at - 1].start <= x < s[at - 1].end) || (at < hi && s[at].start <= x < s[at].end);
    }
  }

  /** r covers what s covers, and the range; r covers what s covers, but not the range. */
  ghost predicate Widened(s: seq<Seg>, start: nat, size: nat, r: seq<Seg>) {
    forall x: nat {:trigger Covers(r, x)} :: Covers(r, x) <==> Covers(s, x) || Within(x, start, size)
  }

  ghost predicate Narrowed(s: seq<Seg>, start: nat, size: nat, r: seq<Seg>) {
    forall x: nat {:trigger Covers(r, x)} :: Covers(r, x) <==> Covers(s, x) && !Within(x, start, size)
  }

  lemma WidenedDenotes(s: seq<Seg>, t: set<nat>, start: nat, size: nat, r: seq<Seg>)
    requires Denotes(s, t) && Canonical(r) && Widened(s, start, size, r)
    ensures Denotes(r, t + Span(start, size))
  {
  }

  lemma NarrowedDenotes(s: seq<Seg>, t: set<nat>, start: nat, size: nat, r: seq<Seg>)
    requires Denotes(s, t) && Canonical(r) && Narrowed(s, start, size, r)
    ensures Denotes(r, t - Span(start, size))
  {
  }

  lemma InsertWidens(s: seq<Seg>, at: nat, start: nat, size: nat, r: seq<Seg>)
    requires Canonical(s) && size > 0 && Gap(s, at, start, start + size)
    requires Replaced(s, InsertLo(s, at, start), InsertHi(s, at, start + size), [InsertSeg(s, at, start, start + size)], r)
    ensures Widened(s, start, size, r)
  {
    forall x: nat
      ensures Covers(r, x) <==> Covers(s, x) || Within(x, start, size)
    {
      InsertCovers(s, at, start, start + size, x);
      OneSegment(InsertSeg(s, at, start, start + size), x);
    }
  }

  lemma InsertDenotes(s: seq<Seg>, t: set<nat>, at: nat, start: nat, size: nat)
    requires Denotes(s, t) && size > 0 && Gap(s, at, start, start + size)
    ensures Denotes(Insert(s, at, start, start + size), t + Span(start, size))
  {
    var lo, hi, seg := InsertLo(s, at, start), InsertHi(s, at, start + size), InsertSeg(s, at, start, start + size);
    InsertCanonical(s, at, start, start + size);
    SpliceReplaces(s, lo, hi, [seg]);
    InsertedDenotes(s, t, at, start, size, Insert(s, at, start, start + size));
  }

  lemma InsertedDenotes(s: seq<Seg>, t: set<nat>, at: nat, start: nat, size: nat, r: seq<Seg>)
    requires Denotes(s, t) && size > 0 && Gap(s, at, start, start + size) && Canonical(r)
    requires Replaced(s, InsertLo(s, at, start), InsertHi(s, at, start + size), [InsertSeg(s, at, start, start + size)], r)
    ensures Denotes(r, t + Span(start, size))
  {
    InsertWidens(s, at, start, size, r);
    WidenedDenotes(s, t, start, size, r);
  }

  /** What is left of the one segment that covers a removed range. */
  function Remains(rs: Seg, start: nat, end: nat): seq<Seg> {
    var leftOver := rs.start != start;
    var rightOver := rs.end != end;
    if leftOver && rightOver then
      [Seg(rs.start, start), Seg(end, rs.end)]
    else if leftOver then
      [Seg(rs.start, start)]
    else if rightOver then
      [Seg(end, rs.end)]
    else
      []
  }

  lemma RemainsCovers(rs: Seg, start: nat, end: nat, x: nat)
    requires rs.start <= start < end <= rs.end
    ensures Canonical(Remains(rs, start, end))
    ensures Covers(Remains(rs, start, end), x) <==> rs.start <= x < rs.end && !(start <= x < end)
  {
    var m := Remains(rs, start, end);
    if rs.start <= x < start {
      assert m[0] == Seg(rs.start, start);
    }
    if end <= x < rs.end {
      assert m[|m| - 1] == Seg(end, rs.end);
    }
  }

  function Carve(s: seq<Seg>, at: nat, start: nat, end: nat): seq<Seg>
    requires at < |s|
  {
    Splice(s, at, at + 1, Remains(s[at], start, end))
  }

  lemma CarveCovers(s: seq<Seg>, at: nat, start: nat, end: nat, x: nat)
    requires Canonical(s) && at < |s| && s[at].start <= start < end <= s[at].end
    ensures Covers(Carve(s, at, start, end), x) <==> Covers(s, x) && !(start <= x < end)
  {
    SpliceCovers(s, at, at + 1, Remains(s[at], start, end), x);
    RemainsCovers(s[at], start, end, x);
  }

  lemma CarveNarrows(s: seq<Seg>, at: nat, start: nat, size: nat)
    requires Canonical(s) && at < |s| && size > 0 && s[at].start <= start && start + size <= s[at].end
    ensures Narrowed(s, start, size, Carve(s, at, start, start + size))
  {
    forall x: nat
      ensures Covers(Carve(s, at, start, start + size), x) <==> Covers(s, x) && !Within(x, start, size)
    {
      CarveCovers(s, at, start, start + size, x);
    }
  }

  lemma CarveCanonical(s: seq<Seg>, at: nat, start: nat, size: nat)
    requires Canonical(s) && at < |s| && size > 0 && s[at].start <= start && start + size <= s[at].end
    ensures Canonical(Carve(s, at, start, start + size))
  {
    RemainsCovers(s[at], start, start + size, 0);
    SpliceCanonical(s, at, at + 1, Remains(s[at], start, start + size));
  }

  lemma CarveDenotes(s: seq<Seg>, t: set<nat>, at: nat, start: nat, size: nat)
    requires Denotes(s, t) && at < |s| && size > 0
    requires s[at].start <= start && start + size <= s[at].end
    ensures Denotes(Carve(s, at, start, start + size), t - Span(start, size))
  {
    CarveCanonical(s, at, start, size);
    CarveNarrows(s, at, start, size);
    NarrowedDenotes(s, t, start, size, Carve(s, at, start, start + size));
  }

  /** The first run of a request, once the segment it starts in is known. */
  lemma RunFound(s: seq<Seg>, t: set<nat>, at: nat, start: nat, size: nat, ostart: nat, osize: nat)
    requires Denotes(s, t) && at < |s| && size > 0
    requires start <= ostart < start + size && s[at].start <= ostart < s[at].end
    requires t !! Span(start, ostart - start)
    requires ostart + osize == (if start + size < s[at].end then start + size else s[at].end)
    ensures FirstRun(t, start, size, ostart, osize)
    ensures !(t !! Span(start, size))
  {
    SegmentAt(s, t, at);
    assert ostart in Span(s[at].start, s[at].end - s[at].start) && ostart in Span(start, size);
  }

  class RangeTree {
    var segs: seq<Seg>
    var space: nat
    ghost var contents: set<nat>

    ghost predicate Valid()
      reads this
    {
      Denotes(segs, contents) && space == |contents|
    }

    constructor ()
      ensures Valid() && contents == {}
    {
      segs := [];
      space := 0;
      contents := {};
    }

    /** zfs_range_tree_add: create, extend or merge segments; refuse an overlap. */
    method Add(start: nat, size: nat) returns (ok: bool)
      requires Valid() && size > 0
      modifies this
      ensures Valid()
      ensures ok <==> TreeAdd(old(contents), start, size).Some?
      ensures ok ==> TreeAdd(old(contents), start, size) == Some(contents)
      ensures !ok ==> segs == old(segs) && contents == old(contents)
    {
      var found, at := Find(segs, Seg(start, start + size));
      if found {
        Hit(segs, contents, at, start, size);
        return false;
      }
      Missed(segs, contents, at, start, size);
      InsertDenotes(segs, contents, at, start, size);
      TreeOpSize(contents, start, size);
      var next := Insert(segs, at, start, start + size);
      ghost var all := contents + Span(start, size);
      segs, space, contents := next, space + size, all;
      return true;
    }

    /** zfs_range_tree_remove: drop, shorten or split one segment; refuse anything else. */
    method Remove(start: nat, size: nat) returns (ok: bool)
      requires Valid() && size > 0
      modifies this
      ensures Valid()
      ensures ok <==> TreeRemove(old(contents), start, size).Some?
      ensures ok ==> TreeRemove(old(contents), start, size) == Some(contents)
      ensures !ok ==> segs == old(segs) && contents == old(contents)
    {
      TreeOpSize(contents, start, size);
      if size > space {
        return false;
      }
      var found, at := Find(segs, Seg(start, start + size));
      if !found {
        Missed(segs, contents, at, start, size);
        assert start in Span(start, size);
        return false;
      }
      HitDecides(segs, contents, at, start, size);
      if !(segs[at].start <= start && segs[at].end >= start + size) {
        return false;
      }
      CarveDenotes(segs, contents, at, start, size);
      segs := Carve(segs, at, start, start + size);
      space := space - size;
      contents := contents - Span(start, size);
      return true;
    }

    /** zfs_range_tree_contains */
    method Contains(start: nat, size: nat) returns (b: bool)
      requires Valid() && size > 0
      ensures b <==> Span(start, size) <= contents
    {
      var found, at := Find(segs, Seg(start, start + size));
      if !found {
        Missed(segs, contents, at, start, size);
        assert start in Span(start, size);
        return false;
      }
      HitDecides(segs, contents, at, start, size);
      b := segs[at].start <= start && segs[at].end >= start + size;
    }

    /**
      zfs_range_tree_find_in: the first part of the request that the tree holds; an empty
      request is answered with an empty run if its start is there.
      */
    method FindIn(start: nat, size: nat) returns (found: bool, ostart: nat, osize: nat)
      requires Valid()
      ensures size > 0 ==> (!found <==> contents !! Span(start, size))
      ensures size > 0 && found ==> FirstRun(contents, start, size, ostart, osize)
      ensures size == 0 ==> (found <==> start in contents) && (found ==> ostart == start && osize == 0)
    {
      var hit, at := Find(segs, Seg(start, start + 1));
      if hit {
        var rs := segs[at];
        osize := if size < rs.end - start then size else rs.end - start;
        if size > 0 {
          RunFound(segs, contents, at, start, size, start, osize);
        } else {
          assert Covers(segs, start);
        }
        return true, start, osize;
      }
      Missed(segs, contents, at, start, 1);
      assert start in Span(start, 1);
      if at == |segs| || segs[at].start >= start + size {
        Missed(segs, contents, at, start, size);
        return false, 0, 0;
      }
      ostart := segs[at].start;
      osize := (if start + size < segs[at].end then start + size else segs[at].end) - ostart;
      Missed(segs, contents, at, start, ostart - start);
      RunFound(segs, contents, at, start, size, ostart, osize);
      return true, ostart, osize;
    }

    /** zfs_range_tree_find_impl: some segment that meets the range. */
    method FindOverlap(start: nat, size: nat) returns (found: bool, at: nat)
      requires Valid() && size > 0
      ensures found ==> at < |segs| && Compare(segs[at], Seg(start, start + size)) == 0
      ensures !found ==> contents !! Span(start, size)
    {
      found, at := Find(segs, Seg(start, start + size));
      if !found { Missed(segs, contents, at, start, size); }
    }

    method RemoveOverlap(at: nat, start: nat, size: nat)
      requires Valid() && size > 0
      requires at < |segs| && Compare(segs[at], Seg(start, start + size)) == 0
      modifies this
      ensures Valid()
      ensures contents < old(contents) && old(contents) - contents <= Span(start, size)
    {
      var freeStart := if segs[at].start > start then segs[at].start else start;
      var freeEnd := if segs[at].end < start + size then segs[at].end else start + size;
      ClearStep(segs, contents, at, start, size, freeStart, freeEnd);
      var ok := Remove(freeStart, freeEnd - freeStart);
      assert contents == old(contents) - Span(freeStart, freeEnd - freeStart);
    }

    /** zfs_range_tree_clear: afterwards no offset of the range is in the tree. */
    method Clear(start: nat, size: nat)
      requires Valid()
      modifies this
      ensures Valid()
      ensures contents == old(contents) - Span(start, size)
    {
      if size == 0 {
        return;
      }
      var found, at: nat := FindOverlap(start, size);
      while found
        invariant Valid()
        invariant found ==> at < |segs| && Compare(segs[at], Seg(start, start + size)) == 0
        invariant !found ==> contents !! Span(start, size)
        invariant contents <= old(contents) && old(contents) - contents <= Span(start, size)
        decreases contents
      {
        RemoveOverlap(at, start, size);
        found, at := FindOverlap(start, size);
      }
    }
  }

  /** The part of the hit segment that lies in the range is there to be removed. */
  lemma ClearStep(s: seq<Seg>, t: set<nat>, at: nat, start: nat, size: nat, from: nat, to: nat)
    requires Denotes(s, t) && at < |s| && size > 0
    requires Compare(s[at], Seg(start, start + size)) == 0
    requires from == if s[at].start > start then s[at].start else start
    requires to == if s[at].end < start + size then s[at].end else start + size
    ensures from < to && Span(from, to - from) <= t
    ensures t - Span(from, to - from) < t
    ensures t - (t - Span(from, to - from)) <= Span(start, size)
  {
    SegmentAt(s, t, at);
    assert from in Span(s[at].start, s[at].end - s[at].start);
  }
}
