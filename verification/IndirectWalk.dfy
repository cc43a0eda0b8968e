/**
  zdb's walk over the indirect blocks of an object: it numbers the children of block b,
  which holds n block pointers, as b * n + i, prints every block it meets, and compares
  each indirect block's fill count with the sum over its children.
  */
module IndirectWalk {
  import opened Multiples

  /**
    A block pointer and what can be read through it. `kids` are the block pointers in an
    indirect block; `readable` is false where arc_read fails.
    */
  datatype Bp = Bp(level: nat, birth: nat, hole: bool, fill: nat, readable: bool, kids: seq<Bp>)

  /** The walk goes below this block. */
  predicate Descends(bp: Bp) {
    bp.birth != 0 && bp.level > 0 && !bp.hole
  }

  /** Born children are one level down, and every indirect block holds epb block pointers. */
  ghost predicate Shaped(bp: Bp, epb: nat) {
    Descends(bp) && bp.readable ==>
      && |bp.kids| == epb
      && forall i :: 0 <= i < |bp.kids| ==>
           (bp.kids[i].birth != 0 ==> bp.kids[i].level == bp.level - 1) && Shaped(bp.kids[i], epb)
  }

  // ----- the walk

  /** The level-0 blocks met, by number and in order; whether a fill count was wrong; whether a read failed. */
  datatype Trace = Trace(err: bool, leaves: seq<nat>, bad: bool)

  function Walk(bp: Bp, blkid: nat): Trace
    decreases bp, |bp.kids| + 1
  {
    if bp.birth == 0 then Trace(false, [], false)
    else if !Descends(bp) then Trace(false, if bp.level == 0 then [blkid] else [], false)
    else if !bp.readable then Trace(true, [], false)
    else
      var t := WalkKids(bp, blkid, |bp.kids|);
      if !t.err && FillOf(bp.kids) != bp.fill then t.(bad := true) else t
  }

  /** The first n children, stopping at an error. */
  function WalkKids(bp: Bp, blkid: nat, n: nat): Trace
    requires n <= |bp.kids|
    decreases bp, n
  {
    if n == 0 then Trace(false, [], false)
    else
      var t := WalkKids(bp, blkid, n - 1);
      if t.err then t
      else
        var u := Walk(bp.kids[n - 1], blkid * |bp.kids| + (n - 1));
        Trace(u.err, t.leaves + u.leaves, t.bad || u.bad)
  }

  function FillOf(kids: seq<Bp>): nat {
    if kids == [] then 0 else FillOf(kids[..|kids| - 1]) + kids[|kids| - 1].fill
  }

  /** visit_indirect */
  method VisitIndirect(bp: Bp, blkid: nat) returns (t: Trace)
    ensures t == Walk(bp, blkid)
    decreases bp
  {
    if bp.birth == 0 {
      return Trace(false, [], false);
    }
    var leaves := if bp.level == 0 then [blkid] else [];
    var err, bad := false, false;
    if bp.level > 0 && !bp.hole {
      if !bp.readable {
        return Trace(true, leaves, false);
      }
      var fill := 0;
      var i := 0;
      while i < |bp.kids|
        invariant 0 <= i <= |bp.kids|
        invariant !err && Trace(false, leaves, bad) == WalkKids(bp, blkid, i)
        invariant fill == FillOf(bp.kids[..i])
      {
        var u := VisitIndirect(bp.kids[i], blkid * |bp.kids| + i);
        leaves, bad := leaves + u.leaves, bad || u.bad;
        assert bp.kids[..i + 1][..i] == bp.kids[..i];
        if u.err {
          ErrorStops(bp, blkid, i + 1, |bp.kids|);
          return Trace(true, leaves, bad);
        }
        fill := fill + bp.kids[i].fill;
        i := i + 1;
      }
      assert bp.kids[..|bp.kids|] == bp.kids;
      if fill != bp.fill {
        bad := true;
      }
    }
    return Trace(err, leaves, bad);
  }

  lemma {:induction false} ErrorStops(bp: Bp, blkid: nat, n: nat, m: nat)
    requires n <= m <= |bp.kids| && WalkKids(bp, blkid, n).err
    ensures WalkKids(bp, blkid, m) == WalkKids(bp, blkid, n)
    decreases m
  {
    if n < m {
      ErrorStops(bp, blkid, n, m - 1);
    }
  }

  // ----- order

  function Pow(b: nat, e: nat): nat {
    if e == 0 then 1 else b * Pow(b, e - 1)
  }

  /** The level-0 blocks under block `blkid` of a level are numbered from here. */
  function First(blkid: nat, epb: nat, level: nat): nat {
    blkid * Pow(epb, level)
  }

  /** The children's ranges tile the parent's range, in order. */
  lemma ChildrenTile(blkid: nat, epb: nat, level: nat, i: nat)
    requires level > 0 && i <= epb
    ensures First(blkid * epb, epb, level - 1) == First(blkid, epb, level)
    ensures First(blkid * epb + epb, epb, level - 1) == First(blkid + 1, epb, level)
    ensures First(blkid, epb, level) <= First(blkid * epb + i, epb, level - 1) <= First(blkid + 1, epb, level)
  {
    var p := Pow(epb, level - 1);
    assert Pow(epb, level) == epb * p;
    MulAssoc(blkid, epb, p);
    MulAssoc(blkid + 1, epb, p);
    assert (blkid + 1) * epb == blkid * epb + epb;
    MulMono(blkid * epb, blkid * epb + i, p);
    MulMono(blkid * epb + i, blkid * epb + epb, p);
  }

  lemma MulAssoc(a: nat, b: nat, c: nat)
    ensures a * b * c == a * (b * c)
  {
  }

  lemma MulMono(a: nat, b: nat, c: nat)
    requires a <= b
    ensures a * c <= b * c
  {
  }

  ghost predicate Increasing(s: seq<nat>) {
    forall i, j :: 0 <= i < j < |s| ==> s[i] < s[j]
  }

  ghost predicate Within(s: seq<nat>, lo: nat, hi: nat) {
    forall i :: 0 <= i < |s| ==> lo <= s[i] < hi
  }

  lemma IncreasingConcat(a: seq<nat>, b: seq<nat>, lo: nat, mid: nat, hi: nat)
    requires Increasing(a) && Increasing(b) && Within(a, lo, mid) && Within(b, mid, hi) && lo <= mid <= hi
    ensures Increasing(a + b) && Within(a + b, lo, hi)
  {
  }

  /** Level-0 blocks are met in strictly increasing order, all inside the range of the block above them. */
  lemma {:induction false} WalkIsOrdered(bp: Bp, blkid: nat, epb: nat)
    requires Shaped(bp, epb) && epb > 0
    ensures Increasing(Walk(bp, blkid).leaves)
    ensures Within(Walk(bp, blkid).leaves, First(blkid, epb, bp.level), First(blkid + 1, epb, bp.level))
    decreases bp, |bp.kids| + 2
  {
    if Descends(bp) && bp.readable {
      KidsAreOrdered(bp, blkid, epb, epb);
      ChildrenTile(blkid, epb, bp.level, epb);
    } else if bp.birth != 0 && bp.level == 0 {
      assert Pow(epb, 0) == 1;
    }
  }

  lemma {:induction false} KidsAreOrdered(bp: Bp, blkid: nat, epb: nat, n: nat)
    requires Shaped(bp, epb) && epb > 0 && Descends(bp) && bp.readable && n <= epb
    ensures Increasing(WalkKids(bp, blkid, n).leaves)
    ensures Within(WalkKids(bp, blkid, n).leaves,
                   First(blkid, epb, bp.level), First(blkid * epb + n, epb, bp.level - 1))
    decreases bp, n + 1
  {
    if n > 0 {
      KidsAreOrdered(bp, blkid, epb, n - 1);
      ChildrenTile(blkid, epb, bp.level, n - 1);
      KidIsOrdered(bp, blkid, epb, n - 1);
      OneMoreKid(bp, blkid, n - 1, blkid * epb + (n - 1), First(blkid, epb, bp.level),
                 First(blkid * epb + (n - 1), epb, bp.level - 1), First(blkid * epb + n, epb, bp.level - 1));
    }
  }

  lemma OneMoreKid(bp: Bp, blkid: nat, n: nat, id: nat, lo: nat, mid: nat, hi: nat)
    requires n < |bp.kids| && id == blkid * |bp.kids| + n && lo <= mid <= hi
    requires var a, b := WalkKids(bp, blkid, n).leaves, Walk(bp.kids[n], id).leaves;
             Increasing(a) && Within(a, lo, mid) && Increasing(b) && Within(b, mid, hi)
    ensures Increasing(WalkKids(bp, blkid, n + 1).leaves) && Within(WalkKids(bp, blkid, n + 1).leaves, lo, hi)
  {
    var t, u := WalkKids(bp, blkid, n), Walk(bp.kids[n], id);
    IncreasingConcat(t.leaves, u.leaves, lo, mid, hi);
    assert WalkKids(bp, blkid, n + 1) == if t.err then t else Trace(u.err, t.leaves + u.leaves, t.bad || u.bad);
  }

  /** The leaves under child i lie in the child's range. */
  lemma {:induction false} KidIsOrdered(bp: Bp, blkid: nat, epb: nat, i: nat)
    requires Shaped(bp, epb) && epb > 0 && Descends(bp) && bp.readable && i < epb
    ensures First(blkid * epb + i, epb, bp.level - 1) <= First(blkid * epb + i + 1, epb, bp.level - 1)
    ensures var leaves := Walk(bp.kids[i], blkid * epb + i).leaves;
            && Increasing(leaves)
            && Within(leaves, First(blkid * epb + i, epb, bp.level - 1), First(blkid * epb + i + 1, epb, bp.level - 1))
    decreases bp, 0
  {
    MulMono(blkid * epb + i, blkid * epb + i + 1, Pow(epb, bp.level - 1));
    if bp.kids[i].birth != 0 {
      WalkIsOrdered(bp.kids[i], blkid * epb + i, epb);
    }
  }

  // ----- the whole object

  /** dump_indirect: the block pointers of the dnode in turn, going on after an error. */
  function WalkObject(bps: seq<Bp>, n: nat): Trace
    requires n <= |bps|
  {
    if n == 0 then Trace(false, [], false)
    else
      var t, u := WalkObject(bps, n - 1), Walk(bps[n - 1], n - 1);
      Trace(false, t.leaves + u.leaves, t.bad || u.bad)
  }

  method DumpIndirect(bps: seq<Bp>) returns (leaves: seq<nat>, bad: bool)
    ensures Trace(false, leaves, bad) == WalkObject(bps, |bps|)
  {
    leaves, bad := [], false;
    for j := 0 to |bps|
      invariant Trace(false, leaves, bad) == WalkObject(bps, j)
    {
      var u := VisitIndirect(bps[j], j);
      leaves, bad := leaves + u.leaves, bad || u.bad;
    }
  }

  /** The dnode's block pointers are of its top level, and every indirect block below holds epb of them. */
  ghost predicate ShapedObject(bps: seq<Bp>, epb: nat, level: nat) {
    forall i :: 0 <= i < |bps| ==> Shaped(bps[i], epb) && (bps[i].birth != 0 ==> bps[i].level == level)
  }

  lemma {:induction false} ObjectIsOrdered(bps: seq<Bp>, epb: nat, level: nat, n: nat)
    requires ShapedObject(bps, epb, level) && epb > 0 && n <= |bps|
    ensures Increasing(WalkObject(bps, n).leaves)
    ensures Within(WalkObject(bps, n).leaves, 0, First(n, epb, level))
  {
    if n > 0 {
      var mid, hi := First(n - 1, epb, level), First(n, epb, level);
      ObjectIsOrdered(bps, epb, level, n - 1);
      MulMono(n - 1, n, Pow(epb, level));
      var u := Walk(bps[n - 1], n - 1).leaves;
      assert Increasing(u) && Within(u, mid, hi) by {
        if bps[n - 1].birth != 0 { WalkIsOrdered(bps[n - 1], n - 1, epb); }
      }
      IncreasingConcat(WalkObject(bps, n - 1).leaves, u, 0, mid, hi);
    }
  }

  // ----- file offsets

  /** blkid2offset of a block: `shift` is indblkshift - SPA_BLKPTRSHIFT, `size` the data block size. */
  function FileOffset(blkid: nat, level: nat, shift: nat, size: nat): nat {
    blkid * Pow2(level * shift) * size
  }

  lemma {:induction false} Pow2Add(a: nat, b: nat)
    ensures Pow2(a + b) == Pow2(a) * Pow2(b)
    decreases a
  {
    if a > 0 {
      Pow2Add(a - 1, b);
      MulAssoc(2, Pow2(a - 1), Pow2(b));
    }
  }

  lemma {:induction false} Pow2Levels(level: nat, shift: nat)
    ensures Pow2(level * shift) == Pow(Pow2(shift), level)
  {
    if level > 0 {
      Pow2Levels(level - 1, shift);
      assert level * shift == shift + (level - 1) * shift;
      Pow2Add(shift, (level - 1) * shift);
    } else {
      assert level * shift == 0;
    }
  }

  /** The file offset of an indirect block is that of the first data block under it. */
  lemma OffsetIsFirst(blkid: nat, level: nat, shift: nat, size: nat)
    ensures FileOffset(blkid, level, shift, size) ==
            FileOffset(First(blkid, Pow2(shift), level), 0, shift, size)
  {
    Pow2Levels(level, shift);
    assert 0 * shift == 0;
  }

  /** Data block x of a file starts at x times the block size. */
  lemma DataOffset(x: nat, shift: nat, size: nat)
    ensures FileOffset(x, 0, shift, size) == x * size
  {
    assert 0 * shift == 0;
  }

  lemma OffsetsIncrease(a: nat, b: nat, shift: nat, size: nat)
    requires a < b && size > 0
    ensures FileOffset(a, 0, shift, size) < FileOffset(b, 0, shift, size)
  {
    assert 0 * shift == 0;
    assert b * size == a * size + (b - a) * size;
  }

  /** The walk meets data blocks in strictly increasing file offset. */
  lemma LeafOffsetsIncrease(bp: Bp, blkid: nat, shift: nat, size: nat, i: nat, j: nat)
    requires Shaped(bp, Pow2(shift)) && size > 0
    requires i < j < |Walk(bp, blkid).leaves|
    ensures var leaves := Walk(bp, blkid).leaves;
            && FileOffset(leaves[i], 0, shift, size) < FileOffset(leaves[j], 0, shift, size)
            && FileOffset(blkid, bp.level, shift, size) <= FileOffset(leaves[i], 0, shift, size)
            && FileOffset(leaves[j], 0, shift, size) < FileOffset(blkid + 1, bp.level, shift, size)
  {
    var leaves := Walk(bp, blkid).leaves;
    var first, last := First(blkid, Pow2(shift), bp.level), First(blkid + 1, Pow2(shift), bp.level);
    WalkIsOrdered(bp, blkid, Pow2(shift));
    OffsetIsFirst(blkid, bp.level, shift, size);
    OffsetIsFirst(blkid + 1, bp.level, shift, size);
    OffsetsIncrease(leaves[i], leaves[j], shift, size);
    OffsetsIncrease(leaves[j], last, shift, size);
    if first < leaves[i] { OffsetsIncrease(first, leaves[i], shift, size); }
  }

  /** So does the walk over the whole object, and all of them lie below the end of its last top-level block. */
  lemma ObjectOffsetsIncrease(bps: seq<Bp>, level: nat, shift: nat, size: nat, i: nat, j: nat)
    requires ShapedObject(bps, Pow2(shift), level) && size > 0
    requires i < j < |WalkObject(bps, |bps|).leaves|
    ensures var leaves := WalkObject(bps, |bps|).leaves;
            && FileOffset(leaves[i], 0, shift, size) < FileOffset(leaves[j], 0, shift, size)
            && FileOffset(leaves[j], 0, shift, size) < FileOffset(|bps|, level, shift, size)
  {
    var leaves := WalkObject(bps, |bps|).leaves;
    ObjectIsOrdered(bps, Pow2(shift), level, |bps|);
    OffsetIsFirst(|bps|, level, shift, size);
    OffsetsIncrease(leaves[i], leaves[j], shift, size);
    OffsetsIncrease(leaves[j], First(|bps|, Pow2(shift), level), shift, size);
  }

  // ----- fill counts

  /** Data blocks counted by the fills of the level-0 blocks that the walk prints. */
  ghost function DataFill(bp: Bp): nat
    decreases bp, |bp.kids| + 1
  {
    if bp.birth == 0 then 0
    else if !Descends(bp) then if bp.level == 0 then bp.fill else 0
    else DataFillOf(bp, |bp.kids|)
  }

  ghost function DataFillOf(bp: Bp, n: nat): nat
    requires n <= |bp.kids|
    decreases bp, n
  {
    if n == 0 then 0 else DataFillOf(bp, n - 1) + DataFill(bp.kids[n - 1])
  }

  /** Fills of the block pointers that the walk counts but does not look into: unborn ones and holes. */
  ghost function HoleFill(bp: Bp): nat
    decreases bp, |bp.kids| + 1
  {
    if bp.birth == 0 then bp.fill
    else if !Descends(bp) then if bp.level == 0 then 0 else bp.fill
    else HoleFillOf(bp, |bp.kids|)
  }

  ghost function HoleFillOf(bp: Bp, n: nat): nat
    requires n <= |bp.kids|
    decreases bp, n
  {
    if n == 0 then 0 else HoleFillOf(bp, n - 1) + HoleFill(bp.kids[n - 1])
  }

  /** If nothing is flagged, the fill of a block is that of the data below it, plus that of holes. */
  lemma {:induction false} FillAddsUp(bp: Bp, blkid: nat)
    requires !Walk(bp, blkid).err && !Walk(bp, blkid).bad
    ensures bp.fill == DataFill(bp) + HoleFill(bp)
    decreases bp, |bp.kids| + 1
  {
    if Descends(bp) {
      KidsFillAddsUp(bp, blkid, |bp.kids|);
      assert bp.kids[..|bp.kids|] == bp.kids;
    }
  }

  lemma {:induction false} KidsFillAddsUp(bp: Bp, blkid: nat, n: nat)
    requires n <= |bp.kids| && !WalkKids(bp, blkid, n).err && !WalkKids(bp, blkid, n).bad
    ensures FillOf(bp.kids[..n]) == DataFillOf(bp, n) + HoleFillOf(bp, n)
    decreases bp, n
  {
    if n > 0 {
      KidsFillAddsUp(bp, blkid, n - 1);
      FillAddsUp(bp.kids[n - 1], blkid * |bp.kids| + (n - 1));
      assert bp.kids[..n][..n - 1] == bp.kids[..n - 1];
    }
  }

  /** An unborn block pointer with a fill goes unnoticed. */
  lemma HoleWithFill()
    ensures var root := Bp(1, 1, false, 5, true, [Bp(0, 0, true, 5, true, [])]);
            !Walk(root, 0).err && !Walk(root, 0).bad && root.fill != DataFill(root)
  {
    var kid := Bp(0, 0, true, 5, true, []);
    var root := Bp(1, 1, false, 5, true, [kid]);
    assert FillOf([kid]) == FillOf([kid][..0]) + 5;
    assert WalkKids(root, 0, 1) == Trace(false, [], false);
    assert DataFillOf(root, 1) == 0;
  }

  /** So the fill of the root is the data below it exactly when no hole carries a fill. */
  lemma FillIsDataIff(bp: Bp, blkid: nat)
    requires !Walk(bp, blkid).err && !Walk(bp, blkid).bad
    ensures bp.fill == DataFill(bp) <==> HoleFill(bp) == 0
  {
    FillAddsUp(bp, blkid);
  }
}
