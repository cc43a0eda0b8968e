/**
  Which blocks the walk over an object's indirect blocks meets, and which of them it reports,
  in terms of paths of child indices.
  */
module WalkPaths {
  import opened Multiples
  import opened IndirectWalk

  /** Some block that the walk would go through cannot be read. */
  ghost predicate Fails(bp: Bp) {
    Descends(bp) && (!bp.readable || exists i :: 0 <= i < |bp.kids| && Fails(bp.kids[i]))
  }

  /** No child before child i fails. */
  ghost predicate ReadUpTo(bp: Bp, i: nat)
    requires i <= |bp.kids|
  {
    forall j :: 0 <= j < i ==> !Fails(bp.kids[j])
  }

  /** The path can go on through child i. */
  ghost predicate Passable(bp: Bp, i: nat) {
    bp.birth != 0 && bp.level > 0 && !bp.hole && bp.readable && i < |bp.kids| && ReadUpTo(bp, i)
  }

  /**
    Child by child, the path leads through born indirect blocks that are not holes to a born
    level-0 block, and nothing to the left of it fails.
    */
  ghost predicate Met(bp: Bp, path: seq<nat>)
    decreases |path|
  {
    if path == [] then bp.birth != 0 && bp.level == 0
    else Passable(bp, path[0]) && Met(bp.kids[path[0]], path[1..])
  }

  /** The path leads to an indirect block, read with all below it, whose fill is not the sum of its children's. */
  ghost predicate Wrong(bp: Bp, path: seq<nat>)
    decreases |path|
  {
    if path == [] then Descends(bp) && !Fails(bp) && FillOf(bp.kids) != bp.fill
    else Passable(bp, path[0]) && Wrong(bp.kids[path[0]], path[1..])
  }

  /** The digits of a number in base epb. */
  ghost function Digits(epb: nat, path: seq<nat>): nat {
    if path == [] then 0 else path[0] * Pow(epb, |path| - 1) + Digits(epb, path[1..])
  }

  /** The number of a block: blkid followed by the child indices as digits. */
  ghost function Number(blkid: nat, epb: nat, path: seq<nat>): nat {
    blkid * Pow(epb, |path|) + Digits(epb, path)
  }

  lemma NumberStep(blkid: nat, epb: nat, path: seq<nat>)
    requires path != []
    ensures Number(blkid, epb, path) == Number(blkid * epb + path[0], epb, path[1..])
  {
    var p := Pow(epb, |path| - 1);
    MulAssoc(blkid, epb, p);
    Distribute(blkid * epb, path[0], p);
  }

  lemma Distribute(a: nat, b: nat, c: nat)
    ensures (a + b) * c == a * c + b * c
  {
  }

  // ----- failed reads

  /** A walk fails exactly when a block on its way cannot be read. */
  lemma {:induction false} ErrIff(bp: Bp, blkid: nat)
    ensures Walk(bp, blkid).err <==> Fails(bp)
    decreases bp, |bp.kids| + 1
  {
    if Descends(bp) && bp.readable {
      KidsErrIff(bp, blkid, |bp.kids|);
    }
  }

  lemma {:induction false} KidsErrIff(bp: Bp, blkid: nat, n: nat)
    requires n <= |bp.kids|
    ensures WalkKids(bp, blkid, n).err <==> !ReadUpTo(bp, n)
    decreases bp, n
  {
    if n > 0 {
      KidsErrIff(bp, blkid, n - 1);
      ErrIff(bp.kids[n - 1], blkid * |bp.kids| + (n - 1));
    }
  }

  // ----- level-0 blocks

  /** Some path leads to level-0 block x. */
  ghost predicate MetAs(bp: Bp, blkid: nat, epb: nat, x: nat) {
    exists path: seq<nat> :: Met(bp, path) && x == Number(blkid, epb, path)
  }

  /** Some path through child i does. */
  ghost predicate KidMeets(bp: Bp, blkid: nat, epb: nat, i: nat, x: nat) {
    Passable(bp, i) && MetAs(bp.kids[i], blkid * epb + i, epb, x)
  }

  lemma AppendChild(bp: Bp, blkid: nat, epb: nat, i: nat, x: nat)
    requires KidMeets(bp, blkid, epb, i, x)
    ensures MetAs(bp, blkid, epb, x)
  {
    var rest: seq<nat> :| Met(bp.kids[i], rest) && x == Number(blkid * epb + i, epb, rest);
    var path := [i] + rest;
    assert path[1..] == rest;
    NumberStep(blkid, epb, path);
    assert Met(bp, path);
  }

  lemma FirstChild(bp: Bp, blkid: nat, epb: nat, path: seq<nat>)
    requires Met(bp, path) && path != []
    ensures KidMeets(bp, blkid, epb, path[0], Number(blkid, epb, path))
  {
    NumberStep(blkid, epb, path);
  }

  lemma MetAsIff(bp: Bp, blkid: nat, epb: nat, x: nat)
    ensures MetAs(bp, blkid, epb, x) <==>
            (bp.birth != 0 && bp.level == 0 && x == blkid) || exists i: nat :: KidMeets(bp, blkid, epb, i, x)
  {
    assert Number(blkid, epb, []) == blkid;
    if bp.birth != 0 && bp.level == 0 {
      assert Met(bp, []);
    }
    if exists i: nat :: KidMeets(bp, blkid, epb, i, x) {
      var i: nat :| KidMeets(bp, blkid, epb, i, x);
      AppendChild(bp, blkid, epb, i, x);
    }
    if MetAs(bp, blkid, epb, x) {
      var path: seq<nat> :| Met(bp, path) && x == Number(blkid, epb, path);
      if path != [] { FirstChild(bp, blkid, epb, path); }
    }
  }

  /**
    The level-0 blocks that the walk meets are exactly those that a path leads to, by their
    numbers; after a failed read these are the ones to its left.
    */
  lemma {:induction false} LeavesAre(bp: Bp, blkid: nat, epb: nat, x: nat)
    requires Shaped(bp, epb)
    ensures x in Walk(bp, blkid).leaves <==> MetAs(bp, blkid, epb, x)
    decreases bp, |bp.kids| + 1
  {
    MetAsIff(bp, blkid, epb, x);
    if Descends(bp) && bp.readable {
      KidsLeavesAre(bp, blkid, epb, epb, x);
      assert KidsMeet(bp, blkid, epb, epb, x) <==> exists i: nat :: KidMeets(bp, blkid, epb, i, x);
    }
  }

  /** Some path through one of the first n children leads to x. */
  ghost predicate KidsMeet(bp: Bp, blkid: nat, epb: nat, n: nat, x: nat) {
    exists i: nat :: i < n && KidMeets(bp, blkid, epb, i, x)
  }

  lemma KidsMeetNext(bp: Bp, blkid: nat, epb: nat, n: nat, x: nat)
    ensures KidsMeet(bp, blkid, epb, n + 1, x) <==> KidsMeet(bp, blkid, epb, n, x) || KidMeets(bp, blkid, epb, n, x)
  {
  }

  lemma {:induction false} KidsLeavesAre(bp: Bp, blkid: nat, epb: nat, n: nat, x: nat)
    requires Shaped(bp, epb) && Descends(bp) && bp.readable && n <= epb
    ensures x in WalkKids(bp, blkid, n).leaves <==> KidsMeet(bp, blkid, epb, n, x)
    decreases bp, n
  {
    if n > 0 {
      KidsLeavesAre(bp, blkid, epb, n - 1, x);
      KidsErrIff(bp, blkid, n - 1);
      LeavesAre(bp.kids[n - 1], blkid * epb + (n - 1), epb, x);
      NextKid(bp, blkid, epb, n - 1, blkid * epb + (n - 1), x);
    }
  }

  lemma NextKid(bp: Bp, blkid: nat, epb: nat, n: nat, id: nat, x: nat)
    requires Descends(bp) && bp.readable && n < |bp.kids| && |bp.kids| == epb && id == blkid * epb + n
    requires x in WalkKids(bp, blkid, n).leaves <==> KidsMeet(bp, blkid, epb, n, x)
    requires WalkKids(bp, blkid, n).err <==> !ReadUpTo(bp, n)
    requires x in Walk(bp.kids[n], id).leaves <==> MetAs(bp.kids[n], id, epb, x)
    ensures x in WalkKids(bp, blkid, n + 1).leaves <==> KidsMeet(bp, blkid, epb, n + 1, x)
  {
    LeavesStep(bp, blkid, n, id, x);
    KidsMeetNext(bp, blkid, epb, n, x);
  }

  lemma LeavesStep(bp: Bp, blkid: nat, n: nat, id: nat, x: nat)
    requires n < |bp.kids| && id == blkid * |bp.kids| + n
    ensures x in WalkKids(bp, blkid, n + 1).leaves <==>
            || x in WalkKids(bp, blkid, n).leaves
            || (!WalkKids(bp, blkid, n).err && x in Walk(bp.kids[n], id).leaves)
  {
  }

  /** The same for the whole object: block pointer j of the dnode is block j of the top level. */
  lemma {:induction false} ObjectLeavesAre(bps: seq<Bp>, epb: nat, n: nat, x: nat)
    requires n <= |bps| && forall i :: 0 <= i < |bps| ==> Shaped(bps[i], epb)
    ensures x in WalkObject(bps, n).leaves <==> exists j :: 0 <= j < n && MetAs(bps[j], j, epb, x)
  {
    if n > 0 {
      ObjectLeavesAre(bps, epb, n - 1, x);
      LeavesAre(bps[n - 1], n - 1, epb, x);
    }
  }

  // ----- fill counts

  ghost predicate HasWrong(bp: Bp) {
    exists path: seq<nat> :: Wrong(bp, path)
  }

  ghost predicate KidWrong(bp: Bp, i: nat) {
    Passable(bp, i) && HasWrong(bp.kids[i])
  }

  lemma WrongIff(bp: Bp)
    ensures HasWrong(bp) <==>
            (Descends(bp) && !Fails(bp) && FillOf(bp.kids) != bp.fill) || exists i: nat :: KidWrong(bp, i)
  {
    if Descends(bp) && !Fails(bp) && FillOf(bp.kids) != bp.fill {
      assert Wrong(bp, []);
    }
    if exists i: nat :: KidWrong(bp, i) {
      var i: nat :| KidWrong(bp, i);
      var rest: seq<nat> :| Wrong(bp.kids[i], rest);
      assert ([i] + rest)[1..] == rest;
      assert Wrong(bp, [i] + rest);
    }
    if HasWrong(bp) {
      var path: seq<nat> :| Wrong(bp, path);
      if path != [] {
        var rest := path[1..];
        assert Wrong(bp.kids[path[0]], rest);
        assert KidWrong(bp, path[0]);
      }
    }
  }

  /** A wrong fill is reported exactly when a path leads to a block that has one. */
  lemma {:induction false} BadIff(bp: Bp, blkid: nat)
    ensures Walk(bp, blkid).bad <==> HasWrong(bp)
    decreases bp, |bp.kids| + 1
  {
    WrongIff(bp);
    if Descends(bp) && bp.readable {
      KidsBadIff(bp, blkid, |bp.kids|);
      KidsErrIff(bp, blkid, |bp.kids|);
      assert KidsWrong(bp, |bp.kids|) <==> exists i: nat :: KidWrong(bp, i);
    }
  }

  ghost predicate KidsWrong(bp: Bp, n: nat) {
    exists i: nat :: i < n && KidWrong(bp, i)
  }

  lemma KidsWrongNext(bp: Bp, n: nat)
    ensures KidsWrong(bp, n + 1) <==> KidsWrong(bp, n) || KidWrong(bp, n)
  {
  }

  lemma {:induction false} KidsBadIff(bp: Bp, blkid: nat, n: nat)
    requires Descends(bp) && bp.readable && n <= |bp.kids|
    ensures WalkKids(bp, blkid, n).bad <==> KidsWrong(bp, n)
    decreases bp, n
  {
    if n > 0 {
      KidsBadIff(bp, blkid, n - 1);
      KidsErrIff(bp, blkid, n - 1);
      BadIff(bp.kids[n - 1], blkid * |bp.kids| + (n - 1));
      BadStep(bp, blkid, n - 1, blkid * |bp.kids| + (n - 1));
      KidsWrongNext(bp, n - 1);
    }
  }

  lemma BadStep(bp: Bp, blkid: nat, n: nat, id: nat)
    requires n < |bp.kids| && id == blkid * |bp.kids| + n
    ensures WalkKids(bp, blkid, n + 1).bad <==>
            WalkKids(bp, blkid, n).bad || (!WalkKids(bp, blkid, n).err && Walk(bp.kids[n], id).bad)
  {
  }
}
