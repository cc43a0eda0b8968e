/**
  All that a traversal claims, as one list. Which blocks are sent to claim depends on the
  reference counts and not on the trees, so the list is known before anything is claimed;
  and no claim fails exactly when the list is wholly allocated and no two of its extents
  overlap.
  */
module ClaimList {
  import opened Ranges
  import opened Multiples
  import opened BlockPointers
  import opened SpaceMapReplay
  import opened LeakCheck

  /** The copies of the blocks that are sent to claim, in order. */
  function Sent(env: Env, s: State, bps: seq<Bp>): seq<Dva> {
    if bps == [] then []
    else
      var front, bp := bps[..|bps| - 1], bps[|bps| - 1];
      Sent(env, s, front) + Copies(env, CountAll(env, s, front), bp)
  }

  function Copies(env: Env, s: State, bp: Bp): seq<Dva> {
    if NeedsClaim(env, s, bp) then Filled(env, bp).dvas else []
  }

  /** No claim of the traversal fails. */
  predicate AllClaimed(env: Env, s: State, bps: seq<Bp>) {
    bps != [] ==>
      var front, bp := bps[..|bps| - 1], bps[|bps| - 1];
      var t := CountAll(env, s, front);
      AllClaimed(env, s, front) && (NeedsClaim(env, t, bp) ==> Claim(env, t.trees, Filled(env, bp).dvas).ok)
  }

  // ----- passes

  /** A pass over a, then one over b. */
  function Then(a: Claimed, b: Claimed): Claimed {
    if a.ok then b.(taken := a.taken + b.taken) else a
  }

  lemma {:induction false} PassConcat(env: Env, trees: Trees, a: seq<Dva>, b: seq<Dva>)
    ensures Pass(env, trees, a + b) == Then(Pass(env, trees, a), Pass(env, Pass(env, trees, a).trees, b))
    decreases |a|
  {
    if a == [] {
      assert a + b == b;
    } else {
      assert (a + b)[0] == a[0] && (a + b)[1..] == a[1..] + b;
      if Claimable(env, trees, a[0]) {
        PassConcat(env, WithoutDva(env, trees, a[0]), a[1..], b);
      }
    }
  }

  /** The dry run changes nothing where the pass gets through. */
  lemma ClaimIsPass(env: Env, trees: Trees, dvas: seq<Dva>)
    ensures Claim(env, trees, dvas).ok <==> Pass(env, trees, dvas).ok
    ensures Pass(env, trees, dvas).ok ==> Claim(env, trees, dvas) == Pass(env, trees, dvas)
  {
    PassOkIff(env, trees, dvas);
  }

  // ----- one traversal

  /** The claims of a traversal are one pass over its list. */
  ghost predicate ClaimsAsOne(env: Env, s: State, bps: seq<Bp>) {
    var t, c := CountAll(env, s, bps), Pass(env, s.trees, Sent(env, s, bps));
    && (AllClaimed(env, s, bps) <==> c.ok)
    && (c.ok ==> t.trees == c.trees && t.failedAsize == s.failedAsize && t.partialAsize == s.partialAsize)
  }

  lemma {:induction false} SentIsClaimed(env: Env, s: State, bps: seq<Bp>)
    ensures ClaimsAsOne(env, s, bps)
  {
    if bps != [] {
      SentIsClaimed(env, s, bps[..|bps| - 1]);
      OneMoreClaim(env, s, bps);
    }
  }

  lemma OneMoreClaim(env: Env, s: State, bps: seq<Bp>)
    requires bps != [] && ClaimsAsOne(env, s, bps[..|bps| - 1])
    ensures ClaimsAsOne(env, s, bps)
  {
    var front, bp := bps[..|bps| - 1], bps[|bps| - 1];
    var t := CountAll(env, s, front);
    PassConcat(env, s.trees, Sent(env, s, front), Copies(env, t, bp));
    CopiesClaimed(env, t, bp, Count(env, t, bp));
  }

  /** Counting a block passes over the copies it sends. */
  lemma CopiesClaimed(env: Env, s: State, bp: Bp, t: State)
    requires t == Count(env, s, bp)
    ensures var c := Pass(env, s.trees, Copies(env, s, bp));
            && ((NeedsClaim(env, s, bp) ==> Claim(env, s.trees, Filled(env, bp).dvas).ok) <==> c.ok)
            && (c.ok ==> t.trees == c.trees && t.failedAsize == s.failedAsize && t.partialAsize == s.partialAsize)
  {
    ClaimIsPass(env, s.trees, Filled(env, bp).dvas);
  }

  /** No claim fails exactly when all that is sent is there and apart. */
  lemma SentOkIff(env: Env, s: State, bps: seq<Bp>)
    ensures AllClaimed(env, s, bps) <==>
            AllClaimable(env, s.trees, Sent(env, s, bps)) && CopiesApart(env, Sent(env, s, bps))
  {
    SentIsClaimed(env, s, bps);
    PassOkIff(env, s.trees, Sent(env, s, bps));
  }

  // ----- what stands for a pointer

  /** The pointer's entry in the DDT has a canonical set of DVAs. */
  predicate IsFlat(env: Env, bp: Bp) {
    bp.dedup.Phys? && bp.dedup.slot in env.flat
  }

  /** What is sent to claim for a pointer: the canonical DVAs of its entry, or else its own. */
  lemma SentFor(env: Env, s: State, bp: Bp)
    requires NeedsClaim(env, s, bp)
    ensures IsFlat(env, bp) ==> Copies(env, s, bp) == env.flat[bp.dedup.slot]
    ensures !IsFlat(env, bp) ==> Copies(env, s, bp) == bp.dvas
  {
  }

  /** Those DVAs are also the ones whose sizes are counted and whose first is looked up in the clone table. */
  lemma CountedAs(env: Env, s: State, bp: Bp)
    ensures var dvas := if IsFlat(env, bp) then env.flat[bp.dedup.slot] else bp.dvas;
            var t := Count(env, s, bp);
            && t.asize == s.asize + (if bp.embedded then 0 else SumAsize(dvas))
            && (IsFlat(env, bp) && dvas != [] && !IsDuplicate(s, bp) && env.brtActive
                && (dvas[0].vdev, dvas[0].offset) in env.brtMaybe ==>
                  t.brt == Asked(env, s.brt, (dvas[0].vdev, dvas[0].offset)))
            && (!IsFlat(env, bp) && !IsDuplicate(s, bp) && env.brtActive && bp.key in env.brtMaybe ==>
                  t.brt == Asked(env, s.brt, bp.key))
  {
    CountFields(env, s, bp);
  }

  lemma {:induction false} SentHolds(env: Env, s: State, bps: seq<Bp>, i: nat)
    requires i < |bps|
    ensures BpBytes(env, Copies(env, CountAll(env, s, bps[..i]), bps[i])) <= BpBytes(env, Sent(env, s, bps))
    decreases |bps|
  {
    var front, bp := bps[..|bps| - 1], bps[|bps| - 1];
    BytesConcat(env, Sent(env, s, front), Copies(env, CountAll(env, s, front), bp));
    if i < |bps| - 1 {
      assert front[..i] == bps[..i] && front[i] == bps[i];
      SentHolds(env, s, front, i);
    }
  }

  /** If no claim fails, no byte of the canonical DVAs of a pointer that was sent to claim is left. */
  lemma FlatIsTaken(env: Env, s: State, bps: seq<Bp>, i: nat, slot: Slot)
    requires AllClaimed(env, s, bps) && i < |bps| && bps[i].dedup == Phys(slot) && slot in env.flat
    requires NeedsClaim(env, CountAll(env, s, bps[..i]), bps[i])
    ensures BpBytes(env, env.flat[slot]) !! AllBytes(CountAll(env, s, bps).trees)
  {
    SentFor(env, CountAll(env, s, bps[..i]), bps[i]);
    SentHolds(env, s, bps, i);
    SentIsClaimed(env, s, bps);
    PassTakesBytes(env, s.trees, Sent(env, s, bps));
    PassSums(env, s.trees, Sent(env, s, bps));
  }

  // ----- where a DVA is looked for

  /** Every tree holds bytes of its own metaslab. */
  ghost predicate TreesHoused(env: Env, trees: Trees) {
    forall k: Key :: k in trees ==> k.0 < |env.msSize| && trees[k] <= MsSpan(k.1, env.msSize[k.0])
  }

  /** A DVA can be claimed exactly when one metaslab of its vdev holds all of it. */
  lemma ClaimableWhere(env: Env, trees: Trees, d: Dva)
    requires TreesHoused(env, trees) && d.asize > 0
    ensures Claimable(env, trees, d) <==>
            exists k: Key :: k in trees && k.0 == d.vdev && Span(d.offset, d.asize) <= trees[k]
  {
    forall k: Key | k in trees && k.0 == d.vdev && Span(d.offset, d.asize) <= trees[k]
      ensures env.msSize[d.vdev] > 0 && DvaKey(env, d) == k
    {
      assert d.offset in Span(d.offset, d.asize) && d.offset in MsSpan(k.1, env.msSize[k.0]);
      InMetaslab(d.offset, env.msSize[k.0], k.1);
    }
    if Claimable(env, trees, d) {
      assert DvaKey(env, d) in trees;
    }
  }

  lemma InMetaslab(x: nat, size: nat, m: nat)
    requires x in MsSpan(m, size)
    ensures size > 0 && x / size == m
  {
    assert x == x / size * size + x % size;
    QuotientUnique(x / size, m, size, x % size, x - m * size);
  }

  /** And its bytes are then those of that vdev and range, each in the metaslab it lies in. */
  lemma BytesWhere(env: Env, trees: Trees, d: Dva, k: Key, x: nat)
    requires TreesHoused(env, trees) && Claimable(env, trees, d)
    ensures (k, x) in DvaBytes(env, d) <==>
            k.0 == d.vdev && d.offset <= x < d.offset + d.asize && x in MsSpan(k.1, env.msSize[d.vdev])
  {
    if d.offset <= x < d.offset + d.asize {
      var q := DvaKey(env, d);
      assert x in trees[q] && x in MsSpan(q.1, env.msSize[d.vdev]);
      InMetaslab(x, env.msSize[d.vdev], q.1);
      if x in MsSpan(k.1, env.msSize[d.vdev]) { InMetaslab(x, env.msSize[d.vdev], k.1); }
    }
  }

  // ----- what is sent does not depend on the trees

  ghost predicate SameCounts(s: State, t: State) {
    s.refs == t.refs && s.looked == t.looked && s.seen == t.seen && s.brt == t.brt
  }

  lemma SameDdt(env: Env, s: State, t: State, bp: Bp)
    requires SameCounts(s, t)
    ensures var a, b := AfterDdt(env, s, bp), AfterDdt(env, t, bp);
            a.refs == b.refs && a.looked == b.looked && a.seen == b.seen
  {
  }

  lemma SameBrt(env: Env, s: State, t: State, bp: Bp)
    requires SameCounts(s, t)
    ensures AfterBrt(env, s, bp) == AfterBrt(env, t, bp)
    ensures NeedsClaim(env, s, bp) <==> NeedsClaim(env, t, bp)
  {
  }

  lemma SameAfter(env: Env, s: State, t: State, bp: Bp)
    requires SameCounts(s, t)
    ensures SameCounts(Count(env, s, bp), Count(env, t, bp))
    ensures NeedsClaim(env, s, bp) <==> NeedsClaim(env, t, bp)
  {
    CountFields(env, s, bp);
    CountFields(env, t, bp);
    SameDdt(env, s, t, bp);
    SameBrt(env, s, t, bp);
  }

  lemma {:induction false} SentIgnoresTrees(env: Env, s: State, t: State, bps: seq<Bp>)
    requires SameCounts(s, t)
    ensures Sent(env, s, bps) == Sent(env, t, bps)
    ensures SameCounts(CountAll(env, s, bps), CountAll(env, t, bps))
  {
    if bps != [] {
      var front := bps[..|bps| - 1];
      SentIgnoresTrees(env, s, t, front);
      SameAfter(env, CountAll(env, s, front), CountAll(env, t, front), bps[|bps| - 1]);
    }
  }

  lemma SentLast(env: Env, s: State, bps: seq<Bp>, bp: Bp)
    ensures Sent(env, s, bps + [bp]) == Sent(env, s, bps) + Copies(env, CountAll(env, s, bps), bp)
  {
    assert (bps + [bp])[..|bps|] == bps;
  }

  lemma Regroup(a: seq<Dva>, b: seq<Dva>, c: seq<Dva>)
    ensures a + b + c == a + (b + c)
  {
  }

  /** Two lists that grow by the same pieces stay the one and the other with a head in front. */
  lemma {:induction false} GrowAlike(head: seq<Dva>, xs: seq<seq<Dva>>, ys: seq<seq<Dva>>, zs: seq<seq<Dva>>, n: nat)
    requires |xs| == |ys| == |zs| + 1 && n <= |zs| && xs[0] == head && ys[0] == []
    requires forall i :: 0 <= i < |zs| ==> xs[i + 1] == xs[i] + zs[i] && ys[i + 1] == ys[i] + zs[i]
    ensures xs[n] == head + ys[n]
  {
    if n > 0 {
      GrowAlike(head, xs, ys, zs, n - 1);
      assert xs[n - 1 + 1] == xs[n - 1] + zs[n - 1];
      Regroup(head, ys[n - 1], zs[n - 1]);
    }
  }

  /** What is sent after n of the blocks in b, when those in a came first. */
  lemma SentStep(env: Env, s: State, a: seq<Bp>, b: seq<Bp>, n: nat)
    requires n < |b|
    ensures var t := CountAll(env, s, a);
            var more := Copies(env, CountAll(env, t, b[..n]), b[n]);
            && Sent(env, s, a + b[..n + 1]) == Sent(env, s, a + b[..n]) + more
            && Sent(env, t, b[..n + 1]) == Sent(env, t, b[..n]) + more
  {
    SentBoth(env, s, a, b[..n], b[n], CountAll(env, s, a), a + b[..n + 1], b[..n + 1]);
  }

  lemma SentBoth(env: Env, s: State, a: seq<Bp>, front: seq<Bp>, bp: Bp, t: State, u: seq<Bp>, v: seq<Bp>)
    requires t == CountAll(env, s, a) && u == a + front + [bp] && v == front + [bp]
    ensures var more := Copies(env, CountAll(env, t, front), bp);
            Sent(env, s, u) == Sent(env, s, a + front) + more && Sent(env, t, v) == Sent(env, t, front) + more
  {
    CountConcat(env, s, a, front);
    SentLast(env, s, a + front, bp);
    SentLast(env, t, front, bp);
  }

  lemma SentConcat(env: Env, s: State, a: seq<Bp>, b: seq<Bp>)
    ensures Sent(env, s, a + b) == Sent(env, s, a) + Sent(env, CountAll(env, s, a), b)
  {
    var t := CountAll(env, s, a);
    var xs := seq(|b| + 1, i requires 0 <= i <= |b| => Sent(env, s, a + b[..i]));
    var ys := seq(|b| + 1, i requires 0 <= i <= |b| => Sent(env, t, b[..i]));
    var zs := seq(|b|, i requires 0 <= i < |b| => Copies(env, CountAll(env, t, b[..i]), b[i]));
    forall i | 0 <= i < |b|
      ensures xs[i + 1] == xs[i] + zs[i] && ys[i + 1] == ys[i] + zs[i]
    {
      SentStep(env, s, a, b, i);
    }
    assert a + b[..0] == a && b[..|b|] == b;
    GrowAlike(Sent(env, s, a), xs, ys, zs, |b|);
  }

  // ----- lists in another order

  ghost predicate Apart(env: Env, a: seq<Dva>, b: seq<Dva>) {
    forall i, j :: 0 <= i < |a| && 0 <= j < |b| ==> DvaBytes(env, a[i]) !! DvaBytes(env, b[j])
  }

  lemma ApartConcat(env: Env, a: seq<Dva>, b: seq<Dva>)
    ensures CopiesApart(env, a + b) <==> CopiesApart(env, a) && CopiesApart(env, b) && Apart(env, a, b)
  {
    var c := a + b;
    if CopiesApart(env, c) {
      forall i, j | 0 <= i < j < |a|
        ensures DvaBytes(env, a[i]) !! DvaBytes(env, a[j])
      {
        assert DvaBytes(env, c[i]) !! DvaBytes(env, c[j]);
      }
      forall i, j | 0 <= i < j < |b|
        ensures DvaBytes(env, b[i]) !! DvaBytes(env, b[j])
      {
        assert DvaBytes(env, c[|a| + i]) !! DvaBytes(env, c[|a| + j]);
      }
      forall i, j | 0 <= i < |a| && 0 <= j < |b|
        ensures DvaBytes(env, a[i]) !! DvaBytes(env, b[j])
      {
        assert DvaBytes(env, c[i]) !! DvaBytes(env, c[|a| + j]);
      }
    }
  }

  lemma ApartTurned(env: Env, a: seq<Dva>, b: seq<Dva>)
    ensures Apart(env, a, b) <==> Apart(env, b, a)
  {
  }

  lemma CrossConcat(env: Env, a: seq<Dva>, b: seq<Dva>, c: seq<Dva>)
    ensures Apart(env, a + b, c) <==> Apart(env, a, c) && Apart(env, b, c)
  {
    if Apart(env, a + b, c) {
      forall i, j | 0 <= i < |b| && 0 <= j < |c|
        ensures DvaBytes(env, b[i]) !! DvaBytes(env, c[j])
      {
        assert (a + b)[|a| + i] == b[i];
      }
      forall i, j | 0 <= i < |a| && 0 <= j < |c|
        ensures DvaBytes(env, a[i]) !! DvaBytes(env, c[j])
      {
        assert (a + b)[i] == a[i];
      }
    }
  }

  lemma ClaimableConcat(env: Env, trees: Trees, a: seq<Dva>, b: seq<Dva>)
    ensures AllClaimable(env, trees, a + b) <==> AllClaimable(env, trees, a) && AllClaimable(env, trees, b)
  {
    if AllClaimable(env, trees, a + b) {
      forall i | 0 <= i < |a|
        ensures Claimable(env, trees, a[i])
      {
        assert (a + b)[i] == a[i];
      }
      forall i | 0 <= i < |b|
        ensures Claimable(env, trees, b[i])
      {
        assert (a + b)[|a| + i] == b[i];
      }
    }
  }

  lemma {:induction false} BytesConcat(env: Env, a: seq<Dva>, b: seq<Dva>)
    ensures BpBytes(env, a + b) == BpBytes(env, a) + BpBytes(env, b)
    decreases |a|
  {
    if a == [] {
      assert a + b == b;
    } else {
      assert (a + b)[1..] == a[1..] + b;
      BytesConcat(env, a[1..], b);
    }
  }

  /** Whether a list can be claimed, and what is left then, does not depend on the order of its parts. */
  lemma SwapParts(env: Env, trees: Trees, a: seq<Dva>, b: seq<Dva>, c: seq<Dva>, d: seq<Dva>)
    ensures Pass(env, trees, a + b + c + d).ok <==> Pass(env, trees, a + c + (b + d)).ok
    ensures BpBytes(env, a + b + c + d) == BpBytes(env, a + c) + BpBytes(env, b + d)
  {
    PassOkIff(env, trees, a + b + c + d);
    PassOkIff(env, trees, a + c + (b + d));
    FourClaimable(env, trees, a, b, c, d);
    FourApart(env, a, b, c, d);
    BytesConcat(env, a + b + c, d);
    BytesConcat(env, a + b, c);
    BytesConcat(env, a, b);
    BytesConcat(env, a, c);
    BytesConcat(env, b, d);
  }

  lemma FourClaimable(env: Env, trees: Trees, a: seq<Dva>, b: seq<Dva>, c: seq<Dva>, d: seq<Dva>)
    ensures AllClaimable(env, trees, a + b + c + d) <==> AllClaimable(env, trees, a + c + (b + d))
  {
    ClaimableConcat(env, trees, a + b + c, d);
    ClaimableConcat(env, trees, a + b, c);
    ClaimableConcat(env, trees, a, b);
    ClaimableConcat(env, trees, a + c, b + d);
    ClaimableConcat(env, trees, a, c);
    ClaimableConcat(env, trees, b, d);
  }

  lemma FourApart(env: Env, a: seq<Dva>, b: seq<Dva>, c: seq<Dva>, d: seq<Dva>)
    ensures CopiesApart(env, a + b + c + d) <==> CopiesApart(env, a + c + (b + d))
  {
    AllApart(env, a, b, c, d);
    AllApart(env, a, c, b, d);
    ApartTurned(env, b, c);
    Regroup(a + c, b, d);
  }

  lemma AllApart(env: Env, a: seq<Dva>, b: seq<Dva>, c: seq<Dva>, d: seq<Dva>)
    ensures CopiesApart(env, a + b + c + d) <==>
            && CopiesApart(env, a) && CopiesApart(env, b) && CopiesApart(env, c) && CopiesApart(env, d)
            && Apart(env, a, b) && Apart(env, a, c) && Apart(env, b, c)
            && Apart(env, a, d) && Apart(env, b, d) && Apart(env, c, d)
  {
    ApartConcat(env, a + b + c, d);
    ApartConcat(env, a + b, c);
    ApartConcat(env, a, b);
    CrossConcat(env, a + b, c, d);
    CrossConcat(env, a, b, d);
    CrossConcat(env, a, b, c);
  }
}
