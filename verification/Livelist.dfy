/**
  zdb's check of a sub-livelist: FREE entries are stacked up per block, each ALLOC entry
  takes one off, and an ALLOC that finds none is remembered as still allocated.
  */
module Livelist {
  import opened BlockPointers

  /** One livelist entry; `dvas` are the leading non-empty DVAs of its block pointer. */
  datatype Event = Event(free: bool, key: BlockKey, dvas: seq<Dva>, birth: nat)

  /** Blocks left allocated, each with the txg it was recorded under. */
  type Leftover = map<Dva, nat>

  // ----- what one entry does

  function CountAt(pair: map<BlockKey, nat>, k: BlockKey): nat {
    if k in pair then pair[k] else 0
  }

  function PairAfter(pair: map<BlockKey, nat>, e: Event): map<BlockKey, nat> {
    var n := CountAt(pair, e.key);
    if e.free then pair[e.key := n + 1]
    else if n > 1 then pair[e.key := n - 1]
    else pair - {e.key}
  }

  /** Record DVAs that are not recorded yet; an existing record keeps its txg. */
  function Record(left: Leftover, dvas: seq<Dva>, birth: nat): Leftover
    decreases |dvas|
  {
    if dvas == [] then left
    else Record(if dvas[0] in left then left else left[dvas[0] := birth], dvas[1..], birth)
  }

  function LeftAfter(pair: map<BlockKey, nat>, left: Leftover, e: Event): Leftover {
    if !e.free && e.key !in pair then Record(left, e.dvas, e.birth) else left
  }

  function Pairs(es: seq<Event>): map<BlockKey, nat> {
    if es == [] then map[] else PairAfter(Pairs(es[..|es| - 1]), es[|es| - 1])
  }

  function Left(left: Leftover, es: seq<Event>): Leftover {
    if es == [] then left
    else LeftAfter(Pairs(es[..|es| - 1]), Left(left, es[..|es| - 1]), es[|es| - 1])
  }

  class SublivelistVerify {
    var pair: map<BlockKey, nat>
    var leftover: Leftover

    /** Every node that is stored has a count of at least one. */
    ghost predicate Valid()
      reads this
    {
      forall k :: k in pair ==> pair[k] >= 1
    }

    constructor ()
      ensures Valid() && pair == map[] && leftover == map[]
    {
      pair, leftover := map[], map[];
    }

    /** sublivelist_verify_blkptr */
    method VerifyBlkptr(e: Event)
      requires Valid()
      modifies this
      ensures Valid()
      ensures pair == PairAfter(old(pair), e)
      ensures leftover == LeftAfter(old(pair), old(leftover), e)
    {
      if e.free {
        if e.key !in pair {
          pair := pair[e.key := 1];
        } else {
          pair := pair[e.key := pair[e.key] + 1];
        }
      } else if e.key !in pair {
        for i := 0 to |e.dvas|
          invariant pair == old(pair)
          invariant Record(old(leftover), e.dvas, e.birth) == Record(leftover, e.dvas[i..], e.birth)
        {
          assert e.dvas[i..][1..] == e.dvas[i + 1..];
          if e.dvas[i] !in leftover {
            leftover := leftover[e.dvas[i] := e.birth];
          }
        }
        assert pair - {e.key} == pair;
      } else {
        pair := pair[e.key := pair[e.key] - 1];
        if pair[e.key] == 0 {
          pair := pair - {e.key};
        }
      }
    }

    /** sublivelist_verify_func: `unmatched` is what it reports, with the counts. */
    method VerifySublist(es: seq<Event>) returns (unmatched: map<BlockKey, nat>)
      modifies this
      ensures Valid()
      ensures unmatched == Pairs(es)
      ensures leftover == Left(old(leftover), es)
    {
      pair := map[];
      for i := 0 to |es|
        invariant Valid()
        invariant pair == Pairs(es[..i]) && leftover == Left(old(leftover), es[..i])
      {
        assert es[..i + 1][..i] == es[..i];
        VerifyBlkptr(es[i]);
      }
      assert es[..|es|] == es;
      unmatched := pair;
    }
  }

  // ----- closed forms

  /** FREE entries minus ALLOC entries of a block. */
  function Net(k: BlockKey, es: seq<Event>): int {
    if es == [] then 0 else Net(k, es[..|es| - 1]) + Delta(k, es[|es| - 1])
  }

  function Delta(k: BlockKey, e: Event): int {
    if e.key != k then 0 else if e.free then 1 else -1
  }

  /** The unmatched FREE entries of a block after a sub-livelist. */
  function Remaining(k: BlockKey, es: seq<Event>): nat {
    CountAt(Pairs(es), k)
  }

  /** Entry i is an ALLOC that finds no FREE to match. */
  predicate Blocked(es: seq<Event>, i: nat)
    requires i < |es|
  {
    !es[i].free && es[i].key !in Pairs(es[..i])
  }

  lemma {:induction false} CountsArePositive(es: seq<Event>)
    ensures forall k :: k in Pairs(es) ==> Pairs(es)[k] >= 1
  {
    if es != [] {
      CountsArePositive(es[..|es| - 1]);
    }
  }

  lemma RemainingStep(k: BlockKey, es: seq<Event>, n: nat)
    requires n < |es|
    ensures Remaining(k, es[..n + 1]) ==
            if es[n].key != k then Remaining(k, es[..n])
            else if es[n].free then Remaining(k, es[..n]) + 1
            else if Remaining(k, es[..n]) > 0 then Remaining(k, es[..n]) - 1 else 0
    ensures Net(k, es[..n + 1]) == Net(k, es[..n]) + Delta(k, es[n])
    ensures Blocked(es, n) <==> !es[n].free && Remaining(es[n].key, es[..n]) == 0
  {
    assert es[..n + 1][..n] == es[..n];
    CountsArePositive(es[..n]);
  }

  lemma {:induction false} NetConcat(k: BlockKey, a: seq<Event>, b: seq<Event>)
    ensures Net(k, a + b) == Net(k, a) + Net(k, b)
    decreases |b|
  {
    if b == [] {
      assert a + b == a;
    } else {
      NetConcat(k, a, b[..|b| - 1]);
      assert (a + b)[..|a + b| - 1] == a + b[..|b| - 1];
    }
  }

  /** No prefix falls deeper below zero than the remaining count rises above the net count. */
  lemma {:induction false} RemainingAbovePrefixes(k: BlockKey, es: seq<Event>, n: nat, i: nat)
    requires i <= n <= |es|
    ensures Net(k, es[..n]) - Net(k, es[..i]) <= Remaining(k, es[..n])
    decreases n
  {
    if i < n {
      RemainingAbovePrefixes(k, es, n - 1, i);
      RemainingStep(k, es, n - 1);
    }
  }

  lemma {:induction false} RemainingAttained(k: BlockKey, es: seq<Event>, n: nat) returns (i: nat)
    requires n <= |es|
    ensures i <= n && Net(k, es[..n]) - Net(k, es[..i]) == Remaining(k, es[..n])
    decreases n
  {
    if n == 0 {
      i := 0;
      assert es[..0] == [];
    } else {
      RemainingStep(k, es, n - 1);
      i := RemainingAttained(k, es, n - 1);
      if es[n - 1].key == k && !es[n - 1].free && Remaining(k, es[..n - 1]) == 0 {
        i := n;
      }
    }
  }

  lemma SuffixNet(k: BlockKey, es: seq<Event>, i: nat)
    requires i <= |es|
    ensures Net(k, es[i..]) == Net(k, es) - Net(k, es[..i])
  {
    NetConcat(k, es[..i], es[i..]);
    assert es == es[..i] + es[i..];
  }

  /** The remaining count of a block is the largest excess of FREE entries over all suffixes. */
  lemma RemainingIsMaxSuffix(k: BlockKey, es: seq<Event>)
    ensures forall i :: 0 <= i <= |es| ==> Net(k, es[i..]) <= Remaining(k, es)
    ensures exists i :: 0 <= i <= |es| && Net(k, es[i..]) == Remaining(k, es)
  {
    assert es[..|es|] == es;
    forall i | 0 <= i <= |es|
      ensures Net(k, es[i..]) <= Remaining(k, es)
    {
      RemainingAbovePrefixes(k, es, |es|, i);
      SuffixNet(k, es, i);
    }
    var i := RemainingAttained(k, es, |es|);
    SuffixNet(k, es, i);
  }

  /** A block is reported as having unmatched FREE entries exactly when some suffix has too many. */
  lemma ReportedIff(k: BlockKey, es: seq<Event>)
    ensures k in Pairs(es) <==> exists i :: 0 <= i <= |es| && Net(k, es[i..]) > 0
  {
    CountsArePositive(es);
    RemainingIsMaxSuffix(k, es);
  }

  /** An ALLOC is left over exactly when it takes the block's net count to a new low. */
  lemma BlockedIff(es: seq<Event>, n: nat)
    requires n < |es|
    ensures Blocked(es, n) <==>
            !es[n].free && forall i :: 0 <= i <= n ==> Net(es[n].key, es[..n + 1]) < Net(es[n].key, es[..i])
  {
    var k := es[n].key;
    RemainingStep(k, es, n);
    var j := RemainingAttained(k, es, n);
    forall i | 0 <= i <= n
      ensures Net(k, es[..n]) - Net(k, es[..i]) <= Remaining(k, es[..n])
    {
      RemainingAbovePrefixes(k, es, n, i);
    }
  }

  /** Some ALLOC of a block is left over exactly when some prefix has more ALLOCs than FREEs. */
  lemma LeftOverIff(k: BlockKey, es: seq<Event>)
    ensures (exists n :: 0 <= n < |es| && es[n].key == k && Blocked(es, n)) <==>
            (exists i :: 0 <= i <= |es| && Net(k, es[..i]) < 0)
  {
    assert es[..0] == [];
    if exists n :: 0 <= n < |es| && es[n].key == k && Blocked(es, n) {
      var n :| 0 <= n < |es| && es[n].key == k && Blocked(es, n);
      BlockedIff(es, n);
      assert Net(k, es[..n + 1]) < Net(k, es[..0]);
    }
    if i :| 0 <= i <= |es| && Net(k, es[..i]) < 0 {
      var n := BlockedBefore(k, es, i);
    }
  }

  lemma {:induction false} BlockedBefore(k: BlockKey, es: seq<Event>, i: nat) returns (n: nat)
    requires i <= |es| && Net(k, es[..i]) < Remaining(k, es[..i])
    ensures n < i && es[n].key == k && Blocked(es, n)
    decreases i
  {
    assert es[..0] == [];
    RemainingStep(k, es, i - 1);
    if es[i - 1].key == k && Blocked(es, i - 1) {
      n := i - 1;
    } else {
      n := BlockedBefore(k, es, i - 1);
    }
  }

  // ----- what is recorded

  lemma {:induction false} RecordHolds(left: Leftover, dvas: seq<Dva>, birth: nat, d: Dva)
    ensures d in Record(left, dvas, birth) <==> d in left || d in dvas
    ensures d in Record(left, dvas, birth) ==>
              Record(left, dvas, birth)[d] == if d in left then left[d] else birth
    decreases |dvas|
  {
    if dvas != [] {
      RecordHolds(if dvas[0] in left then left else left[dvas[0] := birth], dvas[1..], birth, d);
    }
  }

  lemma BlockedInFront(es: seq<Event>, n: nat)
    requires n <= |es|
    ensures forall m :: 0 <= m < n ==> (Blocked(es[..n], m) <==> Blocked(es, m)) && es[..n][m] == es[m]
  {
    forall m | 0 <= m < n
      ensures Blocked(es[..n], m) <==> Blocked(es, m)
    {
      assert es[..n][..m] == es[..m];
    }
  }

  /** Entry n is the first left-over ALLOC that names d. */
  ghost predicate FirstToName(es: seq<Event>, d: Dva, n: nat) {
    && n < |es| && Blocked(es, n) && d in es[n].dvas
    && forall m :: 0 <= m < n && Blocked(es, m) ==> d !in es[m].dvas
  }

  /** A DVA is in the leftover tree exactly when it was, or a left-over ALLOC names it; the first txg stays. */
  lemma {:induction false} LeftHolds(left: Leftover, es: seq<Event>, d: Dva)
    ensures d in Left(left, es) <==> d in left || exists n: nat :: FirstToName(es, d, n)
    ensures d in left ==> Left(left, es)[d] == left[d]
    ensures forall n: nat :: FirstToName(es, d, n) && d !in left ==> Left(left, es)[d] == es[n].birth
  {
    if es != [] {
      var last := |es| - 1;
      LeftHolds(left, es[..last], d);
      RecordHolds(Left(left, es[..last]), es[last].dvas, es[last].birth, d);
      FirstToNameStep(es, d);
      if m: nat :| FirstToName(es[..last], d, m) {
        assert FirstToName(es, d, m) && es[..last][m] == es[m];
      } else if Blocked(es, last) && d in es[last].dvas {
        assert FirstToName(es, d, last);
      }
    }
  }

  lemma FirstToNameStep(es: seq<Event>, d: Dva)
    requires es != []
    ensures var last := |es| - 1;
            forall n: nat :: FirstToName(es, d, n) <==>
              if n < last then FirstToName(es[..last], d, n)
              else n == last && Blocked(es, last) && d in es[last].dvas && !exists m: nat :: FirstToName(es[..last], d, m)
  {
    var last := |es| - 1;
    BlockedInFront(es, last);
    forall n: nat
      ensures FirstToName(es, d, n) <==>
              if n < last then FirstToName(es[..last], d, n)
              else n == last && Blocked(es, last) && d in es[last].dvas && !exists m: nat :: FirstToName(es[..last], d, m)
    {
      if n == last && exists m :: 0 <= m < last && Blocked(es, m) && d in es[m].dvas {
        var m :| 0 <= m < last && Blocked(es, m) && d in es[m].dvas;
        var f := LeastNamed(es[..last], d, m);
      }
    }
  }

  lemma {:induction false} LeastNamed(es: seq<Event>, d: Dva, m: nat) returns (n: nat)
    requires m < |es| && Blocked(es, m) && d in es[m].dvas
    ensures FirstToName(es, d, n)
  {
    n := m;
    if exists j :: 0 <= j < m && Blocked(es, j) && d in es[j].dvas {
      var j :| 0 <= j < m && Blocked(es, j) && d in es[j].dvas;
      n := LeastNamed(es, d, j);
    }
  }
}
