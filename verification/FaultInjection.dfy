/**
  Where ztest writes bad words: each leaf device has injection ranges of its own, kept
  apart so that no block is damaged on two leaves.
  */
module FaultInjection {

  const MAX_BLOCK: nat := 0x100_0000            // 1 << SPA_MAXBLOCKSHIFT
  const RANGE: nat := 0x400_0000                // 1 << bshift, bshift being SPA_MAXBLOCKSHIFT + 2

  /**
    The offset rule: `chunk` is the random chunk of the device, `leaf` the leaf's number
    (zs_splits included), `r` the random position below 1 << (bshift - 1).
    */
  function BadOffset(leaves: nat, chunk: nat, leaf: nat, r: nat): nat {
    chunk * (leaves * RANGE) + leaf * RANGE + (r - r % 8)
  }

  /** The number of the injection range that the word falls into. */
  function RangeNo(leaves: nat, chunk: nat, leaf: nat): nat {
    chunk * leaves + leaf
  }

  lemma BadOffsetInRange(leaves: nat, chunk: nat, leaf: nat, r: nat)
    requires r < RANGE / 2
    ensures RangeNo(leaves, chunk, leaf) * RANGE <= BadOffset(leaves, chunk, leaf, r)
    ensures BadOffset(leaves, chunk, leaf, r) + 8 <= RangeNo(leaves, chunk, leaf) * RANGE + RANGE / 2
  {
    assert chunk * (leaves * RANGE) == chunk * leaves * RANGE;
    assert (chunk * leaves + leaf) * RANGE == chunk * leaves * RANGE + leaf * RANGE;
  }

  /** Every aligned word of the first half can be hit, and only whole words are. */
  lemma EveryWordIsHit(leaves: nat, chunk: nat, leaf: nat, word: nat)
    ensures (exists r: nat :: r < RANGE / 2 && BadOffset(leaves, chunk, leaf, r) == RangeNo(leaves, chunk, leaf) * RANGE + word) <==>
            word % 8 == 0 && word < RANGE / 2
  {
    assert chunk * (leaves * RANGE) == chunk * leaves * RANGE;
    assert (chunk * leaves + leaf) * RANGE == chunk * leaves * RANGE + leaf * RANGE;
    if word % 8 == 0 && word < RANGE / 2 {
      assert BadOffset(leaves, chunk, leaf, word) == RangeNo(leaves, chunk, leaf) * RANGE + word;
    }
  }

  /** Words in different ranges are more than 1 << (SPA_MAXBLOCKSHIFT + 1) apart. */
  lemma RangesApart(p: nat, q: nat, a: nat, b: nat)
    requires p < q
    requires p * RANGE <= a && a + 8 <= p * RANGE + RANGE / 2
    requires q * RANGE <= b && b + 8 <= q * RANGE + RANGE / 2
    ensures a + 8 + RANGE / 2 <= b
  {
    assert q * RANGE >= p * RANGE + RANGE;
  }

  ghost predicate Congruent(a: nat, b: nat, n: nat) {
    exists k: int :: a - b == k * n
  }

  /**
    Two leaves never share a range, whatever chunks are drawn, exactly when their numbers
    differ modulo the number of leaves.
    */
  lemma NeverSharedIff(leaves: nat, leafA: nat, leafB: nat)
    ensures (forall i: nat, j: nat :: RangeNo(leaves, i, leafA) != RangeNo(leaves, j, leafB)) <==>
            !Congruent(leafA, leafB, leaves)
  {
    if k: int :| leafA - leafB == k * leaves {
      if k >= 0 {
        assert RangeNo(leaves, 0, leafA) == RangeNo(leaves, k, leafB);
      } else {
        assert leafB - leafA == (-k) * leaves;
        assert RangeNo(leaves, -k, leafA) == RangeNo(leaves, 0, leafB);
      }
    } else {
      forall i: nat, j: nat
        ensures RangeNo(leaves, i, leafA) != RangeNo(leaves, j, leafB)
      {
        var k: int := j - i;
        assert k * leaves == j * leaves - i * leaves;
        assert leafA - leafB != k * leaves;
      }
    }
  }

  /** The leaves in use at one time are numbered from zs_splits: different ones are never congruent. */
  lemma LeavesDiffer(leaves: nat, splits: nat, leafA: nat, leafB: nat)
    requires splits <= leafA < splits + leaves && splits <= leafB < splits + leaves && leafA != leafB
    ensures !Congruent(leafA, leafB, leaves)
  {
    forall k: int
      ensures leafA - leafB != k * leaves
    {
      if k >= 1 { assert k * leaves >= leaves; }
      if k <= -1 { assert (-k) * leaves >= leaves; }
    }
  }

  /** No window of one maximal block holds bad words of two different leaves. */
  lemma NoBlockHitTwice(leaves: nat, splits: nat, chunkA: nat, leafA: nat, rA: nat, chunkB: nat, leafB: nat, rB: nat,
                        window: nat)
    requires splits <= leafA < splits + leaves && splits <= leafB < splits + leaves && leafA != leafB
    requires rA < RANGE / 2 && rB < RANGE / 2
    ensures var a := BadOffset(leaves, chunkA, leafA, rA);
            var b := BadOffset(leaves, chunkB, leafB, rB);
            && (a + 8 + 2 * MAX_BLOCK <= b || b + 8 + 2 * MAX_BLOCK <= a)
            && !(window < a + 8 && a < window + MAX_BLOCK && window < b + 8 && b < window + MAX_BLOCK)
  {
    LeavesDiffer(leaves, splits, leafA, leafB);
    NeverSharedIff(leaves, leafA, leafB);
    var p, q := RangeNo(leaves, chunkA, leafA), RangeNo(leaves, chunkB, leafB);
    BadOffsetInRange(leaves, chunkA, leafA, rA);
    BadOffsetInRange(leaves, chunkB, leafB, rB);
    if p < q {
      RangesApart(p, q, BadOffset(leaves, chunkA, leafA, rA), BadOffset(leaves, chunkB, leafB, rB));
    } else {
      RangesApart(q, p, BadOffset(leaves, chunkB, leafB, rB), BadOffset(leaves, chunkA, leafA, rA));
    }
  }
}
