/** Powers of two, and facts about multiples and quotients, that several modules need. */
module Multiples {

  function Pow2(n: nat): (r: nat)
    ensures r > 0
  {
    if n == 0 then 1 else 2 * Pow2(n - 1)
  }

  lemma {:induction false} LaterMultiple(a: nat, b: nat, size: nat)
    requires a < b
    ensures a * size + size <= b * size
    decreases b
  {
    assert b * size == (b - 1) * size + size;
    if a < b - 1 {
      LaterMultiple(a, b - 1, size);
    }
  }

  lemma QuotientUnique(p: nat, q: nat, size: nat, m: nat, r: nat)
    requires p * size + m == q * size + r && m < size && r < size
    ensures p == q && m == r
  {
    if p < q { LaterMultiple(p, q, size); }
    if q < p { LaterMultiple(q, p, size); }
  }

  lemma DivideRemainder(q: nat, size: nat, r: nat)
    requires r < size
    ensures (q * size + r) / size == q
    ensures (q * size + r) % size == r
  {
    var x := q * size + r;
    assert x == x / size * size + x % size;
    QuotientUnique(x / size, q, size, x % size, r);
  }
}
