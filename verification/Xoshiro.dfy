/**
  ztest's xoshiro256++ generator: its state step and its jump function, which gives each
  thread a seed of its own. Words are written out as their 64 bits, lowest first.
  */
module Xoshiro {
  import opened Multiples

  type Word = w: seq<bool> | |w| == 64 witness seq(64, _ => false)

  function Xor(a: Word, b: Word): Word {
    seq(64, i requires 0 <= i < 64 => a[i] != b[i])
  }

  function Shl(a: Word, k: nat): Word {
    seq(64, i requires 0 <= i < 64 => i >= k && a[i - k])
  }

  function Rotl(a: Word, k: nat): Word
    requires k <= 64
  {
    seq(64, i requires 0 <= i < 64 => if i >= k then a[i - k] else a[i + 64 - k])
  }

  function ZeroWord(): Word {
    seq(64, i requires 0 <= i < 64 => false)
  }

  /** The four state words. */
  datatype Seed = Seed(s0: Word, s1: Word, s2: Word, s3: Word)

  function Zero(): Seed {
    Seed(ZeroWord(), ZeroWord(), ZeroWord(), ZeroWord())
  }

  function Add(a: Seed, b: Seed): Seed {
    Seed(Xor(a.s0, b.s0), Xor(a.s1, b.s1), Xor(a.s2, b.s2), Xor(a.s3, b.s3))
  }

  /** The state after one call of xoshiro256plusplus_next. */
  function Step(w: Seed): Seed {
    var t := Shl(w.s1, 17);
    var s2 := Xor(w.s2, w.s0);
    var s3 := Xor(w.s3, w.s1);
    Seed(Xor(w.s0, s3), Xor(w.s1, s2), Xor(s2, t), Rotl(s3, 45))
  }

  /** The carry into bit i of a sum. */
  function Carry(a: Word, b: Word, i: nat): bool
    requires i <= 64
  {
    i > 0 && if a[i - 1] == b[i - 1] then a[i - 1] else Carry(a, b, i - 1)
  }

  /** Addition of 64-bit words. */
  function Plus(a: Word, b: Word): Word {
    seq(64, i requires 0 <= i < 64 => (a[i] != b[i]) != Carry(a, b, i))
  }

  /** The number that xoshiro256plusplus_next returns. */
  function Output(w: Seed): Word {
    Plus(Rotl(Plus(w.s0, w.s3), 23), w.s0)
  }

  function Steps(w: Seed, n: nat): Seed {
    if n == 0 then w else Step(Steps(w, n - 1))
  }

  // ----- words

  lemma XorLaws(a: Word, b: Word, c: Word, d: Word)
    ensures Xor(a, b) == Xor(b, a)
    ensures Xor(Xor(a, b), b) == a
    ensures Xor(a, ZeroWord()) == a
    ensures Xor(a, a) == ZeroWord()
    ensures Xor(Xor(a, b), Xor(c, d)) == Xor(Xor(a, c), Xor(b, d))
  {
  }

  lemma RotlBack(a: Word, k: nat)
    requires k <= 64
    ensures Rotl(Rotl(a, k), 64 - k) == a
  {
  }

  // ----- addition is addition modulo 2^64

  /** The number in the lowest n bits. */
  function Num(a: Word, n: nat): nat
    requires n <= 64
  {
    if n == 0 then 0 else Num(a, n - 1) + if a[n - 1] then Pow2(n - 1) else 0
  }

  lemma {:induction false} PlusUpTo(a: Word, b: Word, n: nat)
    requires n <= 64
    ensures Num(a, n) + Num(b, n) == Num(Plus(a, b), n) + if Carry(a, b, n) then Pow2(n) else 0
  {
    if n > 0 {
      PlusUpTo(a, b, n - 1);
    }
  }

  lemma {:induction false} NumBound(a: Word, n: nat)
    requires n <= 64
    ensures Num(a, n) < Pow2(n)
  {
    if n > 0 {
      NumBound(a, n - 1);
    }
  }

  /** The low n bits of a sum are the sum of the low n bits modulo 2^n; for n = 64 these are the words. */
  lemma PlusIsModular(a: Word, b: Word, n: nat)
    requires n <= 64
    ensures Num(Plus(a, b), n) == (Num(a, n) + Num(b, n)) % Pow2(n)
  {
    PlusUpTo(a, b, n);
    NumBound(Plus(a, b), n);
    CarryDropped(Num(a, n) + Num(b, n), Num(Plus(a, b), n), Pow2(n), Carry(a, b, n));
  }

  lemma CarryDropped(sum: nat, low: nat, m: nat, carry: bool)
    requires low < m && sum == low + if carry then m else 0
    ensures low == sum % m
  {
    DivideRemainder(if carry then 1 else 0, m, low);
  }

  // ----- the output, as numbers

  const WIDTH: nat := 64

  /** The number in the n bits from bit i. */
  function Part(a: Word, i: nat, n: nat): nat
    requires i + n <= 64
  {
    if n == 0 then 0 else Part(a, i, n - 1) + if a[i + n - 1] then Pow2(n - 1) else 0
  }

  lemma {:induction false} Pow2Sum(a: nat, b: nat)
    ensures Pow2(a + b) == Pow2(a) * Pow2(b)
    decreases b
  {
    if b > 0 { Pow2Sum(a, b - 1); }
  }

  lemma {:induction false} NumSplits(a: Word, i: nat, n: nat)
    requires i + n <= 64
    ensures Num(a, i + n) == Num(a, i) + Pow2(i) * Part(a, i, n)
    decreases n
  {
    if n > 0 {
      NumSplits(a, i, n - 1);
      Pow2Sum(i, n - 1);
      SplitStep(Pow2(i), Part(a, i, n - 1), if a[i + n - 1] then Pow2(n - 1) else 0);
    }
  }

  lemma SplitStep(p: nat, x: nat, y: nat)
    ensures p * (x + y) == p * x + p * y
  {
  }

  lemma {:induction false} SameLow(a: Word, b: Word, i: nat, n: nat)
    requires i + n <= 64 && forall j :: 0 <= j < n ==> b[j] == a[i + j]
    ensures Num(b, n) == Part(a, i, n)
    decreases n
  {
    if n > 0 { SameLow(a, b, i, n - 1); }
  }

  /** Rotating swaps the high k bits and the rest. */
  lemma RotlIs(a: Word, k: nat, m: nat)
    requires k + m == WIDTH
    ensures Num(a, m + k) == Num(a, m) + Pow2(m) * Part(a, m, k)
    ensures Num(Rotl(a, k), m + k) == Part(a, m, k) + Pow2(k) * Num(a, m)
  {
    var r := Rotl(a, k);
    NumSplits(a, m, k);
    NumSplits(r, k, m);
    assert forall j :: 0 <= j < k ==> r[j] == a[m + j];
    SameLow(a, r, m, k);
    assert forall j :: 0 <= j < m ==> a[j] == r[k + j];
    SameLow(r, a, k, m);
  }

  /** x rotated left: its part from `high` on moves to the bottom, the rest up by the factor `up`. */
  function RotatedLeft(x: nat, up: nat, high: nat): int
    requires high > 0
  {
    x / high + up * (x % high)
  }

  lemma RotateParts(lo: nat, hi: nat, up: nat, high: nat)
    requires lo < high
    ensures RotatedLeft(lo + high * hi, up, high) == hi + up * lo
  {
    assert lo + high * hi == hi * high + lo;
    DivideRemainder(hi, high, lo);
  }

  lemma RotlNum(a: Word, k: nat, m: nat)
    requires k + m == WIDTH
    ensures Num(Rotl(a, k), WIDTH) == RotatedLeft(Num(a, WIDTH), Pow2(k), Pow2(m))
  {
    RotlIs(a, k, m);
    NumBound(a, m);
    RotateParts(Num(a, m), Part(a, m, k), Pow2(k), Pow2(m));
  }

  const ROTATION: nat := 23

  /** The result is rotl(s0 + s3, 23) + s0, in numbers modulo 2^64. */
  lemma OutputIs(w: Seed)
    ensures var s0, s3, mod := Num(w.s0, WIDTH), Num(w.s3, WIDTH), Pow2(WIDTH);
            Num(Output(w), WIDTH) ==
            (RotatedLeft((s0 + s3) % mod, Pow2(ROTATION), Pow2(WIDTH - ROTATION)) + s0) % mod
  {
    var sum := Plus(w.s0, w.s3);
    PlusIsModular(w.s0, w.s3, WIDTH);
    RotlNum(sum, ROTATION, WIDTH - ROTATION);
    PlusIsModular(Rotl(sum, ROTATION), w.s0, WIDTH);
  }

  // ----- the step is linear

  lemma StepIsLinear(a: Seed, b: Seed)
    ensures Step(Add(a, b)) == Add(Step(a), Step(b))
  {
  }

  lemma StepZero()
    ensures Step(Zero()) == Zero()
  {
  }

  // ----- the step is a bijection

  /** Undoes y = x ^ (x << 17). */
  function Unshift17(y: Word): Word {
    Xor(Xor(y, Shl(y, 17)), Xor(Shl(y, 34), Shl(y, 51)))
  }

  lemma Unshift17Left(x: Word)
    ensures Unshift17(Xor(x, Shl(x, 17))) == x
  {
  }

  lemma Unshift17Right(y: Word)
    ensures Xor(Unshift17(y), Shl(Unshift17(y), 17)) == y
  {
  }

  /** The explicit inverse of the step. */
  function Unstep(w: Seed): Seed {
    var s3 := Rotl(w.s3, 19);
    var s1 := Unshift17(Xor(w.s1, w.s2));
    var s0 := Xor(w.s0, s3);
    Seed(s0, s1, Xor(Xor(w.s1, s1), s0), Xor(s3, s1))
  }

  lemma UnstepStep(w: Seed)
    ensures Unstep(Step(w)) == w
  {
    var n2, n3 := Xor(w.s2, w.s0), Xor(w.s3, w.s1);
    var r := Step(w);
    RotlBack(n3, 45);
    XorLaws(w.s0, n3, w.s0, w.s0);
    assert Xor(r.s1, r.s2) == Xor(w.s1, Shl(w.s1, 17)) by { CancelMiddle(w.s1, n2, Shl(w.s1, 17)); }
    Unshift17Left(w.s1);
    assert Xor(r.s1, w.s1) == n2 by { XorLaws(n2, w.s1, w.s1, w.s1); }
    XorLaws(w.s2, w.s0, w.s0, w.s0);
    XorLaws(w.s3, w.s1, w.s1, w.s1);
  }

  lemma CancelMiddle(a: Word, b: Word, c: Word)
    ensures Xor(Xor(a, b), Xor(b, c)) == Xor(a, c)
  {
  }

  lemma StepUnstep(w: Seed)
    ensures Step(Unstep(w)) == w
  {
    var s3 := Rotl(w.s3, 19);
    var s1 := Unshift17(Xor(w.s1, w.s2));
    var s0 := Xor(w.s0, s3);
    var u := Unstep(w);
    XorLaws(s3, s1, s1, s1);
    RotlBack(w.s3, 19);
    XorLaws(w.s0, s3, s3, s3);
    XorLaws(Xor(w.s1, s1), s0, s0, s0);
    assert Xor(u.s2, u.s0) == Xor(w.s1, s1);
    XorLaws(w.s1, s1, s1, s1);
    assert Xor(s1, Xor(w.s1, s1)) == w.s1 by { XorLaws(s1, Xor(w.s1, s1), s1, s1); }
    Unshift17Right(Xor(w.s1, w.s2));
    assert Xor(Xor(w.s1, s1), Shl(s1, 17)) == w.s2 by { Regroup(w.s1, w.s2, s1, Shl(s1, 17)); }
  }

  lemma Regroup(a: Word, b: Word, c: Word, d: Word)
    requires Xor(c, d) == Xor(a, b)
    ensures Xor(Xor(a, c), d) == b
  {
    forall i | 0 <= i < 64
      ensures Xor(Xor(a, c), d)[i] == b[i]
    {
      assert Xor(c, d)[i] == Xor(a, b)[i];
    }
  }

  /** No two seeds ever meet. */
  lemma {:induction false} StepsInjective(a: Seed, b: Seed, n: nat)
    requires Steps(a, n) == Steps(b, n)
    ensures a == b
  {
    if n > 0 {
      StepInjective(Steps(a, n - 1), Steps(b, n - 1));
      StepsInjective(a, b, n - 1);
    }
  }

  lemma StepInjective(a: Seed, b: Seed)
    ensures Step(a) == Step(b) ==> a == b
  {
    UnstepStep(a);
    UnstepStep(b);
  }

  lemma {:induction false} StepsZero(n: nat)
    ensures Steps(Zero(), n) == Zero()
  {
    if n > 0 {
      StepsZero(n - 1);
      StepZero();
    }
  }

  /** A seed that is not all zero never becomes all zero. */
  lemma NeverAllZero(w: Seed, n: nat)
    requires w != Zero()
    ensures Steps(w, n) != Zero()
  {
    StepsZero(n);
    if Steps(w, n) == Steps(Zero(), n) {
      StepsInjective(w, Zero(), n);
    }
  }

  // ----- the jump

  const JUMP: seq<nat> := [0x180ec6d33cfd0aba, 0xd5a61266f0c9392c, 0xa9582618e03fc9aa, 0x39abdc4529b1661c]

  function Bit(x: nat, b: nat): bool {
    (x / Pow2(b)) % 2 == 1
  }

  /** The bits of JUMP, in the order the loops visit them. */
  function JumpBits(): seq<bool> {
    seq(256, j requires 0 <= j < 256 => Bit(JUMP[j / 64], j % 64))
  }

  /** The sum of the iterates whose bit is set. */
  function Combine(w: Seed, bits: seq<bool>): Seed {
    if bits == [] then Zero()
    else
      var n := |bits| - 1;
      if bits[n] then Add(Combine(w, bits[..n]), Steps(w, n)) else Combine(w, bits[..n])
  }

  function Jump(w: Seed): Seed {
    Combine(w, JumpBits())
  }

  function Jumps(w: Seed, k: nat): Seed {
    if k == 0 then w else Jump(Jumps(w, k - 1))
  }

  lemma {:induction false} StepFirst(w: Seed, n: nat)
    ensures Step(Steps(w, n)) == Steps(Step(w), n)
  {
    if n > 0 {
      StepFirst(w, n - 1);
    }
  }

  /** Whatever the bits, the combination commutes with the step. */
  lemma {:induction false} StepCombine(w: Seed, bits: seq<bool>)
    ensures Step(Combine(w, bits)) == Combine(Step(w), bits)
  {
    if bits == [] {
      StepZero();
    } else {
      var n := |bits| - 1;
      StepCombine(w, bits[..n]);
      StepFirst(w, n);
      StepIsLinear(Combine(w, bits[..n]), Steps(w, n));
    }
  }

  /** A selection of one iterate is that iterate. */
  lemma {:induction false} CombineUnit(w: Seed, bits: seq<bool>, n: nat)
    requires n < |bits| && forall i :: 0 <= i < |bits| ==> (bits[i] <==> i == n)
    ensures Combine(w, bits) == Steps(w, n)
    decreases |bits|
  {
    var last := |bits| - 1;
    if n < last {
      CombineUnit(w, bits[..last], n);
    } else {
      CombineNone(w, bits[..last]);
      AddLaws(Steps(w, n), Zero(), Zero(), Zero());
      ZeroFirst(Steps(w, n));
    }
  }

  lemma {:induction false} CombineNone(w: Seed, bits: seq<bool>)
    requires forall i :: 0 <= i < |bits| ==> !bits[i]
    ensures Combine(w, bits) == Zero()
  {
    if bits != [] { CombineNone(w, bits[..|bits| - 1]); }
  }

  lemma ZeroFirst(a: Seed)
    ensures Add(Zero(), a) == a
  {
  }

  /** Two selections together select what one of them does. */
  lemma {:induction false} CombineXor(w: Seed, a: seq<bool>, b: seq<bool>, c: seq<bool>)
    requires |a| == |b| == |c| && forall i :: 0 <= i < |a| ==> c[i] == (a[i] != b[i])
    ensures Combine(w, c) == Add(Combine(w, a), Combine(w, b))
    decreases |a|
  {
    if a == [] {
      ZeroFirst(Zero());
    } else {
      var n := |a| - 1;
      CombineXor(w, a[..n], b[..n], c[..n]);
      XorStep(Combine(w, a[..n]), Combine(w, b[..n]), Steps(w, n), a[n], b[n]);
    }
  }

  lemma XorStep(x: Seed, y: Seed, s: Seed, a: bool, b: bool)
    ensures (if a != b then Add(Add(x, y), s) else Add(x, y)) ==
            Add(if a then Add(x, s) else x, if b then Add(y, s) else y)
  {
  }

  lemma {:induction false} StepJumps(w: Seed, k: nat)
    ensures Step(Jumps(w, k)) == Jumps(Step(w), k)
  {
    if k > 0 {
      StepCombine(Jumps(w, k - 1), JumpBits());
      StepJumps(w, k - 1);
    }
  }

  /** Jumping k times and then stepping n times is stepping n times and then jumping k times. */
  lemma {:induction false} JumpsCommuteWithSteps(w: Seed, k: nat, n: nat)
    ensures Steps(Jumps(w, k), n) == Jumps(Steps(w, n), k)
    decreases n
  {
    if n > 0 {
      JumpsCommuteWithSteps(w, k, n - 1);
      StepJumps(Steps(w, n - 1), k);
    }
  }

  lemma AddLaws(a: Seed, b: Seed, c: Seed, d: Seed)
    ensures Add(a, Zero()) == a
    ensures Add(Add(a, b), Add(c, d)) == Add(Add(a, c), Add(b, d))
  {
  }

  lemma {:induction false} StepsLinear(a: Seed, b: Seed, n: nat)
    ensures Steps(Add(a, b), n) == Add(Steps(a, n), Steps(b, n))
  {
    if n > 0 {
      StepsLinear(a, b, n - 1);
      StepIsLinear(Steps(a, n - 1), Steps(b, n - 1));
    }
  }

  /** The jump is linear too. */
  lemma {:induction false} CombineLinear(a: Seed, b: Seed, bits: seq<bool>)
    ensures Combine(Add(a, b), bits) == Add(Combine(a, bits), Combine(b, bits))
  {
    if bits == [] {
      AddLaws(Zero(), Zero(), Zero(), Zero());
    } else {
      var n := |bits| - 1;
      CombineLinear(a, b, bits[..n]);
      StepsLinear(a, b, n);
      AddLaws(Combine(a, bits[..n]), Combine(b, bits[..n]), Steps(a, n), Steps(b, n));
    }
  }

  // ----- the functions, in place

  function SeedOf(s: seq<Word>): Seed
    requires |s| == 4
  {
    Seed(s[0], s[1], s[2], s[3])
  }

  /** xoshiro256plusplus_next */
  method Next(s: array<Word>) returns (result: Word)
    requires s.Length == 4
    modifies s
    ensures result == Output(old(SeedOf(s[..])))
    ensures SeedOf(s[..]) == Step(old(SeedOf(s[..])))
  {
    result := Plus(Rotl(Plus(s[0], s[3]), 23), s[0]);
    var t := Shl(s[1], 17);
    s[2] := Xor(s[2], s[0]);
    s[3] := Xor(s[3], s[1]);
    s[1] := Xor(s[1], s[2]);
    s[0] := Xor(s[0], s[3]);
    s[2] := Xor(s[2], t);
    s[3] := Rotl(s[3], 45);
  }

  /** One turn of the jump's inner loop. */
  method JumpTurn(s: array<Word>, bit: bool, s0: Word, s1: Word, s2: Word, s3: Word)
    returns (t0: Word, t1: Word, t2: Word, t3: Word)
    requires s.Length == 4
    modifies s
    ensures Seed(t0, t1, t2, t3) ==
            if bit then Add(Seed(s0, s1, s2, s3), old(SeedOf(s[..]))) else Seed(s0, s1, s2, s3)
    ensures SeedOf(s[..]) == Step(old(SeedOf(s[..])))
  {
    t0, t1, t2, t3 := s0, s1, s2, s3;
    if bit {
      t0 := Xor(t0, s[0]);
      t1 := Xor(t1, s[1]);
      t2 := Xor(t2, s[2]);
      t3 := Xor(t3, s[3]);
    }
    var _ := Next(s);
  }

  lemma CombineNext(w: Seed, bits: seq<bool>, n: nat)
    requires n < |bits|
    ensures Combine(w, bits[..n + 1]) ==
            if bits[n] then Add(Combine(w, bits[..n]), Steps(w, n)) else Combine(w, bits[..n])
  {
    assert bits[..n + 1][..n] == bits[..n];
  }

  lemma BitAt(i: nat, b: nat)
    requires i < 4 && b < 64
    ensures JumpBits()[64 * i + b] == Bit(JUMP[i], b)
  {
  }

  /** The state and the accumulators after n turns of the jump's loops. */
  ghost predicate Turned(w: Seed, n: nat, state: Seed, acc: Seed)
    requires n <= |JumpBits()|
  {
    state == Steps(w, n) && acc == Combine(w, JumpBits()[..n])
  }

  lemma TurnedNext(w: Seed, n: nat, state: Seed, acc: Seed)
    requires n < |JumpBits()| && Turned(w, n, state, acc)
    ensures Turned(w, n + 1, Step(state), if JumpBits()[n] then Add(acc, state) else acc)
  {
    CombineNext(w, JumpBits(), n);
  }

  /** The inner loop: the 64 bits of one word of JUMP. */
  method JumpWord(s: array<Word>, i: nat, s0: Word, s1: Word, s2: Word, s3: Word, ghost w: Seed)
    returns (t0: Word, t1: Word, t2: Word, t3: Word)
    requires s.Length == 4 && i < 4 && Turned(w, 64 * i, SeedOf(s[..]), Seed(s0, s1, s2, s3))
    modifies s
    ensures Turned(w, 64 * i + 64, SeedOf(s[..]), Seed(t0, t1, t2, t3))
  {
    t0, t1, t2, t3 := s0, s1, s2, s3;
    for b := 0 to 64
      invariant Turned(w, 64 * i + b, SeedOf(s[..]), Seed(t0, t1, t2, t3))
    {
      BitAt(i, b);
      TurnedNext(w, 64 * i + b, SeedOf(s[..]), Seed(t0, t1, t2, t3));
      t0, t1, t2, t3 := JumpTurn(s, Bit(JUMP[i], b), t0, t1, t2, t3);
    }
  }

  /** xoshiro256plusplus_jump */
  method JumpInPlace(s: array<Word>)
    requires s.Length == 4
    modifies s
    ensures SeedOf(s[..]) == Jump(old(SeedOf(s[..])))
  {
    ghost var w := SeedOf(s[..]);
    var s0, s1, s2, s3 := ZeroWord(), ZeroWord(), ZeroWord(), ZeroWord();
    for i := 0 to 4
      invariant Turned(w, 64 * i, SeedOf(s[..]), Seed(s0, s1, s2, s3))
    {
      s0, s1, s2, s3 := JumpWord(s, i, s0, s1, s2, s3, w);
    }
    AllTurned(w, SeedOf(s[..]), Seed(s0, s1, s2, s3));
    s[0], s[1], s[2], s[3] := s0, s1, s2, s3;
  }

  lemma AllTurned(w: Seed, state: Seed, acc: Seed)
    requires Turned(w, 256, state, acc)
    ensures acc == Jump(w)
  {
    assert JumpBits()[..256] == JumpBits();
  }

  /** The first fishing call of a thread: its seed is the primary seed, jumped `jumps` times. */
  method SeedThread(primary: seq<Word>, jumps: nat) returns (seed: array<Word>)
    requires |primary| == 4
    ensures fresh(seed) && seed.Length == 4
    ensures SeedOf(seed[..]) == Jumps(SeedOf(primary), jumps)
    // the thread's n-th state is the n-th state of the primary stream, jumped
    ensures forall n: nat :: Steps(SeedOf(seed[..]), n) == Jumps(Steps(SeedOf(primary), n), jumps)
  {
    seed := new Word[4](i requires 0 <= i < 4 => primary[i]);
    assert seed[..] == primary;
    for i := 0 to jumps
      invariant SeedOf(seed[..]) == Jumps(SeedOf(primary), i)
    {
      JumpInPlace(seed);
    }
    forall n: nat
      ensures Steps(SeedOf(seed[..]), n) == Jumps(Steps(SeedOf(primary), n), jumps)
    {
      JumpsCommuteWithSteps(SeedOf(primary), jumps, n);
    }
  }
}
