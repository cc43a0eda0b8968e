/**
  Leak checking of a removed vdev: zdb gives it metaslabs again, fills each with the
  mapping entries that lie in it by moving one cursor over all of them, lets the traversal
  claim what blocks still refer to, and compares what is left with the obsolete counts.
  */
module IndirectMapping {
  import opened Ranges
  import opened Multiples

  /** A mapping entry: `len` bytes from `off` of the removed vdev. */
  datatype Mapping = Mapping(off: nat, len: nat)

  /** The metaslab that an offset lies in, `offset >> ms_shift`. */
  function MsOf(x: nat, size: nat): nat
    requires size > 0
  {
    x / size
  }

  /** An offset lies before metaslab m exactly when its metaslab does. */
  lemma MsBounds(x: nat, size: nat, m: nat)
    requires size > 0
    ensures MsOf(x, size) < m <==> x < m * size
  {
    var q := x / size;
    assert x == q * size + x % size;
    if q < m { LaterMultiple(q, m, size); }
    if m < q { LaterMultiple(m, q, size); }
  }

  /** Entries are in order, do not overlap, and none crosses a metaslab (they were made metaslab by metaslab). */
  ghost predicate Ordered(es: seq<Mapping>, size: nat)
    requires size > 0
  {
    && (forall i :: 0 <= i < |es| ==> es[i].len > 0 && MsOf(es[i].off + es[i].len - 1, size) == MsOf(es[i].off, size))
    && (forall i, j :: 0 <= i < j < |es| ==> es[i].off + es[i].len <= es[j].off)
  }

  /** The tests of the loader, in terms of the metaslab an entry lies in. */
  lemma LoaderTests(e: Mapping, size: nat, m: nat)
    requires size > 0 && e.len > 0 && MsOf(e.off + e.len - 1, size) == MsOf(e.off, size)
    ensures e.off < m * size <==> MsOf(e.off, size) < m
    ensures e.off >= m * size + size <==> MsOf(e.off, size) > m
    ensures MsOf(e.off, size) == m ==> e.off + e.len <= m * size + size
  {
    MsBounds(e.off, size, m);
    MsBounds(e.off, size, m + 1);
    MsBounds(e.off + e.len - 1, size, m + 1);
    assert (m + 1) * size == m * size + size;
  }

  lemma MsMonotone(x: nat, y: nat, size: nat)
    requires size > 0 && x <= y
    ensures MsOf(x, size) <= MsOf(y, size)
  {
    MsBounds(x, size, MsOf(y, size) + 1);
    MsBounds(y, size, MsOf(y, size) + 1);
  }

  /** The bytes of those among the first n entries that lie in metaslab m. */
  ghost function EntryBytes(es: seq<Mapping>, size: nat, m: nat, n: nat): set<nat>
    requires size > 0 && n <= |es|
  {
    if n == 0 then {}
    else EntryBytes(es, size, m, n - 1) +
         (if MsOf(es[n - 1].off, size) == m then Span(es[n - 1].off, es[n - 1].len) else {})
  }

  /** They are the bytes of the entries that start in the metaslab. */
  lemma {:induction false} EntryBytesAre(es: seq<Mapping>, size: nat, m: nat, n: nat, x: nat)
    requires size > 0 && n <= |es|
    ensures x in EntryBytes(es, size, m, n) <==>
            exists i :: 0 <= i < n && m * size <= es[i].off < m * size + size && es[i].off <= x < es[i].off + es[i].len
  {
    if n > 0 {
      EntryBytesAre(es, size, m, n - 1, x);
      MsBounds(es[n - 1].off, size, m);
      MsBounds(es[n - 1].off, size, m + 1);
      assert (m + 1) * size == m * size + size;
    }
  }

  lemma {:induction false} EntryBytesBelow(es: seq<Mapping>, size: nat, m: nat, n: nat)
    requires size > 0 && Ordered(es, size) && n < |es|
    ensures forall x :: x in EntryBytes(es, size, m, n) ==> x < es[n].off
    decreases n
  {
    if n > 0 {
      EntryBytesBelow(es, size, m, n - 1);
      assert es[n - 1].off + es[n - 1].len <= es[n].off;
    }
  }

  /** The next entry of metaslab m goes into its tree without meeting what is there. */
  lemma EntryFits(es: seq<Mapping>, size: nat, m: nat, n: nat)
    requires size > 0 && Ordered(es, size) && n < |es| && MsOf(es[n].off, size) == m
    ensures TreeAdd(EntryBytes(es, size, m, n), es[n].off, es[n].len) == Some(EntryBytes(es, size, m, n + 1))
  {
    EntryBytesBelow(es, size, m, n);
  }

  /** The cursor stands at the first entry that lies in metaslab m or after it. */
  ghost predicate CursorAt(es: seq<Mapping>, size: nat, m: nat, idx: nat)
    requires size > 0
  {
    && idx <= |es|
    && (forall i :: 0 <= i < idx ==> MsOf(es[i].off, size) < m)
    && (forall i :: idx <= i < |es| ==> m <= MsOf(es[i].off, size))
  }

  /** load_indirect_ms_allocatable_tree: `ok` is false where an assertion or the tree would fail. */
  method LoadMetaslab(es: seq<Mapping>, size: nat, m: nat, idx: nat) returns (ok: bool, tree: set<nat>, next: nat)
    requires size > 0 && Ordered(es, size) && CursorAt(es, size, m, idx)
    ensures ok
    ensures CursorAt(es, size, m + 1, next)
    ensures tree == EntryBytes(es, size, m, |es|)
  {
    tree, next := {}, idx;
    var msStart := m * size;
    NoneBefore(es, size, m, idx);
    while next < |es|
      invariant idx <= next <= |es|
      invariant forall i :: idx <= i < next ==> MsOf(es[i].off, size) == m
      invariant tree == EntryBytes(es, size, m, next)
    {
      LoaderTests(es[next], size, m);
      if es[next].off < msStart {
        return false, tree, next;
      }
      if es[next].off >= msStart + size {
        break;
      }
      if es[next].off + es[next].len > msStart + size {
        return false, tree, next;
      }
      EntryFits(es, size, m, next);
      var r := TreeAdd(tree, es[next].off, es[next].len);
      if r.None? {
        return false, tree, next;
      }
      tree := r.value;
      next := next + 1;
    }
    AfterCursor(es, size, m, next);
    return true, tree, next;
  }

  lemma {:induction false} NoneBefore(es: seq<Mapping>, size: nat, m: nat, n: nat)
    requires size > 0 && n <= |es|
    requires forall i :: 0 <= i < n ==> MsOf(es[i].off, size) < m
    ensures EntryBytes(es, size, m, n) == {}
    decreases n
  {
    if n > 0 { NoneBefore(es, size, m, n - 1); }
  }

  lemma AfterCursor(es: seq<Mapping>, size: nat, m: nat, n: nat)
    requires size > 0 && Ordered(es, size) && n <= |es|
    requires n < |es| ==> m < MsOf(es[n].off, size)
    ensures forall i :: n <= i < |es| ==> m < MsOf(es[i].off, size)
    ensures EntryBytes(es, size, m, |es|) == EntryBytes(es, size, m, n)
  {
    forall i | n <= i < |es|
      ensures m < MsOf(es[i].off, size)
    {
      if n < i {
        assert es[n].off + es[n].len <= es[i].off;
      }
      MsMonotone(es[n].off, es[i].off, size);
    }
    NoneAfter(es, size, m, n, |es|);
  }

  lemma {:induction false} NoneAfter(es: seq<Mapping>, size: nat, m: nat, n: nat, k: nat)
    requires size > 0 && n <= k <= |es|
    requires forall i :: n <= i < |es| ==> m < MsOf(es[i].off, size)
    ensures EntryBytes(es, size, m, k) == EntryBytes(es, size, m, n)
    decreases k
  {
    if n < k { NoneAfter(es, size, m, n, k - 1); }
  }

  /** The metaslab loop of zdb_leak_init_prepare_indirect_vdevs, with its final assertion as `all`. */
  method LoadVdev(es: seq<Mapping>, size: nat, count: nat) returns (trees: seq<set<nat>>, all: bool)
    requires size > 0 && Ordered(es, size)
    ensures |trees| == count
    ensures forall m :: 0 <= m < count ==> trees[m] == EntryBytes(es, size, m, |es|)
    ensures all <==> forall i :: 0 <= i < |es| ==> es[i].off < count * size
  {
    trees := [];
    var idx := 0;
    for m := 0 to count
      invariant |trees| == m
      invariant forall k :: 0 <= k < m ==> trees[k] == EntryBytes(es, size, k, |es|)
      invariant CursorAt(es, size, m, idx)
    {
      var ok, tree;
      ok, tree, idx := LoadMetaslab(es, size, m, idx);
      trees := trees + [tree];
    }
    all := idx == |es|;
    CursorAtEnd(es, size, count, idx);
  }

  lemma CursorAtEnd(es: seq<Mapping>, size: nat, count: nat, idx: nat)
    requires size > 0 && CursorAt(es, size, count, idx)
    ensures idx == |es| <==> forall i :: 0 <= i < |es| ==> es[i].off < count * size
  {
    forall i | 0 <= i < |es|
      ensures MsOf(es[i].off, size) < count <==> es[i].off < count * size
    {
      MsBounds(es[i].off, size, count);
    }
    assert idx < |es| ==> count <= MsOf(es[idx].off, size);
  }

  /** Every entry is in the tree of the metaslab it lies in, and no byte of it is in another. */
  lemma {:induction false} EntryIsLoadedOnce(es: seq<Mapping>, size: nat, i: nat, m: nat, n: nat)
    requires size > 0 && Ordered(es, size) && i < n <= |es|
    ensures MsOf(es[i].off, size) == m ==> Span(es[i].off, es[i].len) <= EntryBytes(es, size, m, n)
    ensures MsOf(es[i].off, size) != m ==> Span(es[i].off, es[i].len) !! EntryBytes(es, size, m, n)
    decreases n
  {
    if i < n - 1 {
      EntryIsLoadedOnce(es, size, i, m, n - 1);
      assert es[i].off + es[i].len <= es[n - 1].off;
    } else if MsOf(es[i].off, size) != m {
      EntryBytesBelow(es, size, m, n - 1);
    }
  }

  // ----- obsolete counts

  /** What one allocation unit adds: all of it or nothing. */
  function UnitBytes(tree: set<nat>, start: nat, unit: nat): nat {
    if Span(start, unit) <= tree then unit else 0
  }

  /** Where unit k of an entry starts. */
  function UnitStart(off: nat, unit: nat, k: nat): nat {
    off + k * unit
  }

  /** What the inner loop adds up for the first n units of an entry. */
  ghost function UnitsHeld(tree: set<nat>, off: nat, unit: nat, n: nat): nat {
    if n == 0 then 0 else UnitsHeld(tree, off, unit, n - 1) + UnitBytes(tree, UnitStart(off, unit, n - 1), unit)
  }

  /** The inner loop of zdb_check_for_obsolete_leaks: step through the entry one allocation unit at a time. */
  method CountObsolete(tree: set<nat>, off: nat, unit: nat, units: nat) returns (bytes: nat)
    requires unit > 0
    ensures bytes == UnitsHeld(tree, off, unit, units)
  {
    bytes := 0;
    var inner := 0;
    ghost var n := 0;
    var asize := units * unit;
    StepBy(n, unit, units);
    while inner < asize
      invariant n <= units && inner == n * unit && (inner < asize <==> n < units)
      invariant bytes == UnitsHeld(tree, off, unit, n)
      decreases units - n
    {
      if Span(off + inner, unit) <= tree {
        bytes := bytes + unit;
      }
      StepBy(n, unit, units);
      StepBy(n + 1, unit, units);
      inner := inner + unit;
      n := n + 1;
    }
  }

  lemma StepBy(n: nat, unit: nat, units: nat)
    requires unit > 0 && n <= units
    ensures (n + 1) * unit == n * unit + unit
    ensures n * unit < units * unit <==> n < units
  {
    if n < units { LaterMultiple(n, units, unit); }
  }

  /** A unit that is held in part and not as a whole. */
  ghost predicate Split(tree: set<nat>, start: nat, unit: nat) {
    !(Span(start, unit) <= tree) && !(Span(start, unit) !! tree)
  }

  ghost predicate NoneSplit(tree: set<nat>, off: nat, unit: nat, n: nat) {
    forall k :: 0 <= k < n ==> !Split(tree, UnitStart(off, unit, k), unit)
  }

  lemma UnitStep(tree: set<nat>, off: nat, done: nat, unit: nat)
    ensures |tree * Span(off, done + unit)| == |tree * Span(off, done)| + |tree * Span(off + done, unit)|
  {
    SpanSplit(off, done, unit);
    DisjointSize(tree * Span(off, done), tree * Span(off + done, unit));
    assert tree * Span(off, done + unit) == tree * Span(off, done) + tree * Span(off + done, unit);
  }

  /** One unit is counted right exactly when it is not split. */
  lemma UnitCount(tree: set<nat>, start: nat, unit: nat)
    ensures UnitBytes(tree, start, unit) <= |tree * Span(start, unit)|
    ensures UnitBytes(tree, start, unit) == |tree * Span(start, unit)| <==> !Split(tree, start, unit)
  {
    SpanSize(start, unit);
    if Span(start, unit) <= tree {
      assert tree * Span(start, unit) == Span(start, unit);
    } else if Span(start, unit) !! tree {
      assert tree * Span(start, unit) == {};
    } else {
      var x :| x in tree && x in Span(start, unit);
      assert x in tree * Span(start, unit);
    }
  }

  /** The count is the number of unclaimed bytes of the entry exactly when no unit of it was claimed in part. */
  lemma {:induction false} ObsoleteCountIff(tree: set<nat>, off: nat, unit: nat, n: nat)
    ensures UnitsHeld(tree, off, unit, n) <= |tree * Span(off, n * unit)|
    ensures UnitsHeld(tree, off, unit, n) == |tree * Span(off, n * unit)| <==> NoneSplit(tree, off, unit, n)
    decreases n
  {
    if n == 0 {
      assert tree * Span(off, 0) == {};
    } else {
      ObsoleteCountIff(tree, off, unit, n - 1);
      NextUnit(tree, off, unit, n, (n - 1) * unit);
    }
  }

  /** One byte of a longer unit left unclaimed is not counted. */
  lemma SplitUnitIsMissed(off: nat, unit: nat)
    requires unit > 1
    ensures UnitsHeld({off}, off, unit, 1) == 0 && |{off} * Span(off, unit)| == 1
  {
    assert off + 1 in Span(off, unit) && off in Span(off, unit);
    assert UnitStart(off, unit, 0) == off;
    assert {off} * Span(off, unit) == {off};
  }

  lemma NextUnit(tree: set<nat>, off: nat, unit: nat, n: nat, done: nat)
    requires n > 0 && done == (n - 1) * unit
    requires UnitsHeld(tree, off, unit, n - 1) <= |tree * Span(off, done)|
    requires UnitsHeld(tree, off, unit, n - 1) == |tree * Span(off, done)| <==> NoneSplit(tree, off, unit, n - 1)
    ensures UnitsHeld(tree, off, unit, n) <= |tree * Span(off, n * unit)|
    ensures UnitsHeld(tree, off, unit, n) == |tree * Span(off, n * unit)| <==> NoneSplit(tree, off, unit, n)
  {
    assert n * unit == done + unit;
    assert |tree * Span(off, n * unit)| == |tree * Span(off, done)| + |tree * Span(off + done, unit)| by {
      UnitStep(tree, off, done, unit);
    }
    UnitCount(tree, off + done, unit);
    NoneSplitStep(tree, off, unit, n - 1);
  }

  lemma NoneSplitStep(tree: set<nat>, off: nat, unit: nat, n: nat)
    ensures NoneSplit(tree, off, unit, n + 1) <==>
            NoneSplit(tree, off, unit, n) && !Split(tree, UnitStart(off, unit, n), unit)
  {
  }

  function Abs(x: int): nat {
    if x < 0 then -x else x
  }

  /** How far the counts of the first n entries are off, summed without sign. */
  ghost function Mismatch(es: seq<Mapping>, trees: seq<set<nat>>, size: nat, unit: nat, counts: seq<nat>, n: nat): nat
    requires Checkable(es, trees, size, unit, counts) && n <= |es|
  {
    if n == 0 then 0
    else
      assert EntryOk(es[n - 1], trees, size, unit);
      Mismatch(es, trees, size, unit, counts, n - 1) + Abs(Held(es[n - 1], trees, size, unit) - counts[n - 1])
  }

  ghost predicate EntryOk(e: Mapping, trees: seq<set<nat>>, size: nat, unit: nat) {
    size > 0 && unit > 0 && MsOf(e.off, size) < |trees| && e.len == e.len / unit * unit
  }

  /** Every entry lies in a metaslab of the vdev and is a whole number of allocation units. */
  ghost predicate Checkable(es: seq<Mapping>, trees: seq<set<nat>>, size: nat, unit: nat, counts: seq<nat>) {
    |counts| == |es| && size > 0 && unit > 0 && forall i :: 0 <= i < |es| ==> EntryOk(es[i], trees, size, unit)
  }

  /** The units of an entry that are still in the tree of its metaslab. */
  ghost function Held(e: Mapping, trees: seq<set<nat>>, size: nat, unit: nat): nat
    requires EntryOk(e, trees, size, unit)
  {
    UnitsHeld(trees[MsOf(e.off, size)], e.off, unit, e.len / unit)
  }

  /** zdb_check_for_obsolete_leaks */
  method CheckObsolete(es: seq<Mapping>, trees: seq<set<nat>>, size: nat, unit: nat, counts: seq<nat>, precise: bool)
    returns (leaks: bool, total: nat)
    requires Checkable(es, trees, size, unit, counts)
    ensures total == Mismatch(es, trees, size, unit, counts, |es|)
    ensures leaks <==> precise && exists i :: 0 <= i < |es| && Held(es[i], trees, size, unit) != counts[i]
  {
    total := 0;
    for i := 0 to |es|
      invariant total == Mismatch(es, trees, size, unit, counts, i)
    {
      assert EntryOk(es[i], trees, size, unit);
      var obsolete := CountObsolete(trees[MsOf(es[i].off, size)], es[i].off, unit, es[i].len / unit);
      var leaked: int := obsolete as int - counts[i];
      total := total + Abs(leaked);
    }
    leaks := precise && total > 0;
    MismatchZeroIff(es, trees, size, unit, counts, |es|);
  }

  lemma {:induction false} MismatchZeroIff(es: seq<Mapping>, trees: seq<set<nat>>, size: nat, unit: nat, counts: seq<nat>, n: nat)
    requires Checkable(es, trees, size, unit, counts) && n <= |es|
    ensures Mismatch(es, trees, size, unit, counts, n) == 0 <==>
            forall i :: 0 <= i < n ==> Held(es[i], trees, size, unit) == counts[i]
  {
    if n > 0 { MismatchZeroIff(es, trees, size, unit, counts, n - 1); }
  }

  /**
    With precise counts, and trees that hold whole units of their entries, a vdev passes
    exactly when every recorded count is the number of bytes of its entry left unclaimed.
    */
  lemma PassesIff(es: seq<Mapping>, trees: seq<set<nat>>, size: nat, unit: nat, counts: seq<nat>)
    requires Checkable(es, trees, size, unit, counts)
    requires forall i :: 0 <= i < |es| ==>
               NoneSplit(trees[MsOf(es[i].off, size)], es[i].off, unit, es[i].len / unit)
    ensures (forall i :: 0 <= i < |es| ==> Held(es[i], trees, size, unit) == counts[i]) <==>
            (forall i :: 0 <= i < |es| ==>
               |trees[MsOf(es[i].off, size)] * Span(es[i].off, es[i].len)| == counts[i])
  {
    forall i | 0 <= i < |es|
      ensures Held(es[i], trees, size, unit) == |trees[MsOf(es[i].off, size)] * Span(es[i].off, es[i].len)|
    {
      assert EntryOk(es[i], trees, size, unit);
      ObsoleteCountIff(trees[MsOf(es[i].off, size)], es[i].off, unit, es[i].len / unit);
    }
  }
}
