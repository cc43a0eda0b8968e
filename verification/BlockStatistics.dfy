/**
  The tables that zdb fills while it counts blocks: totals by level and object type, with
  a row and a column of sums, and histograms of block sizes by powers of two.
  */
module BlockStatistics {
  import opened Ranges
  import opened Multiples

  const ZB_TOTAL: nat := 12           // DN_MAX_LEVELS; the row of sums
  const MAX_BIN: nat := 24            // SPA_MAXBLOCKSHIFT

  /**
    The accumulated fields of one cell. `buckets` is the physical-size histogram: it holds
    bucket i as often as the histogram counts there.
    */
  datatype Cell = Cell(
    asize: nat, lsize: nat, psize: nat, count: nat,
    gangs: nat, sameVdev: nat, sameMs: nat, buckets: multiset<nat>)
  {
    function Plus(c: Cell): Cell {
      Cell(asize + c.asize, lsize + c.lsize, psize + c.psize, count + c.count,
           gangs + c.gangs, sameVdev + c.sameVdev, sameMs + c.sameMs, buckets + c.buckets)
    }
  }

  const NOTHING := Cell(0, 0, 0, 0, 0, 0, 0, multiset{})

  // ----- what one block adds

  datatype Copy = Copy(vdev: nat, offset: nat, gang: bool)

  /** A block with its valid copies, at most three; embedded data has none. */
  datatype Block = Block(asize: nat, lsize: nat, psize: nat, copies: seq<Copy>)

  function Gangs(copies: seq<Copy>): nat {
    if copies == [] then 0 else Gangs(copies[1..]) + if copies[0].gang then 1 else 0
  }

  /** same_metaslab, for copies on one vdev; msSize gives each vdev's metaslab size. */
  predicate SameMetaslab(msSize: map<nat, nat>, a: Copy, b: Copy) {
    && a.vdev == b.vdev && a.vdev in msSize && msSize[a.vdev] > 0
    && a.offset / msSize[a.vdev] == b.offset / msSize[a.vdev]
  }

  /** That is, they lie in one metaslab of their vdev. */
  lemma SameMetaslabMeans(msSize: map<nat, nat>, a: Copy, b: Copy)
    ensures SameMetaslab(msSize, a, b) <==>
            && a.vdev == b.vdev && a.vdev in msSize
            && exists m: nat :: a.offset in MsSpan(m, msSize[a.vdev]) && b.offset in MsSpan(m, msSize[a.vdev])
  {
    if a.vdev == b.vdev && a.vdev in msSize {
      var size := msSize[a.vdev];
      forall m: nat
        ensures a.offset in MsSpan(m, size) <==> size > 0 && a.offset / size == m
        ensures b.offset in MsSpan(m, size) <==> size > 0 && b.offset / size == m
      {
        InSpanIff(a.offset, size, m);
        InSpanIff(b.offset, size, m);
      }
      if SameMetaslab(msSize, a, b) {
        var m := a.offset / size;
        assert a.offset in MsSpan(m, size) && b.offset in MsSpan(m, size);
      }
    }
  }

  lemma InSpanIff(x: nat, size: nat, m: nat)
    ensures x in MsSpan(m, size) <==> size > 0 && x / size == m
  {
    if size > 0 {
      assert x == x / size * size + x % size;
      if x in MsSpan(m, size) { QuotientUnique(x / size, m, size, x % size, x - m * size); }
    }
  }

  /** The switch on the number of copies: whether two share a vdev, and a metaslab. */
  function Ditto(msSize: map<nat, nat>, copies: seq<Copy>): (nat, nat) {
    if |copies| == 2 then
      if copies[0].vdev == copies[1].vdev then
        (1, if SameMetaslab(msSize, copies[0], copies[1]) then 1 else 0)
      else (0, 0)
    else if |copies| == 3 then
      var equal := (if copies[0].vdev == copies[1].vdev then 1 else 0)
                   + (if copies[0].vdev == copies[2].vdev then 1 else 0)
                   + (if copies[1].vdev == copies[2].vdev then 1 else 0);
      if equal != 0 then
        (1, if copies[0].vdev == copies[1].vdev && SameMetaslab(msSize, copies[0], copies[1]) then 1
            else if copies[0].vdev == copies[2].vdev && SameMetaslab(msSize, copies[0], copies[2]) then 1
            else if copies[1].vdev == copies[2].vdev && SameMetaslab(msSize, copies[1], copies[2]) then 1
            else 0)
      else (0, 0)
    else (0, 0)
  }

  /** Both counters say what their names do, once for each block. */
  lemma DittoMeans(msSize: map<nat, nat>, copies: seq<Copy>)
    requires |copies| <= 3
    ensures Ditto(msSize, copies).0 ==
            if exists i, j :: 0 <= i < j < |copies| && copies[i].vdev == copies[j].vdev then 1 else 0
    ensures Ditto(msSize, copies).1 ==
            if exists i, j :: 0 <= i < j < |copies| && SameMetaslab(msSize, copies[i], copies[j]) then 1 else 0
  {
  }

  const MIN_BLOCK: nat := 512         // SPA_MINBLOCKSIZE
  const LAST_BUCKET: nat := 257       // SPA_OLD_MAXBLOCKSIZE / SPA_MINBLOCKSIZE + 1

  /** Where a physical size is counted. */
  function Bucket(psize: nat): nat {
    var idx := psize / MIN_BLOCK;
    if idx < LAST_BUCKET then idx else LAST_BUCKET
  }

  /** Every bucket but the last holds the sizes of one sector count; the last holds all larger ones. */
  lemma BucketHolds(psize: nat, b: nat)
    ensures Bucket(psize) <= LAST_BUCKET
    ensures b < LAST_BUCKET ==> (Bucket(psize) == b <==> b * MIN_BLOCK <= psize < b * MIN_BLOCK + MIN_BLOCK)
    ensures Bucket(psize) == LAST_BUCKET <==> LAST_BUCKET * MIN_BLOCK <= psize
  {
  }

  function CellFor(msSize: map<nat, nat>, b: Block): Cell {
    var d := Ditto(msSize, b.copies);
    Cell(b.asize, b.lsize, b.psize, 1, Gangs(b.copies), d.0, d.1, multiset{Bucket(b.psize)})
  }

  /** A cell's histogram counts as many blocks as the cell, and no cell counts more shared metaslabs than vdevs. */
  ghost predicate Sound(c: Cell) {
    && |c.buckets| == c.count
    && (forall b :: b in c.buckets ==> b <= LAST_BUCKET)
    && c.sameMs <= c.sameVdev <= c.count
  }

  lemma SoundSum(a: Cell, b: Cell)
    requires Sound(a) && Sound(b)
    ensures Sound(a.Plus(b))
  {
  }

  lemma SoundCell(msSize: map<nat, nat>, b: Block)
    ensures Sound(CellFor(msSize, b))
  {
  }

  // ----- totals by level and type

  type Table = map<(nat, nat), Cell>

  function At(t: Table, l: nat, ty: nat): Cell {
    if (l, ty) in t then t[(l, ty)] else NOTHING
  }

  /** The sum over the first n types of a level, and over the first n levels of a type. */
  ghost function RowSum(t: Table, l: nat, n: nat): Cell {
    if n == 0 then NOTHING else RowSum(t, l, n - 1).Plus(At(t, l, n - 1))
  }

  ghost function ColumnSum(t: Table, ty: nat, n: nat): Cell {
    if n == 0 then NOTHING else ColumnSum(t, ty, n - 1).Plus(At(t, n - 1, ty))
  }

  /** Every total is the sum of what it totals; `types` is ZDB_OT_TOTAL. */
  ghost predicate Marginals(t: Table, types: nat) {
    && (forall l :: 0 <= l <= ZB_TOTAL ==> At(t, l, types) == RowSum(t, l, types))
    && (forall ty :: 0 <= ty <= types ==> At(t, ZB_TOTAL, ty) == ColumnSum(t, ty, ZB_TOTAL))
  }

  function Added(t: Table, l: nat, ty: nat, c: Cell): Table {
    t[(l, ty) := At(t, l, ty).Plus(c)]
  }

  const TURNS: nat := 4

  /** The cell that turn i of the accumulating loop adds to. */
  function CellOf(level: nat, ty: nat, types: nat, i: nat): (nat, nat) {
    (if i < 2 then level else ZB_TOTAL, if i % 2 == 1 then ty else types)
  }

  /** The table after n of the four turns. */
  function Turned(t: Table, level: nat, ty: nat, types: nat, c: Cell, n: nat): Table {
    if n == 0 then t
    else
      var k := CellOf(level, ty, types, n - 1);
      Added(Turned(t, level, ty, types, c, n - 1), k.0, k.1, c)
  }

  /** The table after a block of level `level` and type `ty` has been counted. */
  function Counted(t: Table, level: nat, ty: nat, types: nat, c: Cell): Table {
    Turned(t, level, ty, types, c, TURNS)
  }

  class Stats {
    const types: nat
    const msSize: map<nat, nat>
    var table: Table

    ghost predicate Valid()
      reads this
    {
      Marginals(table, types) && AllSound(table)
    }

    constructor (types: nat, msSize: map<nat, nat>)
      ensures Valid() && this.types == types && this.msSize == msSize && table == map[]
    {
      this.types := types;
      this.msSize := msSize;
      this.table := map[];
      new;
      forall l ensures RowSum(table, l, types) == NOTHING { EmptyRow(table, l, types); }
      forall ty ensures ColumnSum(table, ty, ZB_TOTAL) == NOTHING { EmptyColumn(table, ty, ZB_TOTAL); }
    }

    /** The accumulating loop of zdb_count_block. */
    method AddTurns(level: nat, ty: nat, c: Cell)
      modifies this`table
      ensures table == Counted(old(table), level, ty, types, c)
    {
      for i := 0 to TURNS
        invariant table == Turned(old(table), level, ty, types, c, i)
      {
        var l := if i < 2 then level else ZB_TOTAL;
        var t := if i % 2 == 1 then ty else types;
        table := Added(table, l, t, c);
      }
    }

    method CountStats(level: nat, ty: nat, b: Block)
      requires Valid() && level < ZB_TOTAL && ty < types
      modifies this`table
      ensures Valid()
      ensures table == Counted(old(table), level, ty, types, CellFor(msSize, b))
    {
      CountedKeeps(table, level, ty, types, CellFor(msSize, b));
      SoundCell(msSize, b);
      CountedSound(table, level, ty, types, CellFor(msSize, b));
      AddTurns(level, ty, CellFor(msSize, b));
    }
  }

  ghost predicate AllSound(t: Table) {
    forall l: nat, ty: nat :: Sound(At(t, l, ty))
  }

  lemma CountedSound(t: Table, level: nat, ty: nat, types: nat, c: Cell)
    requires level < ZB_TOTAL && ty < types && Sound(c) && AllSound(t)
    ensures AllSound(Counted(t, level, ty, types, c))
  {
    forall l: nat, k: nat
      ensures Sound(At(Counted(t, level, ty, types, c), l, k))
    {
      CountedAt(t, level, ty, types, c, l, k);
      SoundSum(At(t, l, k), c);
    }
  }

  /** A sequence of blocks, each with its level and type. */
  datatype Visit = Visit(level: nat, ty: nat, cell: Cell)

  function CountedAll(t: Table, types: nat, vs: seq<Visit>): Table {
    if vs == [] then t
    else
      var v := vs[|vs| - 1];
      Counted(CountedAll(t, types, vs[..|vs| - 1]), v.level, v.ty, types, v.cell)
  }

  function SumCells(vs: seq<Visit>): Cell {
    if vs == [] then NOTHING else SumCells(vs[..|vs| - 1]).Plus(vs[|vs| - 1].cell)
  }

  lemma TotalStep(t: Table, types: nat, v: Visit)
    requires v.level < ZB_TOTAL && v.ty < types
    ensures At(Counted(t, v.level, v.ty, types, v.cell), ZB_TOTAL, types) == At(t, ZB_TOTAL, types).Plus(v.cell)
  {
    CountedAt(t, v.level, v.ty, types, v.cell, ZB_TOTAL, types);
  }

  /** The cell of totals is the sum over all blocks, whatever their levels and types. */
  lemma {:induction false} TotalCell(t: Table, types: nat, vs: seq<Visit>)
    requires forall i :: 0 <= i < |vs| ==> vs[i].level < ZB_TOTAL && vs[i].ty < types
    ensures At(CountedAll(t, types, vs), ZB_TOTAL, types) == At(t, ZB_TOTAL, types).Plus(SumCells(vs))
  {
    if vs == [] {
      PlusNothing(At(t, ZB_TOTAL, types));
    } else {
      var front, v := vs[..|vs| - 1], vs[|vs| - 1];
      TotalCell(t, types, front);
      TotalStep(CountedAll(t, types, front), types, v);
      PlusLast(At(t, ZB_TOTAL, types), SumCells(front), v.cell);
    }
  }

  // ----- the totals, over the blocks themselves

  /** A block with its level and type. */
  datatype Placed = Placed(level: nat, ty: nat, block: Block)

  function Visits(msSize: map<nat, nat>, bs: seq<Placed>): seq<Visit> {
    seq(|bs|, i requires 0 <= i < |bs| => Visit(bs[i].level, bs[i].ty, CellFor(msSize, bs[i].block)))
  }

  /** A number of every block, added up. */
  ghost function Total(bs: seq<Placed>, f: Block -> nat): nat {
    if bs == [] then 0 else Total(bs[..|bs| - 1], f) + f(bs[|bs| - 1].block)
  }

  function GangFlags(copies: seq<Copy>): seq<bool> {
    seq(|copies|, i requires 0 <= i < |copies| => copies[i].gang)
  }

  /** How many of the copies are gang blocks. */
  ghost function GangCopies(b: Block): nat {
    multiset(GangFlags(b.copies))[true]
  }

  lemma {:induction false} GangsAre(copies: seq<Copy>)
    ensures Gangs(copies) == multiset(GangFlags(copies))[true]
  {
    if copies != [] {
      GangsAre(copies[1..]);
      assert GangFlags(copies) == [copies[0].gang] + GangFlags(copies[1..]);
    }
  }

  ghost predicate SharesVdev(b: Block) {
    exists i, j :: 0 <= i < j < |b.copies| && b.copies[i].vdev == b.copies[j].vdev
  }

  ghost predicate SharesMetaslab(msSize: map<nat, nat>, b: Block) {
    exists i, j :: 0 <= i < j < |b.copies| && SameMetaslab(msSize, b.copies[i], b.copies[j])
  }

  /** What the cell of totals says of the blocks that were counted. */
  ghost predicate Tells(msSize: map<nat, nat>, c: Cell, bs: seq<Placed>) {
    && c.asize == Total(bs, (b: Block) => b.asize) && c.lsize == Total(bs, (b: Block) => b.lsize) && c.psize == Total(bs, (b: Block) => b.psize)
    && c.count == |bs|
    && c.gangs == Total(bs, (b: Block) => GangCopies(b))
    && c.sameVdev == Total(bs, (b: Block) => if SharesVdev(b) then 1 else 0)
    && c.sameMs == Total(bs, (b: Block) => if SharesMetaslab(msSize, b) then 1 else 0)
    && forall k: nat :: c.buckets[k] == Total(bs, (b: Block) => if InBucket(k, b.psize) then 1 else 0)
  }

  predicate InBucket(k: nat, psize: nat) {
    if k < LAST_BUCKET then k * MIN_BLOCK <= psize < k * MIN_BLOCK + MIN_BLOCK
    else k == LAST_BUCKET && LAST_BUCKET * MIN_BLOCK <= psize
  }

  lemma CellTells(msSize: map<nat, nat>, b: Block)
    requires |b.copies| <= 3
    ensures var c := CellFor(msSize, b);
            && c.asize == b.asize && c.lsize == b.lsize && c.psize == b.psize && c.count == 1
            && c.gangs == GangCopies(b)
            && c.sameVdev == (if SharesVdev(b) then 1 else 0)
            && c.sameMs == (if SharesMetaslab(msSize, b) then 1 else 0)
            && forall k: nat :: c.buckets[k] == if InBucket(k, b.psize) then 1 else 0
  {
    GangsAre(b.copies);
    DittoMeans(msSize, b.copies);
    forall k: nat
      ensures Bucket(b.psize) == k <==> InBucket(k, b.psize)
    {
      BucketHolds(b.psize, k);
    }
  }

  lemma TellsNext(msSize: map<nat, nat>, c: Cell, bs: seq<Placed>, d: Cell)
    requires bs != [] && Tells(msSize, c, bs[..|bs| - 1])
    requires |bs[|bs| - 1].block.copies| <= 3 && d == CellFor(msSize, bs[|bs| - 1].block)
    ensures Tells(msSize, c.Plus(d), bs)
  {
    CellTells(msSize, bs[|bs| - 1].block);
  }

  lemma {:induction false} SumsTell(msSize: map<nat, nat>, bs: seq<Placed>)
    requires forall i :: 0 <= i < |bs| ==> |bs[i].block.copies| <= 3
    ensures Tells(msSize, SumCells(Visits(msSize, bs)), bs)
  {
    if bs != [] {
      var front := bs[..|bs| - 1];
      SumsTell(msSize, front);
      assert Visits(msSize, bs)[..|bs| - 1] == Visits(msSize, front);
      TellsNext(msSize, SumCells(Visits(msSize, front)), bs, CellFor(msSize, bs[|bs| - 1].block));
    }
  }

  /** The blocks that count for a cell: those of its level and type, or of all of them. */
  ghost function Of(bs: seq<Placed>, types: nat, l: nat, ty: nat): seq<Placed> {
    if bs == [] then []
    else
      var b := bs[|bs| - 1];
      Of(bs[..|bs| - 1], types, l, ty) +
      (if (l == b.level || l == ZB_TOTAL) && (ty == b.ty || ty == types) then [b] else [])
  }

  lemma {:induction false} CellIs(msSize: map<nat, nat>, types: nat, bs: seq<Placed>, l: nat, ty: nat)
    requires forall i :: 0 <= i < |bs| ==> bs[i].level < ZB_TOTAL && bs[i].ty < types
    ensures At(CountedAll(map[], types, Visits(msSize, bs)), l, ty) == SumCells(Visits(msSize, Of(bs, types, l, ty)))
  {
    if bs != [] {
      var front, b := bs[..|bs| - 1], bs[|bs| - 1];
      CellIs(msSize, types, front, l, ty);
      assert Visits(msSize, bs)[..|bs| - 1] == Visits(msSize, front);
      var t, c := CountedAll(map[], types, Visits(msSize, front)), CellFor(msSize, b.block);
      CountedAt(t, b.level, b.ty, types, c, l, ty);
      OneMoreVisit(msSize, Of(front, types, l, ty), b);
    }
  }

  lemma OneMoreVisit(msSize: map<nat, nat>, bs: seq<Placed>, b: Placed)
    ensures SumCells(Visits(msSize, bs + [b])) == SumCells(Visits(msSize, bs)).Plus(CellFor(msSize, b.block))
    ensures bs + [] == bs
  {
    VisitsLast(msSize, bs, b);
    SumLast(Visits(msSize, bs), Visit(b.level, b.ty, CellFor(msSize, b.block)));
  }

  lemma VisitsLast(msSize: map<nat, nat>, bs: seq<Placed>, b: Placed)
    ensures Visits(msSize, bs + [b]) == Visits(msSize, bs) + [Visit(b.level, b.ty, CellFor(msSize, b.block))]
  {
  }

  lemma SumLast(vs: seq<Visit>, v: Visit)
    ensures SumCells(vs + [v]) == SumCells(vs).Plus(v.cell)
  {
    assert (vs + [v])[..|vs|] == vs;
  }

  lemma {:induction false} OfKeeps(bs: seq<Placed>, types: nat, l: nat, ty: nat)
    requires forall i :: 0 <= i < |bs| ==> |bs[i].block.copies| <= 3
    ensures forall i :: 0 <= i < |Of(bs, types, l, ty)| ==> |Of(bs, types, l, ty)[i].block.copies| <= 3
  {
    if bs != [] { OfKeeps(bs[..|bs| - 1], types, l, ty); }
  }

  /**
    Every field of every cell, over the blocks that count for it: the three sizes, the blocks,
    their gang copies, those that share a vdev or a metaslab, and the physical sizes by bucket.
    */
  lemma CellsTell(msSize: map<nat, nat>, types: nat, bs: seq<Placed>, l: nat, ty: nat)
    requires forall i :: 0 <= i < |bs| ==> bs[i].level < ZB_TOTAL && bs[i].ty < types && |bs[i].block.copies| <= 3
    ensures Tells(msSize, At(CountedAll(map[], types, Visits(msSize, bs)), l, ty), Of(bs, types, l, ty))
  {
    CellIs(msSize, types, bs, l, ty);
    OfKeeps(bs, types, l, ty);
    SumsTell(msSize, Of(bs, types, l, ty));
  }

  lemma PlusNothing(c: Cell)
    ensures c.Plus(NOTHING) == c
  {
    assert c.buckets + multiset{} == c.buckets;
  }

  lemma {:induction false} EmptyRow(t: Table, l: nat, n: nat)
    requires t == map[]
    ensures RowSum(t, l, n) == NOTHING
  {
    if n > 0 {
      EmptyRow(t, l, n - 1);
      assert At(t, l, n - 1) == NOTHING;
      PlusNothing(RowSum(t, l, n - 1));
    }
  }

  lemma {:induction false} EmptyColumn(t: Table, ty: nat, n: nat)
    requires t == map[]
    ensures ColumnSum(t, ty, n) == NOTHING
  {
    if n > 0 {
      EmptyColumn(t, ty, n - 1);
      assert At(t, n - 1, ty) == NOTHING;
      PlusNothing(ColumnSum(t, ty, n - 1));
    }
  }

  lemma PlusLast(a: Cell, b: Cell, c: Cell)
    ensures a.Plus(c).Plus(b) == a.Plus(b).Plus(c) == a.Plus(b.Plus(c))
  {
  }

  /** Sums change only by the cells that lie in them. */
  lemma {:induction false} RowAfter(t: Table, u: Table, l: nat, n: nat, ty: nat, c: Cell)
    requires forall k :: 0 <= k < n ==> At(u, l, k) == if k == ty then At(t, l, k).Plus(c) else At(t, l, k)
    ensures RowSum(u, l, n) == if ty < n then RowSum(t, l, n).Plus(c) else RowSum(t, l, n)
  {
    if n > 0 {
      RowAfter(t, u, l, n - 1, ty, c);
      PlusLast(RowSum(t, l, n - 1), At(t, l, n - 1), c);
    }
  }

  lemma {:induction false} ColumnAfter(t: Table, u: Table, ty: nat, n: nat, l: nat, c: Cell)
    requires forall k :: 0 <= k < n ==> At(u, k, ty) == if k == l then At(t, k, ty).Plus(c) else At(t, k, ty)
    ensures ColumnSum(u, ty, n) == if l < n then ColumnSum(t, ty, n).Plus(c) else ColumnSum(t, ty, n)
  {
    if n > 0 {
      ColumnAfter(t, u, ty, n - 1, l, c);
      PlusLast(ColumnSum(t, ty, n - 1), At(t, n - 1, ty), c);
    }
  }

  lemma CountedAt(t: Table, level: nat, ty: nat, types: nat, c: Cell, l: nat, k: nat)
    requires level < ZB_TOTAL && ty < types
    ensures At(Counted(t, level, ty, types, c), l, k) ==
            if (l == level || l == ZB_TOTAL) && (k == ty || k == types) then At(t, l, k).Plus(c) else At(t, l, k)
  {
    var t1 := Added(t, level, types, c);
    var t2 := Added(t1, level, ty, c);
    var t3 := Added(t2, ZB_TOTAL, types, c);
    TurnsAre(t, level, ty, types, c);
    AddedAt(t, level, types, c, l, k);
    AddedAt(t1, level, ty, c, l, k);
    AddedAt(t2, ZB_TOTAL, types, c, l, k);
    AddedAt(t3, ZB_TOTAL, ty, c, l, k);
  }

  lemma AddedAt(t: Table, l: nat, ty: nat, c: Cell, l': nat, ty': nat)
    ensures At(Added(t, l, ty, c), l', ty') == if l == l' && ty == ty' then At(t, l, ty).Plus(c) else At(t, l', ty')
  {
  }

  lemma TurnsAre(t: Table, level: nat, ty: nat, types: nat, c: Cell)
    ensures Counted(t, level, ty, types, c) ==
            Added(Added(Added(Added(t, level, types, c), level, ty, c), ZB_TOTAL, types, c), ZB_TOTAL, ty, c)
  {
    assert Turned(t, level, ty, types, c, 1) == Added(t, level, types, c);
    assert Turned(t, level, ty, types, c, 2) == Added(Turned(t, level, ty, types, c, 1), level, ty, c);
    assert Turned(t, level, ty, types, c, 3) == Added(Turned(t, level, ty, types, c, 2), ZB_TOTAL, types, c);
    assert Turned(t, level, ty, types, c, 4) == Added(Turned(t, level, ty, types, c, 3), ZB_TOTAL, ty, c);
  }

  /** Counting a block keeps every marginal. */
  lemma CountedKeeps(t: Table, level: nat, ty: nat, types: nat, c: Cell)
    requires Marginals(t, types) && level < ZB_TOTAL && ty < types
    ensures Marginals(Counted(t, level, ty, types, c), types)
  {
    var u := Counted(t, level, ty, types, c);
    forall l | 0 <= l <= ZB_TOTAL
      ensures At(u, l, types) == RowSum(u, l, types)
    {
      forall k: nat | k <= types
        ensures At(u, l, k) == if (l == level || l == ZB_TOTAL) && (k == ty || k == types)
                               then At(t, l, k).Plus(c) else At(t, l, k)
      {
        CountedAt(t, level, ty, types, c, l, k);
      }
      RowAfter(t, u, l, types, if l == level || l == ZB_TOTAL then ty else types, c);
    }
    forall k | 0 <= k <= types
      ensures At(u, ZB_TOTAL, k) == ColumnSum(u, k, ZB_TOTAL)
    {
      forall l: nat | l <= ZB_TOTAL
        ensures At(u, l, k) == if (l == level || l == ZB_TOTAL) && (k == ty || k == types)
                               then At(t, l, k).Plus(c) else At(t, l, k)
      {
        CountedAt(t, level, ty, types, c, l, k);
      }
      ColumnAfter(t, u, k, ZB_TOTAL, if k == ty || k == types then level else ZB_TOTAL, c);
    }
  }

  // ----- size bins

  /** highbit64: the position of the highest bit set, counted from 1; 0 for 0. */
  function HighBit(x: nat): nat {
    if x == 0 then 0 else 1 + HighBit(x / 2)
  }

  /** A 64-bit `size - 1`. */
  function Minus1(size: nat): nat {
    if size == 0 then 0x1_0000_0000_0000_0000 - 1 else size - 1
  }

  /** BIN(size) */
  function Bin(size: nat): nat {
    HighBit(Minus1(size))
  }

  lemma {:induction false} HighBitAtLeast(x: nat, n: nat)
    requires Pow2(n) <= x
    ensures n < HighBit(x)
    decreases n
  {
    if n > 0 { HighBitAtLeast(x / 2, n - 1); }
  }

  lemma {:induction false} HighBitAtMost(x: nat, n: nat)
    requires x < Pow2(n)
    ensures HighBit(x) <= n
    decreases n
  {
    if n > 0 { HighBitAtMost(x / 2, n - 1); }
  }

  /** Bin b holds exactly the sizes above half of 2^b, up to 2^b. */
  lemma BinHolds(size: nat, b: nat)
    requires size > 0
    ensures Bin(size) == b <==> (b == 0 && size == 1) || (b > 0 && Pow2(b - 1) < size <= Pow2(b))
  {
    var x := Minus1(size);
    if x < Pow2(b) { HighBitAtMost(x, b); } else { HighBitAtLeast(x, b); }
    if b > 0 {
      if x < Pow2(b - 1) { HighBitAtMost(x, b - 1); } else { HighBitAtLeast(x, b - 1); }
    }
  }

  /** The bin is one of the histogram's exactly for sizes from 1 byte to 16 MB; a larger allocated size falls outside it. */
  lemma BinInRangeIff(size: nat)
    ensures Bin(size) <= MAX_BIN <==> 1 <= size <= Pow2(MAX_BIN)
  {
    var x := Minus1(size);
    Pow2Of24();
    if x < Pow2(MAX_BIN) { HighBitAtMost(x, MAX_BIN); } else { HighBitAtLeast(x, MAX_BIN); }
  }

  /** A 16 MB block with three copies has an allocated size that no bin holds. */
  lemma ThreeCopies()
    ensures Bin(3 * Pow2(MAX_BIN)) > MAX_BIN
  {
    BinInRangeIff(3 * Pow2(MAX_BIN));
  }

  lemma Pow2Of24()
    ensures Pow2(MAX_BIN) == 0x100_0000
  {
    Pow2Plus8(0);
    Pow2Plus8(8);
    Pow2Plus8(16);
  }

  lemma Pow2Plus8(n: nat)
    ensures Pow2(n + 8) == 256 * Pow2(n)
  {
    assert Pow2(n + 4) == 16 * Pow2(n) by { assert Pow2(n + 2) == 4 * Pow2(n); }
    assert Pow2(n + 8) == 16 * Pow2(n + 4) by { assert Pow2(n + 6) == 4 * Pow2(n + 4); }
  }

  // ----- size histograms

  /** For each bin how many blocks and how many bytes; and all bytes. */
  datatype Histogram = Histogram(count: seq<nat>, len: seq<nat>, total: nat)

  /** Which of a block's sizes picks the bin; `ByOwn` is BIN_AUTO, each histogram by its own. */
  datatype BinMode = ByPsize | ByLsize | ByAsize | ByOwn

  ghost function Sum(s: seq<nat>): nat {
    if s == [] then 0 else Sum(s[..|s| - 1]) + s[|s| - 1]
  }

  /** The bins add up to the running total. */
  ghost predicate Balanced(h: Histogram) {
    |h.count| == |h.len| == MAX_BIN + 1 && h.total == Sum(h.len)
  }

  /** Every bin holds as many bytes as blocks of its sizes can have. */
  ghost predicate Fitting(h: Histogram) {
    && |h.count| == |h.len|
    && forall b :: 0 <= b < |h.len| ==> BinFits(b, h.count[b], h.len[b])
  }

  ghost predicate BinFits(b: nat, count: nat, len: nat) {
    len <= count * Pow2(b) && len >= if b == 0 then count else count * (Pow2(b - 1) + 1)
  }

  function Recorded(h: Histogram, bin: nat, size: nat): Histogram
    requires bin < |h.count| && bin < |h.len|
  {
    Histogram(h.count[bin := h.count[bin] + 1], h.len[bin := h.len[bin] + size], h.total + size)
  }

  lemma {:induction false} SumUpdate(s: seq<nat>, i: nat, d: nat)
    requires i < |s|
    ensures Sum(s[i := s[i] + d]) == Sum(s) + d
  {
    var n := |s| - 1;
    if i < n {
      SumUpdate(s[..n], i, d);
      assert s[i := s[i] + d][..n] == s[..n][i := s[..n][i] + d];
    } else {
      assert s[i := s[i] + d][..n] == s[..n];
    }
  }

  lemma {:induction false} SumZero(n: nat)
    ensures Sum(seq(n, _ => 0)) == 0
  {
    if n > 0 {
      SumZero(n - 1);
      assert seq(n, _ => 0)[..n - 1] == seq(n - 1, _ => 0);
    }
  }

  /** One block more, whatever the bin; and a bin picked by the size itself still holds its sizes. */
  lemma RecordedKeeps(h: Histogram, bin: nat, size: nat)
    requires Balanced(h) && bin <= MAX_BIN
    ensures Balanced(Recorded(h, bin, size))
    ensures Sum(Recorded(h, bin, size).count) == Sum(h.count) + 1
    ensures Fitting(h) && size > 0 && bin == Bin(size) ==> Fitting(Recorded(h, bin, size))
  {
    RecordedBalances(h, bin, size);
    if Fitting(h) && size > 0 && bin == Bin(size) {
      RecordedFits(h, bin, size);
    }
  }

  lemma RecordedBalances(h: Histogram, bin: nat, size: nat)
    requires Balanced(h) && bin <= MAX_BIN
    ensures Balanced(Recorded(h, bin, size))
    ensures Sum(Recorded(h, bin, size).count) == Sum(h.count) + 1
  {
    SumUpdate(h.len, bin, size);
    SumUpdate(h.count, bin, 1);
  }

  lemma RecordedFits(h: Histogram, bin: nat, size: nat)
    requires Fitting(h) && bin < |h.len| && size > 0 && bin == Bin(size)
    ensures Fitting(Recorded(h, bin, size))
  {
    BinHolds(size, bin);
    OneMore(bin, h.count[bin], h.len[bin], size);
  }

  lemma OneMore(b: nat, count: nat, len: nat, size: nat)
    requires BinFits(b, count, len)
    requires (b == 0 && size == 1) || (b > 0 && Pow2(b - 1) < size <= Pow2(b))
    ensures BinFits(b, count + 1, len + size)
  {
  }

  /** Every bin that the block is counted in exists. */
  predicate BinsExist(mode: BinMode, psize: nat, lsize: nat, asize: nat) {
    && BinFor(mode, psize, psize, lsize, asize) <= MAX_BIN
    && BinFor(mode, lsize, psize, lsize, asize) <= MAX_BIN
    && BinFor(mode, asize, psize, lsize, asize) <= MAX_BIN
  }

  /** The bins add up; and, where the size itself picks the bin, they hold what they can hold. */
  ghost predicate Kept(h: Histogram, own: bool) {
    Balanced(h) && (own ==> Fitting(h))
  }

  /** One histogram's part of counting a block. */
  lemma BinKeeps(h: Histogram, own: bool, bin: nat, size: nat)
    requires Kept(h, own) && bin <= MAX_BIN && (own ==> bin == Bin(size))
    ensures Kept(Recorded(h, bin, size), own)
    ensures Sum(Recorded(h, bin, size).count) == Sum(h.count) + 1
  {
    if own { BinInRangeIff(size); }
    RecordedKeeps(h, bin, size);
  }

  /** The three histograms of zdb_cb_t. */
  class Histograms {
    const mode: BinMode
    var psizes: Histogram
    var lsizes: Histogram
    var asizes: Histogram

    ghost predicate Valid()
      reads this
    {
      && Kept(psizes, mode == ByOwn || mode == ByPsize)
      && Kept(lsizes, mode == ByOwn || mode == ByLsize)
      && Kept(asizes, mode == ByOwn || mode == ByAsize)
      && Sum(psizes.count) == Sum(lsizes.count) == Sum(asizes.count)
    }

    constructor (mode: BinMode)
      ensures Valid() && this.mode == mode && asizes.total == psizes.total == lsizes.total == 0
    {
      var zeros: seq<nat> := seq(MAX_BIN + 1, _ => 0);
      SumZero(MAX_BIN + 1);
      this.mode := mode;
      psizes, lsizes, asizes := Histogram(zeros, zeros, 0), Histogram(zeros, zeros, 0), Histogram(zeros, zeros, 0);
    }

    /** The binning part of zdb_count_block; `ok` is false where it would write past an array. */
    method CountBins(psize: nat, lsize: nat, asize: nat) returns (ok: bool)
      requires Valid()
      modifies this
      ensures ok <==> BinsExist(mode, psize, lsize, asize)
      ensures ok ==> Valid()
      ensures ok ==> psizes == Recorded(old(psizes), BinFor(mode, psize, psize, lsize, asize), psize)
      ensures ok ==> lsizes == Recorded(old(lsizes), BinFor(mode, lsize, psize, lsize, asize), lsize)
      ensures ok ==> asizes == Recorded(old(asizes), BinFor(mode, asize, psize, lsize, asize), asize)
    {
      var p, l, a;
      ok, p, l, a := BinSizes(mode, psizes, lsizes, asizes, psize, lsize, asize);
      psizes, lsizes, asizes := p, l, a;
    }
  }

  /** The switch on the mode, then the three histograms in turn. */
  method BinSizes(mode: BinMode, p: Histogram, l: Histogram, a: Histogram, psize: nat, lsize: nat, asize: nat)
    returns (ok: bool, p': Histogram, l': Histogram, a': Histogram)
    requires Kept(p, mode == ByOwn || mode == ByPsize)
    requires Kept(l, mode == ByOwn || mode == ByLsize)
    requires Kept(a, mode == ByOwn || mode == ByAsize)
    ensures ok <==> BinsExist(mode, psize, lsize, asize)
    ensures ok ==> OneMoreIn(p, p', BinFor(mode, psize, psize, lsize, asize), psize, mode == ByOwn || mode == ByPsize)
    ensures ok ==> OneMoreIn(l, l', BinFor(mode, lsize, psize, lsize, asize), lsize, mode == ByOwn || mode == ByLsize)
    ensures ok ==> OneMoreIn(a, a', BinFor(mode, asize, psize, lsize, asize), asize, mode == ByOwn || mode == ByAsize)
  {
    p', l', a' := p, l, a;
    var bin := match mode
      case ByPsize => Bin(psize)
      case ByLsize => Bin(lsize)
      case ByAsize => Bin(asize)
      case ByOwn => Bin(psize);
    ok, p' := RecordBin(p, mode == ByOwn || mode == ByPsize, bin, psize);
    if !ok {
      return;
    }
    if mode == ByOwn { bin := Bin(lsize); }
    ok, l' := RecordBin(l, mode == ByOwn || mode == ByLsize, bin, lsize);
    if !ok {
      return;
    }
    if mode == ByOwn { bin := Bin(asize); }
    ok, a' := RecordBin(a, mode == ByOwn || mode == ByAsize, bin, asize);
  }

  /** `out` is h with one more block in `bin`. */
  ghost predicate OneMoreIn(h: Histogram, out: Histogram, bin: nat, size: nat, own: bool) {
    && bin < |h.count| && bin < |h.len| && out == Recorded(h, bin, size)
    && Kept(out, own) && Sum(out.count) == Sum(h.count) + 1
  }

  /** Count a size in a bin, if there is such a bin. */
  method RecordBin(h: Histogram, ghost own: bool, bin: nat, size: nat) returns (ok: bool, out: Histogram)
    requires Kept(h, own) && (own ==> bin == Bin(size))
    ensures ok <==> bin <= MAX_BIN
    ensures ok ==> OneMoreIn(h, out, bin, size, own)
  {
    if bin > MAX_BIN {
      return false, h;
    }
    BinKeeps(h, own, bin, size);
    return true, Recorded(h, bin, size);
  }

  /** The bin of a block in the histogram of `own`. */
  function BinFor(mode: BinMode, own: nat, psize: nat, lsize: nat, asize: nat): nat {
    match mode
    case ByPsize => Bin(psize)
    case ByLsize => Bin(lsize)
    case ByAsize => Bin(asize)
    case ByOwn => Bin(own)
  }

  /** The size that picks the bin: the one the mode names, or each histogram's own. */
  lemma BinOfMode(mode: BinMode, own: nat, psize: nat, lsize: nat, asize: nat, b: nat)
    requires psize > 0 && lsize > 0 && asize > 0 && own > 0
    ensures var size := if mode == ByPsize then psize else if mode == ByLsize then lsize
                        else if mode == ByAsize then asize else own;
            BinFor(mode, own, psize, lsize, asize) == b <==>
            (b == 0 && size == 1) || (b > 0 && Pow2(b - 1) < size <= Pow2(b))
  {
    BinHolds(psize, b);
    BinHolds(lsize, b);
    BinHolds(asize, b);
    BinHolds(own, b);
  }
}
