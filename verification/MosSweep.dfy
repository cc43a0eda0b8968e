/**
  `zhack mos scan`, `reclaim` and `leak`: mark every space map and clone map that something
  refers to, report the objects of those two types that nothing refers to, free the empty
  ones among them.
  */
module MosSweep {
  import opened Ranges

  type ObjId = nat

  datatype ObjType = DslClones | SpaceMapType | OtherType

  /** An object as dmu_object_info and its bonus buffer show it. Failed reads are None or false. */
  datatype Obj = Obj(
    infoOk: bool,                     // dmu_object_info succeeds
    objType: ObjType,
    isDslDir: bool,                   // the bonus type is DMU_OT_DSL_DIR
    fullBonus: bool,                  // the bonus is a whole space_map_phys_t
    ddClones: Option<ObjId>,          // dd_clones, if the bonus can be held and is large enough
    entries: Option<nat>,             // zap_count
    phys: Option<(nat, nat)>)         // smp_alloc and smp_length, if the bonus can be held

  type Mos = map<ObjId, Obj>

  /** A space map in use: its object, and whether its dbuf is a whole space_map_phys_t. */
  datatype OpenMap = OpenMap(id: ObjId, full: bool)

  datatype Vdev = Vdev(
    leaf: bool, dtl: Option<OpenMap>,
    top: bool, metaslabs: seq<Option<OpenMap>>,
    obsolete: ObjId,                  // 0 if there is none
    checkpoint: Option<ObjId>,        // from the top-level ZAP
    children: seq<Vdev>)

  datatype Spa = Spa(root: Vdev, prevObsolete: ObjId, logs: seq<ObjId>)

  // ----- what is referenced

  /** The four collectors that walk the vdev tree. */
  datatype Collector = Dtl | Metaslabs | Obsolete | Checkpoint

  /** An object whose bonus is a whole space_map_phys_t. */
  predicate FullMap(mos: Mos, id: ObjId) {
    id in mos && mos[id].infoOk && mos[id].fullBonus
  }

  /** What one vdev refers to. */
  function Own(mos: Mos, which: Collector, vd: Vdev): set<ObjId> {
    match which
    case Dtl => if vd.leaf && vd.dtl.Some? && vd.dtl.value.full then {vd.dtl.value.id} else {}
    case Metaslabs => if vd.top then MapIds(vd.metaslabs) else {}
    case Obsolete => if vd.top && FullMap(mos, vd.obsolete) then {vd.obsolete} else {}
    case Checkpoint => if vd.top && vd.checkpoint.Some? then {vd.checkpoint.value} else {}
  }

  function MapIds(ms: seq<Option<OpenMap>>): set<ObjId> {
    if ms == [] then {}
    else MapIds(ms[..|ms| - 1]) +
         (if ms[|ms| - 1].Some? && ms[|ms| - 1].value.full then {ms[|ms| - 1].value.id} else {})
  }

  /** Every vdev of a tree. */
  ghost function Nodes(vd: Vdev): set<Vdev> {
    {vd} + NodesOf(vd.children)
  }

  ghost function NodesOf(vds: seq<Vdev>): set<Vdev> {
    if vds == [] then {} else NodesOf(vds[..|vds| - 1]) + Nodes(vds[|vds| - 1])
  }

  ghost function RefsOf(mos: Mos, which: Collector, vds: set<Vdev>): set<ObjId> {
    set v, o | v in vds && o in Own(mos, which, v) :: o
  }

  /** Every space map that something refers to. */
  ghost function SpaceMapRefs(mos: Mos, spa: Spa): set<ObjId> {
    (RefsOf(mos, Dtl, Nodes(spa.root)) + RefsOf(mos, Metaslabs, Nodes(spa.root))
     + RefsOf(mos, Obsolete, Nodes(spa.root)) + PrevRefs(mos, spa)
     + RefsOf(mos, Checkpoint, Nodes(spa.root)) + (set o | o in spa.logs)) - {0}
  }

  function PrevRefs(mos: Mos, spa: Spa): set<ObjId> {
    if FullMap(mos, spa.prevObsolete) then {spa.prevObsolete} else {}
  }

  /** Every clone map that some DSL directory refers to. */
  ghost function ClonesRefs(mos: Mos): set<ObjId> {
    (set o | o in mos && IsDirWithClones(mos[o]) :: mos[o].ddClones.value) - {0}
  }

  predicate IsDirWithClones(o: Obj) {
    o.infoOk && o.isDslDir && o.ddClones.Some?
  }

  // ----- marking

  /** zhack_mos_refd_once */
  function Mark(marks: set<ObjId>, id: ObjId): set<ObjId> {
    if id == 0 || id in marks then marks else marks + {id}
  }

  /** The tree of a pool: below a leaf there is nothing. */
  predicate LeavesAreBare(vd: Vdev) {
    (vd.leaf ==> vd.children == []) && forall c :: c in vd.children ==> LeavesAreBare(c)
  }

  /** What a collector marks for some vdevs; object 0 is never marked. */
  ghost function Marked(mos: Mos, which: Collector, vds: set<Vdev>): set<ObjId> {
    RefsOf(mos, which, vds) - {0}
  }

  lemma MarkedUnion(mos: Mos, which: Collector, a: set<Vdev>, b: set<Vdev>)
    ensures Marked(mos, which, a + b) == Marked(mos, which, a) + Marked(mos, which, b)
  {
  }

  lemma MarkedOne(mos: Mos, which: Collector, vd: Vdev)
    ensures Marked(mos, which, {vd}) == Own(mos, which, vd) - {0}
    ensures Marked(mos, which, {}) == {}
  {
  }

  /** What one vdev adds to the marks. */
  method MarkOwn(mos: Mos, which: Collector, vd: Vdev, marks: set<ObjId>) returns (out: set<ObjId>)
    ensures out == marks + (Own(mos, which, vd) - {0})
  {
    out := marks;
    match which {
      case Dtl =>
        if vd.leaf && vd.dtl.Some? && vd.dtl.value.full {
          out := Mark(out, vd.dtl.value.id);
        }
      case Metaslabs =>
        if vd.top {
          for m := 0 to |vd.metaslabs|
            invariant out == marks + (MapIds(vd.metaslabs[..m]) - {0})
          {
            assert vd.metaslabs[..m + 1][..m] == vd.metaslabs[..m];
            if vd.metaslabs[m].Some? && vd.metaslabs[m].value.full {
              out := Mark(out, vd.metaslabs[m].value.id);
            }
          }
          assert vd.metaslabs[..|vd.metaslabs|] == vd.metaslabs;
        }
      case Obsolete =>
        if vd.top && vd.obsolete != 0 && FullMap(mos, vd.obsolete) {
          out := Mark(out, vd.obsolete);
        }
      case Checkpoint =>
        if vd.top && vd.checkpoint.Some? {
          out := Mark(out, vd.checkpoint.value);
        }
    }
  }

  /** zhack_collect_*_refs over the vdev tree. */
  method CollectTree(mos: Mos, which: Collector, vd: Vdev, marks: set<ObjId>) returns (out: set<ObjId>)
    requires LeavesAreBare(vd)
    ensures out == marks + Marked(mos, which, Nodes(vd))
    decreases vd, 1
  {
    out := MarkOwn(mos, which, vd, marks);
    MarkedOne(mos, which, vd);
    if which.Dtl? && vd.leaf {
      assert Nodes(vd) == {vd};
      return;
    }
    out := CollectChildren(mos, which, vd, out);
    MarkedUnion(mos, which, {vd}, NodesOf(vd.children));
  }

  method CollectChildren(mos: Mos, which: Collector, vd: Vdev, marks: set<ObjId>) returns (out: set<ObjId>)
    requires LeavesAreBare(vd)
    ensures out == marks + Marked(mos, which, NodesOf(vd.children))
    decreases vd, 0
  {
    out := marks;
    MarkedOne(mos, which, vd);
    for c := 0 to |vd.children|
      invariant out == marks + Marked(mos, which, NodesOf(vd.children[..c]))
    {
      assert vd.children[..c + 1][..c] == vd.children[..c];
      MarkedUnion(mos, which, NodesOf(vd.children[..c]), Nodes(vd.children[c]));
      out := CollectTree(mos, which, vd.children[c], out);
    }
    assert vd.children[..|vd.children|] == vd.children;
  }

  lemma WithoutZero(a: set<ObjId>, b: set<ObjId>, c: set<ObjId>, d: set<ObjId>, e: set<ObjId>, f: set<ObjId>)
    ensures a + b + c + d + e + f - {0} == (a - {0}) + (b - {0}) + (c - {0}) + (d - {0}) + (e - {0}) + (f - {0})
  {
  }

  lemma RefsBySource(mos: Mos, spa: Spa)
    ensures SpaceMapRefs(mos, spa) ==
            Marked(mos, Dtl, Nodes(spa.root)) + Marked(mos, Metaslabs, Nodes(spa.root))
            + Marked(mos, Obsolete, Nodes(spa.root)) + (PrevRefs(mos, spa) - {0})
            + Marked(mos, Checkpoint, Nodes(spa.root)) + ((set o | o in spa.logs) - {0})
  {
    WithoutZero(RefsOf(mos, Dtl, Nodes(spa.root)), RefsOf(mos, Metaslabs, Nodes(spa.root)),
                RefsOf(mos, Obsolete, Nodes(spa.root)), PrevRefs(mos, spa),
                RefsOf(mos, Checkpoint, Nodes(spa.root)), set o | o in spa.logs);
  }

  /** zhack_collect_prev_obsolete_sm_refs */
  method CollectPrev(mos: Mos, spa: Spa, marks: set<ObjId>) returns (out: set<ObjId>)
    ensures out == marks + (PrevRefs(mos, spa) - {0})
  {
    out := marks;
    if spa.prevObsolete != 0 && FullMap(mos, spa.prevObsolete) {
      out := Mark(out, spa.prevObsolete);
    }
  }

  /** zhack_collect_spacemap_refs */
  method CollectSpaceMapRefs(mos: Mos, spa: Spa) returns (marks: set<ObjId>)
    requires LeavesAreBare(spa.root)
    ensures marks == SpaceMapRefs(mos, spa)
  {
    marks := CollectTree(mos, Dtl, spa.root, {});
    marks := CollectTree(mos, Metaslabs, spa.root, marks);
    marks := CollectTree(mos, Obsolete, spa.root, marks);
    marks := CollectPrev(mos, spa, marks);
    marks := CollectTree(mos, Checkpoint, spa.root, marks);
    marks := CollectLogs(spa.logs, marks);
    RefsBySource(mos, spa);
  }

  /** zhack_collect_log_sm_refs */
  method CollectLogs(logs: seq<ObjId>, marks: set<ObjId>) returns (out: set<ObjId>)
    ensures out == marks + ((set o | o in logs) - {0})
  {
    out := marks;
    for i := 0 to |logs|
      invariant out == marks + ((set o | o in logs[..i]) - {0})
    {
      assert logs[..i + 1] == logs[..i] + [logs[i]];
      out := Mark(out, logs[i]);
    }
    assert logs[..|logs|] == logs;
  }

  /** The objects of the MOS in the order dmu_object_next gives them. */
  ghost predicate Enumerates(ids: seq<ObjId>, mos: Mos) {
    && (forall i, j :: 0 <= i < j < |ids| ==> ids[i] < ids[j])
    && (forall o :: o in ids <==> o in mos)
  }

  lemma EnumeratesNext(ids: seq<ObjId>, i: nat)
    requires i < |ids|
    requires forall i, j :: 0 <= i < j < |ids| ==> ids[i] < ids[j]
    ensures forall o :: o in ids[..i + 1] <==> o in ids[..i] || o == ids[i]
    ensures ids[i] !in ids[..i]
  {
  }

  /** zhack_collect_dd_clones_refs */
  method CollectClonesRefs(mos: Mos, ids: seq<ObjId>) returns (marks: set<ObjId>)
    requires Enumerates(ids, mos)
    ensures marks == ClonesRefs(mos)
  {
    marks := {};
    for i := 0 to |ids|
      invariant marks == (set o | o in ids[..i] && IsDirWithClones(mos[o]) :: mos[o].ddClones.value) - {0}
    {
      EnumeratesNext(ids, i);
      var o := mos[ids[i]];
      if o.infoOk && o.isDslDir {
        if o.ddClones.Some? {
          marks := Mark(marks, o.ddClones.value);
        }
      }
    }
    assert ids[..|ids|] == ids;
  }

  // ----- the report

  datatype Report = Report(
    clones: seq<ObjId>, spacemaps: seq<ObjId>,
    unrefClones: nat, skippedClones: nat, unrefMaps: nat, skippedMaps: nat)

  ghost predicate UnrefClones(mos: Mos, o: ObjId) {
    o in mos && mos[o].infoOk && mos[o].objType == DslClones && o !in ClonesRefs(mos)
  }

  ghost predicate UnrefMap(mos: Mos, spa: Spa, o: ObjId) {
    o in mos && mos[o].infoOk && mos[o].objType == SpaceMapType && mos[o].fullBonus && o !in SpaceMapRefs(mos, spa)
  }

  /** A clone map without entries, or a space map that was never written to. */
  predicate Empty(o: Obj) {
    match o.objType
    case DslClones => o.entries == Some(0)
    case SpaceMapType => o.phys == Some((0, 0))
    case OtherType => false
  }

  ghost predicate Increasing(ids: seq<ObjId>) {
    forall i, j :: 0 <= i < j < |ids| ==> ids[i] < ids[j]
  }

  /** The unreferenced objects of each type among `ids`. */
  ghost function ClonesAmong(mos: Mos, ids: seq<ObjId>): set<ObjId> {
    set o | o in ids && UnrefClones(mos, o)
  }

  ghost function MapsAmong(mos: Mos, spa: Spa, ids: seq<ObjId>): set<ObjId> {
    set o | o in ids && UnrefMap(mos, spa, o)
  }

  /** Of the unreferenced objects `found`, the empty ones are listed and the others skipped. */
  ghost predicate Tally(list: seq<ObjId>, unref: nat, skipped: nat, found: set<ObjId>, mos: Mos) {
    && Increasing(list)
    && (forall o :: o in list <==> o in found && o in mos && Empty(mos[o]))
    && unref == |found|
    && unref == |list| + skipped
  }

  /** The report about the objects in `ids`. */
  ghost predicate Reports(r: Report, mos: Mos, spa: Spa, ids: seq<ObjId>) {
    && Tally(r.clones, r.unrefClones, r.skippedClones, ClonesAmong(mos, ids), mos)
    && Tally(r.spacemaps, r.unrefMaps, r.skippedMaps, MapsAmong(mos, spa, ids), mos)
  }

  lemma TallyAdd(list: seq<ObjId>, unref: nat, skipped: nat, found: set<ObjId>, mos: Mos, id: ObjId)
    requires Tally(list, unref, skipped, found, mos) && id in mos && forall o :: o in found ==> o < id
    ensures if Empty(mos[id]) then Tally(list + [id], unref + 1, skipped, found + {id}, mos)
            else Tally(list, unref + 1, skipped + 1, found + {id}, mos)
  {
    assert id !in found;
    forall k | 0 <= k < |list|
      ensures list[k] < id
    {
      assert list[k] in list;
    }
  }

  lemma AmongStep(mos: Mos, spa: Spa, ids: seq<ObjId>, i: nat)
    requires Enumerates(ids, mos) && i < |ids|
    ensures ClonesAmong(mos, ids[..i + 1]) ==
            if UnrefClones(mos, ids[i]) then ClonesAmong(mos, ids[..i]) + {ids[i]} else ClonesAmong(mos, ids[..i])
    ensures MapsAmong(mos, spa, ids[..i + 1]) ==
            if UnrefMap(mos, spa, ids[i]) then MapsAmong(mos, spa, ids[..i]) + {ids[i]} else MapsAmong(mos, spa, ids[..i])
    ensures forall o :: o in ClonesAmong(mos, ids[..i]) || o in MapsAmong(mos, spa, ids[..i]) ==> o < ids[i]
  {
  }

  /** One object of the scan. */
  function Reported(r: Report, clonesRefd: set<ObjId>, mapsRefd: set<ObjId>, id: ObjId, o: Obj): Report {
    if !o.infoOk then r
    else if o.objType == DslClones && id !in clonesRefd then
      if o.entries == Some(0) then r.(unrefClones := r.unrefClones + 1, clones := r.clones + [id])
      else r.(unrefClones := r.unrefClones + 1, skippedClones := r.skippedClones + 1)
    else if o.objType == SpaceMapType && o.fullBonus && id !in mapsRefd then
      if o.phys == Some((0, 0)) then r.(unrefMaps := r.unrefMaps + 1, spacemaps := r.spacemaps + [id])
      else r.(unrefMaps := r.unrefMaps + 1, skippedMaps := r.skippedMaps + 1)
    else r
  }

  lemma ReportedClones(r: Report, mos: Mos, cs: set<ObjId>, ms: set<ObjId>, id: ObjId, found: set<ObjId>)
    requires id in mos && Tally(r.clones, r.unrefClones, r.skippedClones, found, mos)
    requires forall o :: o in found ==> o < id
    ensures var t := Reported(r, cs, ms, id, mos[id]);
            var unref := mos[id].infoOk && mos[id].objType == DslClones && id !in cs;
            Tally(t.clones, t.unrefClones, t.skippedClones, if unref then found + {id} else found, mos)
  {
    TallyAdd(r.clones, r.unrefClones, r.skippedClones, found, mos, id);
  }

  lemma ReportedMaps(r: Report, mos: Mos, cs: set<ObjId>, ms: set<ObjId>, id: ObjId, found: set<ObjId>)
    requires id in mos && Tally(r.spacemaps, r.unrefMaps, r.skippedMaps, found, mos)
    requires forall o :: o in found ==> o < id
    ensures var t := Reported(r, cs, ms, id, mos[id]);
            var unref := mos[id].infoOk && mos[id].objType == SpaceMapType && mos[id].fullBonus && id !in ms;
            Tally(t.spacemaps, t.unrefMaps, t.skippedMaps, if unref then found + {id} else found, mos)
  {
    TallyAdd(r.spacemaps, r.unrefMaps, r.skippedMaps, found, mos, id);
  }

  lemma ReportedKeeps(r: Report, mos: Mos, spa: Spa, ids: seq<ObjId>, i: nat)
    requires Enumerates(ids, mos) && i < |ids| && Reports(r, mos, spa, ids[..i])
    ensures Reports(Reported(r, ClonesRefs(mos), SpaceMapRefs(mos, spa), ids[i], mos[ids[i]]), mos, spa, ids[..i + 1])
  {
    AmongStep(mos, spa, ids, i);
    var cs, ms := ClonesRefs(mos), SpaceMapRefs(mos, spa);
    ReportedClones(r, mos, cs, ms, ids[i], ClonesAmong(mos, ids[..i]));
    ReportedMaps(r, mos, cs, ms, ids[i], MapsAmong(mos, spa, ids[..i]));
  }

  /** zhack_collect_mos_leak_report */
  method Scan(mos: Mos, spa: Spa, ids: seq<ObjId>) returns (r: Report)
    requires LeavesAreBare(spa.root) && Enumerates(ids, mos)
    ensures Reports(r, mos, spa, ids)
  {
    var mapsRefd := CollectSpaceMapRefs(mos, spa);
    var clonesRefd := CollectClonesRefs(mos, ids);
    r := Report([], [], 0, 0, 0, 0);
    NothingReported(mos, spa, ids);
    for i := 0 to |ids|
      invariant Reports(r, mos, spa, ids[..i])
    {
      ReportedKeeps(r, mos, spa, ids, i);
      r := Reported(r, clonesRefd, mapsRefd, ids[i], mos[ids[i]]);
    }
    assert ids[..|ids|] == ids;
  }

  lemma NothingReported(mos: Mos, spa: Spa, ids: seq<ObjId>)
    ensures Reports(Report([], [], 0, 0, 0, 0), mos, spa, ids[..0])
  {
  }

  // ----- reclaiming

  /** The objects that a reclaim frees. */
  ghost predicate Reclaimable(mos: Mos, spa: Spa, o: ObjId) {
    (UnrefClones(mos, o) || UnrefMap(mos, spa, o)) && Empty(mos[o])
  }

  ghost function Swept(mos: Mos, spa: Spa): Mos {
    map o | o in mos && !Reclaimable(mos, spa, o) :: mos[o]
  }

  /** Free the objects of one list. */
  method FreeAll(mos: Mos, list: seq<ObjId>) returns (out: Mos)
    ensures out == map o | o in mos && o !in list :: mos[o]
  {
    out := mos;
    for i := 0 to |list|
      invariant out == map o | o in mos && o !in list[..i] :: mos[o]
    {
      assert list[..i + 1] == list[..i] + [list[i]];
      out := out - {list[i]};
    }
    assert list[..|list|] == list;
  }

  /** zhack_leak_reclaim_sync on a report that is still true. */
  method Reclaim(mos: Mos, ghost spa: Spa, r: Report, ghost ids: seq<ObjId>) returns (out: Mos)
    requires Enumerates(ids, mos) && Reports(r, mos, spa, ids)
    ensures out == Swept(mos, spa)
  {
    out := FreeAll(mos, r.clones);
    out := FreeAll(out, r.spacemaps);
    forall o | o in mos
      ensures Reclaimable(mos, spa, o) <==> o in r.clones || o in r.spacemaps
    {
      assert o in ids;
    }
  }

  /** Only empty objects of the two types are freed, none that the collector for its type marks; the rest stay. */
  lemma SweepIsSafe(mos: Mos, spa: Spa, o: ObjId)
    requires o in mos
    ensures o !in Swept(mos, spa) ==>
            && mos[o].infoOk && Empty(mos[o])
            && (mos[o].objType == DslClones ==> o !in ClonesRefs(mos))
            && (mos[o].objType == SpaceMapType ==> o !in SpaceMapRefs(mos, spa) && mos[o].fullBonus)
    ensures o in Swept(mos, spa) ==> Swept(mos, spa)[o] == mos[o]
  {
  }

  /** An empty object that is marked by the collector for the other type only. */
  ghost predicate Mismarked(mos: Mos, spa: Spa, o: ObjId) {
    && o in mos && mos[o].infoOk && Empty(mos[o])
    && match mos[o].objType
       case DslClones => o in SpaceMapRefs(mos, spa) && o !in ClonesRefs(mos)
       case SpaceMapType => mos[o].fullBonus && o in ClonesRefs(mos) && o !in SpaceMapRefs(mos, spa)
       case OtherType => false
  }

  /** No marked object at all is freed exactly when no empty object is marked for the wrong type only. */
  lemma NothingMarkedIsFreedIff(mos: Mos, spa: Spa)
    ensures (forall o :: o in mos && o !in Swept(mos, spa) ==> o !in ClonesRefs(mos) && o !in SpaceMapRefs(mos, spa)) <==>
            (forall o :: !Mismarked(mos, spa, o))
  {
    forall o | o in mos
      ensures Mismarked(mos, spa, o) <==>
              o !in Swept(mos, spa) && (o in ClonesRefs(mos) || o in SpaceMapRefs(mos, spa))
    {
    }
  }

  /** The marks sit in two trees: an empty clone map that a log list names is freed all the same. */
  lemma WrongMarkDoesNotProtect(root: Vdev)
    ensures var mos: Mos := map[7 := EMPTY_CLONES];
            var spa := Spa(root, 0, [7]);
            7 in SpaceMapRefs(mos, spa) && 7 !in Swept(mos, spa)
  {
    var mos: Mos := map[7 := EMPTY_CLONES];
    var spa := Spa(root, 0, [7]);
    assert 7 in spa.logs;
    assert !IsDirWithClones(mos[7]);
    assert 7 !in ClonesRefs(mos);
    assert Mismarked(mos, spa, 7);
  }

  // ----- the references, over the fields that make them

  /** Child by child, the path leads from vd to v. */
  ghost predicate Leads(vd: Vdev, path: seq<nat>, v: Vdev)
    decreases |path|
  {
    if path == [] then v == vd
    else path[0] < |vd.children| && Leads(vd.children[path[0]], path[1..], v)
  }

  ghost predicate Below(vd: Vdev, v: Vdev) {
    exists path: seq<nat> :: Leads(vd, path, v)
  }

  /** The vdevs of a tree are those that a path leads to. */
  lemma {:induction false} NodesAre(vd: Vdev, v: Vdev)
    ensures v in Nodes(vd) <==> Below(vd, v)
    decreases vd, |vd.children| + 1
  {
    ChildNodesAre(vd, |vd.children|, v);
    assert vd.children[..|vd.children|] == vd.children;
    if v in Nodes(vd) {
      if v == vd {
        assert Leads(vd, [], v);
      } else {
        var i :| 0 <= i < |vd.children| && v in Nodes(vd.children[i]);
        NodesAre(vd.children[i], v);
        var path: seq<nat> :| Leads(vd.children[i], path, v);
        assert ([i] + path)[1..] == path;
        assert Leads(vd, [i] + path, v);
      }
    }
    if Below(vd, v) {
      var path: seq<nat> :| Leads(vd, path, v);
      LeadsToNode(vd, path, v);
    }
  }

  lemma {:induction false} LeadsToNode(vd: Vdev, path: seq<nat>, v: Vdev)
    requires Leads(vd, path, v)
    ensures v in Nodes(vd)
    decreases |path|
  {
    if path != [] {
      LeadsToNode(vd.children[path[0]], path[1..], v);
      ChildNodesAre(vd, |vd.children|, v);
      assert vd.children[..|vd.children|] == vd.children;
    }
  }

  lemma {:induction false} ChildNodesAre(vd: Vdev, n: nat, v: Vdev)
    requires n <= |vd.children|
    ensures v in NodesOf(vd.children[..n]) <==> exists i :: 0 <= i < n && v in Nodes(vd.children[i])
    decreases vd, n
  {
    if n > 0 {
      ChildNodesAre(vd, n - 1, v);
      assert vd.children[..n][..n - 1] == vd.children[..n - 1];
    }
  }

  /** A space map object whose bonus is a whole space_map_phys_t. */
  ghost predicate WholeBonus(mos: Mos, o: ObjId) {
    o in mos && mos[o].infoOk && mos[o].fullBonus
  }

  /** The vdev tree, the removal or the logs name space map o. */
  ghost predicate MapNamed(mos: Mos, spa: Spa, o: ObjId) {
    || (exists vd :: vd in Nodes(spa.root) && vd.leaf && vd.dtl == Some(OpenMap(o, true)))
    || (exists vd :: vd in Nodes(spa.root) && vd.top && Some(OpenMap(o, true)) in vd.metaslabs)
    || (exists vd :: vd in Nodes(spa.root) && vd.top && vd.obsolete == o && WholeBonus(mos, o))
    || (spa.prevObsolete == o && WholeBonus(mos, o))
    || (exists vd :: vd in Nodes(spa.root) && vd.top && vd.checkpoint == Some(o))
    || o in spa.logs
  }

  lemma {:induction false} MapIdsAre(ms: seq<Option<OpenMap>>, o: ObjId)
    ensures o in MapIds(ms) <==> Some(OpenMap(o, true)) in ms
  {
    if ms != [] {
      MapIdsAre(ms[..|ms| - 1], o);
      assert ms == ms[..|ms| - 1] + [ms[|ms| - 1]];
    }
  }

  /** What one vdev refers to. */
  lemma OwnIs(mos: Mos, vd: Vdev, o: ObjId)
    ensures o in Own(mos, Dtl, vd) <==> vd.leaf && vd.dtl == Some(OpenMap(o, true))
    ensures o in Own(mos, Metaslabs, vd) <==> vd.top && Some(OpenMap(o, true)) in vd.metaslabs
    ensures o in Own(mos, Obsolete, vd) <==> vd.top && vd.obsolete == o && WholeBonus(mos, o)
    ensures o in Own(mos, Checkpoint, vd) <==> vd.top && vd.checkpoint == Some(o)
  {
    MapIdsAre(vd.metaslabs, o);
  }

  /** A space map is marked exactly when one of the six sources names it. */
  lemma SpaceMapRefsAre(mos: Mos, spa: Spa, o: ObjId)
    ensures o in SpaceMapRefs(mos, spa) <==> o != 0 && MapNamed(mos, spa, o)
  {
    forall vd: Vdev | vd in Nodes(spa.root)
      ensures o in Own(mos, Dtl, vd) <==> vd.leaf && vd.dtl == Some(OpenMap(o, true))
      ensures o in Own(mos, Metaslabs, vd) <==> vd.top && Some(OpenMap(o, true)) in vd.metaslabs
      ensures o in Own(mos, Obsolete, vd) <==> vd.top && vd.obsolete == o && WholeBonus(mos, o)
      ensures o in Own(mos, Checkpoint, vd) <==> vd.top && vd.checkpoint == Some(o)
    {
      OwnIs(mos, vd, o);
    }
  }

  /** Some DSL directory that can be read names clone map o. */
  ghost predicate ClonesNamed(mos: Mos, o: ObjId) {
    exists d :: d in mos && mos[d].infoOk && mos[d].isDslDir && mos[d].ddClones == Some(o)
  }

  lemma ClonesRefsAre(mos: Mos, o: ObjId)
    ensures o in ClonesRefs(mos) <==> o != 0 && ClonesNamed(mos, o)
  {
    if ClonesNamed(mos, o) {
      var d :| d in mos && mos[d].infoOk && mos[d].isDslDir && mos[d].ddClones == Some(o);
      assert IsDirWithClones(mos[d]);
    }
  }

  /**
    Exactly these objects are freed: readable, empty clone maps that no directory names, and
    readable, empty space maps with a whole bonus that none of the six sources names.
    */
  lemma FreedExactly(mos: Mos, spa: Spa, o: ObjId)
    requires o in mos && o != 0
    ensures o !in Swept(mos, spa) <==>
            mos[o].infoOk &&
            (|| (mos[o].objType == DslClones && mos[o].entries == Some(0) && !ClonesNamed(mos, o))
             || (mos[o].objType == SpaceMapType && mos[o].fullBonus && mos[o].phys == Some((0, 0))
                 && !MapNamed(mos, spa, o)))
  {
    SpaceMapRefsAre(mos, spa, o);
    ClonesRefsAre(mos, o);
  }

  /** So no space map in use is ever freed. */
  lemma NamedMapsStay(mos: Mos, spa: Spa, o: ObjId)
    requires o in mos && o != 0 && mos[o].objType == SpaceMapType && MapNamed(mos, spa, o)
    ensures o in Swept(mos, spa) && Swept(mos, spa)[o] == mos[o]
  {
    FreedExactly(mos, spa, o);
  }

  // ----- what directories really name

  /** `named` is the dd_clones of every directory on disk; where the scan can read one, it reads that. */
  ghost predicate Reads(mos: Mos, named: map<ObjId, ObjId>) {
    forall d :: d in mos && IsDirWithClones(mos[d]) ==> d in named && named[d] == mos[d].ddClones.value
  }

  ghost predicate Named(named: map<ObjId, ObjId>, o: ObjId) {
    o != 0 && exists d :: d in named && named[d] == o
  }

  predicate EmptyClones(mos: Mos, o: ObjId) {
    o in mos && mos[o].infoOk && mos[o].objType == DslClones && Empty(mos[o])
  }

  /** Some directory that names o can be read. */
  ghost predicate NamedReadably(mos: Mos, o: ObjId) {
    exists d :: d in mos && IsDirWithClones(mos[d]) && mos[d].ddClones.value == o
  }

  /** No clone map that a directory names is freed exactly when each empty one is named by a directory that can be read. */
  lemma NothingNamedIsFreedIff(mos: Mos, spa: Spa, named: map<ObjId, ObjId>)
    requires Reads(mos, named)
    ensures (forall o :: o in mos && mos[o].objType == DslClones && Named(named, o) ==> o in Swept(mos, spa)) <==>
            (forall o :: EmptyClones(mos, o) && Named(named, o) ==> NamedReadably(mos, o))
  {
    forall o | o in mos && o != 0
      ensures o in ClonesRefs(mos) <==> NamedReadably(mos, o)
    {
    }
    forall o | o in mos && mos[o].objType == DslClones && Named(named, o)
      ensures o !in Swept(mos, spa) <==> EmptyClones(mos, o) && !NamedReadably(mos, o)
    {
    }
  }

  /** A directory whose bonus cannot be held does not keep its empty clone map. */
  lemma UnreadableDirectory(spa: Spa)
    ensures var mos: Mos := map[1 := Obj(true, OtherType, true, false, None, None, None), 2 := EMPTY_CLONES];
            var named := map[1 := 2];
            Reads(mos, named) && Named(named, 2) && 2 !in Swept(mos, spa)
  {
    var mos: Mos := map[1 := Obj(true, OtherType, true, false, None, None, None), 2 := EMPTY_CLONES];
    assert !IsDirWithClones(mos[1]) && !IsDirWithClones(mos[2]);
    assert 2 !in ClonesRefs(mos);
    assert map[1 := 2][1] == 2;
  }

  // ----- scanning again

  /** A DSL directory is never itself an object that the sweep frees. */
  ghost predicate DirsStay(mos: Mos, spa: Spa) {
    forall o :: o in mos && Reclaimable(mos, spa, o) ==> !mos[o].isDslDir
  }

  lemma ClonesRefsStay(mos: Mos, spa: Spa)
    requires DirsStay(mos, spa)
    ensures ClonesRefs(Swept(mos, spa)) == ClonesRefs(mos)
  {
    var swept := Swept(mos, spa);
    forall o | o in mos && IsDirWithClones(mos[o])
      ensures o in swept && swept[o] == mos[o]
    {
    }
  }

  /** The marks of objects that remain do not change. */
  lemma OwnStays(mos: Mos, swept: Mos, which: Collector, vd: Vdev, o: ObjId)
    requires o in mos && o in swept && mos[o] == swept[o]
    ensures o in Own(mos, which, vd) <==> o in Own(swept, which, vd)
  {
  }

  lemma SpaceMapRefsStay(mos: Mos, swept: Mos, spa: Spa, o: ObjId)
    requires o in mos && o in swept && mos[o] == swept[o]
    ensures o in SpaceMapRefs(mos, spa) <==> o in SpaceMapRefs(swept, spa)
  {
    forall which, vd
      ensures o in Own(mos, which, vd) <==> o in Own(swept, which, vd)
    {
      OwnStays(mos, swept, which, vd, o);
    }
    forall which
      ensures o in RefsOf(mos, which, Nodes(spa.root)) <==> o in RefsOf(swept, which, Nodes(spa.root))
    {
    }
  }

  /** A second scan finds nothing to reclaim, and a second sweep frees nothing. */
  lemma SweptIsClean(mos: Mos, spa: Spa)
    requires DirsStay(mos, spa)
    ensures forall o :: !Reclaimable(Swept(mos, spa), spa, o)
    ensures Swept(Swept(mos, spa), spa) == Swept(mos, spa)
  {
    var swept := Swept(mos, spa);
    ClonesRefsStay(mos, spa);
    forall o
      ensures !Reclaimable(swept, spa, o)
    {
      if o in swept {
        SpaceMapRefsStay(mos, swept, spa, o);
      }
    }
  }

  /** Some directory that refers to clone map o survives the sweep. */
  ghost predicate StillReferred(mos: Mos, spa: Spa, o: ObjId) {
    exists d :: d in mos && IsDirWithClones(mos[d]) && mos[d].ddClones.value == o && !Reclaimable(mos, spa, d)
  }

  /** In full: nothing is left to reclaim exactly when no empty clone map loses all who refer to it. */
  lemma SweptIsCleanIff(mos: Mos, spa: Spa)
    ensures (forall o :: !Reclaimable(Swept(mos, spa), spa, o)) <==>
            (forall o :: EmptyClones(mos, o) && o in ClonesRefs(mos) ==> StillReferred(mos, spa, o))
  {
    var swept := Swept(mos, spa);
    forall o | o in swept
      ensures Reclaimable(swept, spa, o) <==>
              EmptyClones(mos, o) && !StillReferred(mos, spa, o)
    {
      SpaceMapRefsStay(mos, swept, spa, o);
      SurvivingRefs(mos, spa, o);
      assert !Reclaimable(mos, spa, o);
    }
    forall o | EmptyClones(mos, o)
      ensures o in ClonesRefs(mos) <==> o in swept
    {
    }
  }

  /**
    Freeing an empty clone map that doubles as a directory uncovers the map it refers to. No
    program makes such an object; it takes a damaged MOS.
    */
  lemma SecondScanCanFindMore(spa: Spa)
    ensures var dir := EMPTY_CLONES.(isDslDir := true, ddClones := Some(2));
            var mos: Mos := map[1 := dir, 2 := EMPTY_CLONES];
            !Reclaimable(mos, spa, 2) && Reclaimable(Swept(mos, spa), spa, 2)
  {
    var dir := EMPTY_CLONES.(isDslDir := true, ddClones := Some(2));
    var mos: Mos := map[1 := dir, 2 := EMPTY_CLONES];
    assert IsDirWithClones(mos[1]) && mos[1].ddClones.value == 2;
    assert ClonesRefs(mos) == {2};
    assert Reclaimable(mos, spa, 1);
    SurvivingRefs(mos, spa, 2);
  }

  lemma SurvivingRefs(mos: Mos, spa: Spa, o: ObjId)
    ensures o in ClonesRefs(Swept(mos, spa)) <==> o != 0 && StillReferred(mos, spa, o)
  {
    var swept := Swept(mos, spa);
    if o != 0 && StillReferred(mos, spa, o) {
      var d :| d in mos && IsDirWithClones(mos[d]) && mos[d].ddClones.value == o && !Reclaimable(mos, spa, d);
      assert d in swept && swept[d] == mos[d];
    }
    if o in ClonesRefs(swept) {
      var d :| d in swept && IsDirWithClones(swept[d]) && swept[d].ddClones.value == o;
      assert d in mos && mos[d] == swept[d];
    }
  }

  // ----- leaking on purpose

  const EMPTY_CLONES := Obj(true, DslClones, false, false, None, Some(0), None)
  const EMPTY_MAP := Obj(true, SpaceMapType, false, true, None, None, Some((0, 0)))

  /** zhack_mos_leak_sync: new empty objects that nothing refers to. */
  function Leaked(mos: Mos, clones: set<ObjId>, maps: set<ObjId>): Mos {
    mos + (map o | o in clones :: EMPTY_CLONES) + (map o | o in maps :: EMPTY_MAP)
  }

  /**
    In a pool without reclaimable objects, reclaiming after a leak brings back the old
    objects exactly when no new object got a number that something already refers to.
    */
  lemma LeakThenReclaim(mos: Mos, spa: Spa, clones: set<ObjId>, maps: set<ObjId>)
    requires clones !! maps && mos.Keys !! clones && mos.Keys !! maps
    requires forall o :: !Reclaimable(mos, spa, o)
    ensures Swept(Leaked(mos, clones, maps), spa) == mos <==>
            clones !! ClonesRefs(mos) && maps !! SpaceMapRefs(Leaked(mos, clones, maps), spa)
  {
    var leaked := Leaked(mos, clones, maps);
    assert ClonesRefs(leaked) == ClonesRefs(mos) by {
      assert forall o :: o in leaked && IsDirWithClones(leaked[o]) <==> o in mos && IsDirWithClones(mos[o]);
    }
    forall o | o in mos
      ensures !Reclaimable(leaked, spa, o)
    {
      SpaceMapRefsStay(mos, leaked, spa, o);
      assert !Reclaimable(mos, spa, o);
    }
    forall o | o in clones
      ensures Reclaimable(leaked, spa, o) <==> o !in ClonesRefs(mos)
    {
    }
    forall o | o in maps
      ensures Reclaimable(leaked, spa, o) <==> o !in SpaceMapRefs(leaked, spa)
    {
    }
    LeakedIff(mos, spa, clones, maps, leaked);
  }

  /** A new clone map that takes a number a directory still names is not reclaimed. */
  lemma DanglingReference(spa: Spa)
    ensures var dir := Obj(true, OtherType, true, false, Some(5), None, None);
            Swept(Leaked(map[1 := dir], {5}, {}), spa) != map[1 := dir]
  {
    var dir := Obj(true, OtherType, true, false, Some(5), None, None);
    var mos: Mos := map[1 := dir];
    var leaked := Leaked(mos, {5}, {});
    assert 1 in leaked && leaked[1] == dir && 5 in leaked && leaked[5] == EMPTY_CLONES;
    NamedIsKept(leaked, spa, 1, 5);
    assert 5 !in mos;
  }

  /** A clone map that a directory names is not reclaimable. */
  lemma NamedIsKept(mos: Mos, spa: Spa, dir: ObjId, o: ObjId)
    requires dir in mos && IsDirWithClones(mos[dir]) && mos[dir].ddClones.value == o && o != 0
    requires o in mos && mos[o].objType == DslClones
    ensures o in ClonesRefs(mos) && o in Swept(mos, spa)
  {
    assert o in ClonesRefs(mos);
  }

  lemma LeakedIff(mos: Mos, spa: Spa, clones: set<ObjId>, maps: set<ObjId>, leaked: Mos)
    requires clones !! maps && mos.Keys !! clones && mos.Keys !! maps && leaked == Leaked(mos, clones, maps)
    requires forall o :: o in mos ==> !Reclaimable(leaked, spa, o)
    requires forall o :: o in clones ==> (Reclaimable(leaked, spa, o) <==> o !in ClonesRefs(mos))
    requires forall o :: o in maps ==> (Reclaimable(leaked, spa, o) <==> o !in SpaceMapRefs(leaked, spa))
    ensures Swept(leaked, spa) == mos <==> clones !! ClonesRefs(mos) && maps !! SpaceMapRefs(leaked, spa)
  {
  }
}
