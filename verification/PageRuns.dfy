// Runs of page table operations: agreement with a flat map, sharing between parent and child maps, and
// the aperture into physical memory.
module PageRuns {
  import opened PageEntries
  import opened PageWalk
  import opened Pools
  import opened PageTables
  import opened PageMap
  import opened PageUnmap

  datatype PtOp =
    | DoMap(root: nat, phys: nat, virt: nat, mode: Mode)
    | DoUnmapPage(root: nat, virt: nat)
    | DoUnmap(root: nat, virt: nat, length: nat)

  function PtStep(m: Machine, op: PtOp): Step {
    match op
    case DoMap(root, phys, virt, mode) => MapPage(m, root, phys, virt, mode)
    case DoUnmapPage(root, virt) => var r := UnmapPage(m.mem, root, virt, false); Ret(m.(mem := r.mem), r.code)
    case DoUnmap(root, virt, length) => var r := Unmap(m.mem, root, virt, length); Ret(m.(mem := r.mem), r.code)
  }

  // A run that no REQUIRE stopped.
  predicate PtRun(m: Machine, ops: seq<PtOp>, end: Machine)
    decreases |ops|
  {
    if ops == [] then end == m
    else PtStep(m, ops[0]).Ret? && PtRun(PtStep(m, ops[0]).m, ops[1..], end)
  }

  // The same operations on a flat map.
  ghost function FlatStep(view: Flat, op: PtOp): Flat {
    match op
    case DoMap(_, phys, virt, mode) => FlatMapPage(view, phys, virt, mode)
    case DoUnmapPage(_, virt) => if Refused(view, virt, false) then view else FlatUnmap(view, virt)
    case DoUnmap(_, virt, length) =>
      if virt == 0 || virt % PAGE != 0 || length == 0 || length % PAGE != 0 then view
      else FlatUnmapSome(view, virt, length / PAGE)
  }

  ghost function FlatRun(view: Flat, ops: seq<PtOp>): Flat
    decreases |ops|
  {
    if ops == [] then view else FlatRun(FlatStep(view, ops[0]), ops[1..])
  }

  // What an operation does to the map of another root, given the maps of both and the slots they share.
  ghost function FlatStepShared(own: Flat, other: Flat, slots: set<nat>, op: PtOp): Flat {
    match op
    case DoMap(_, phys, virt, mode) =>
      if FlatMapCode(own, virt) == 0 && Index(virt, 4) in slots
        then other[PageNo(virt) := Mapped(DecodeAddr(phys), Normalised(mode), 1)]
      else other
    case DoUnmapPage(_, virt) =>
      if !Refused(own, virt, false) && Index(virt, 4) in slots then FlatUnmap(other, virt) else other
    case DoUnmap(_, virt, length) =>
      if virt == 0 || virt % PAGE != 0 || length == 0 || length % PAGE != 0 then other
      else FlatUnmapWhere(other, slots, virt, length / PAGE)
  }

  // One flat map per root, and the top-level slots each two roots share.
  type Maps = map<nat, Flat>
  type Sharing = map<(nat, nat), set<nat>>

  ghost function Views(mem: Mem, roots: set<nat>): Maps {
    map s | s in roots :: View(mem, s)
  }

  ghost function SharingOf(mem: Mem, roots: set<nat>): Sharing {
    map r, s | r in roots && s in roots && r != s :: (r, s) := SharedSlots(mem, r, s)
  }

  ghost function FlatStepAll(maps: Maps, sharing: Sharing, op: PtOp): Maps {
    map s | s in maps ::
      if s == op.root then FlatStep(maps[s], op)
      else if op.root in maps && (op.root, s) in sharing
        then FlatStepShared(maps[op.root], maps[s], sharing[(op.root, s)], op)
      else maps[s]
  }

  ghost function FlatRunAll(maps: Maps, sharing: Sharing, ops: seq<PtOp>): Maps
    decreases |ops|
  {
    if ops == [] then maps else FlatRunAll(FlatStepAll(maps, sharing, ops[0]), sharing, ops[1..])
  }

  // One operation: some level map makes the invariant hold again, the flat map of its root and those of the
  // others follow, and what is shared stays as it is.
  ghost predicate StepOk(m: Machine, roots: set<nat>, op: PtOp, m': Machine, lv': map<nat, nat>) {
    && MachineInv(m', lv', roots)
    && RootsStay(m.mem, m'.mem, roots)
    && View(m'.mem, op.root) == FlatStep(View(m.mem, op.root), op)
    && (forall s :: s in roots && s != op.root ==>
          View(m'.mem, s) == FlatStepShared(View(m.mem, op.root), View(m.mem, s), SharedSlots(m.mem, op.root, s), op))
    && SharingOf(m'.mem, roots) == SharingOf(m.mem, roots)
  }

  // ----- sharing is never gained or lost -----

  lemma LinkedEntry(m: Machine, t: nat, i: nat, page: nat, entry: nat, r: nat, j: nat)
    requires t in m.mem && i < |m.mem[t]| && page !in m.mem && r in m.mem
    ensures Entry(LinkAt(m, page, t, i, entry).mem, r, j) == if r == t && j == i then entry else Entry(m.mem, r, j)
  {
    hide PoolAlloc;
  }

  // A fresh table is no other root's.
  lemma LinkSharing(m: Machine, lv: map<nat, nat>, roots: set<nat>, t: nat, i: nat, page: nat, entry: nat, r: nat,
                    s: nat, j: nat)
    requires MachineInv(m, lv, roots) && t in m.mem && i < |m.mem[t]|
    requires page !in m.mem && r in roots && s in roots && r != s
    requires !Present(Entry(m.mem, t, i)) && TableAddr(entry) == page
    ensures SharedSlot(LinkAt(m, page, t, i, entry).mem, r, s, j) <==> SharedSlot(m.mem, r, s, j)
  {
    hide MachineInv, Shape, TableAddr, Links, Present, LinkAt, Entry;
    SoundShape(m, lv, roots);
    NewChildOnly(m.mem, lv, roots, r, j, page);
    NewChildOnly(m.mem, lv, roots, s, j, page);
    LinkedEntry(m, t, i, page, entry, r, j);
    LinkedEntry(m, t, i, page, entry, s, j);
  }

  // No root links to a frame that is no table yet.
  lemma NewChildOnly(mem: Mem, lv: map<nat, nat>, roots: set<nat>, r: nat, j: nat, page: nat)
    requires Shape(mem, lv, roots) && r in roots && page !in mem
    ensures Links(Entry(mem, r, j), 4) ==> Present(Entry(mem, r, j)) && TableAddr(Entry(mem, r, j)) != page
    ensures !Present(Entry(mem, r, j)) ==> !Links(Entry(mem, r, j), 4)
  {
    if j < 512 && Links(Entry(mem, r, j), 4) {
      LinkedChild(mem, lv, roots, r, j);
    }
  }

  lemma SameTablesShare(mem: Mem, mem': Mem, roots: set<nat>, t: nat, r: nat, s: nat, j: nat)
    requires OthersSame(mem, mem', roots, t) && t !in roots && r in roots && s in roots && roots <= mem.Keys
    ensures SharedSlot(mem', r, s, j) <==> SharedSlot(mem, r, s, j)
  {
  }

  lemma FillSharing(m: Machine, lv: map<nat, nat>, roots: set<nat>, root: nat, virt: nat, r: nat, s: nat, j: nat)
    requires MachineInv(m, lv, roots) && root in roots && r in roots && s in roots && r != s
    requires Fill(m, root, 4, virt).Filled?
    ensures SharedSlot(Fill(m, root, 4, virt).m.mem, r, s, j) <==> SharedSlot(m.mem, r, s, j)
  {
    hide MachineInv, SharedSlot, OthersSame, LinkAt, PoolFree, PoolAlloc, Fill;
    SoundShape(m, lv, roots);
    var i := Index(virt, 4);
    var e := Entry(m.mem, root, i);
    FillFirst(m, root, virt);
    if !Present(e) {
      NextFrame(m, lv, roots);
      var page := AllocPage(m).page;
      LinkStep(m, lv, roots, root, virt, page);
      FillAllocates(m, root, 4, virt, page);
      var m2 := LinkAt(m, page, root, i, LinkEntry(page, virt));
      LinkSharing(m, lv, roots, root, i, page, LinkEntry(page, virt), r, s, j);
      BelowShares(m2, lv[page := 3], roots, page, virt, r, s, j);
    } else {
      SoundChild(m, lv, roots, root, i);
      BelowShares(m, lv, roots, TableAddr(e), virt, r, s, j);
    }
  }

  lemma FillFirst(m: Machine, root: nat, virt: nat)
    requires Fill(m, root, 4, virt).Filled?
    ensures var e := Entry(m.mem, root, Index(virt, 4));
            if Present(e) then Fill(m, root, 4, virt) == Fill(m, TableAddr(e), 3, virt) else AllocPage(m).Fresh?
    ensures PoolFree(m.pool) != [] ==> AllocPage(m).Fresh? ==>
              AllocPage(m).page == PoolFree(m.pool)[0] < Reach(m.early)
    ensures !Present(Entry(m.mem, root, Index(virt, 4))) ==> PoolFree(m.pool) != []
  {
  }

  lemma BelowShares(m: Machine, lv: map<nat, nat>, roots: set<nat>, t: nat, virt: nat, r: nat, s: nat, j: nat)
    requires MachineInv(m, lv, roots) && t in m.mem && t in lv && lv[t] == 3 && r in roots && s in roots
    requires Fill(m, t, 3, virt).Filled?
    ensures SharedSlot(Fill(m, t, 3, virt).m.mem, r, s, j) <==> SharedSlot(m.mem, r, s, j)
  {
    SoundShape(m, lv, roots);
    assert t !in roots;
    hide MachineInv, SharedSlot, OthersSame, Fill, Grew, TableOn, SameWalks;
    FillKeeps(m, lv, roots, t, 3, virt);
    var lv' :| FillOk(m, lv, roots, t, 3, virt, Fill(m, t, 3, virt), lv');
    SameTablesShare(m.mem, Fill(m, t, 3, virt).m.mem, roots, t, r, s, j);
  }

  lemma MapSharing(m: Machine, lv: map<nat, nat>, roots: set<nat>, root: nat, phys: nat, virt: nat, mode: Mode, r: nat,
                   s: nat, j: nat)
    requires MachineInv(m, lv, roots) && root in roots && r in roots && s in roots && r != s
    requires MapPage(m, root, phys, virt, mode).Ret?
    ensures SharedSlot(MapPage(m, root, phys, virt, mode).m.mem, r, s, j) <==> SharedSlot(m.mem, r, s, j)
  {
    RootLevel(m, lv, roots, root);
    hide MachineInv, SharedSlot, Fill, Grew, TableOn, SameWalks, OthersSame;
    if Canonical(virt) {
      FillKeeps(m, lv, roots, root, 4, virt);
      var f := Fill(m, root, 4, virt);
      var lv' :| FillOk(m, lv, roots, root, 4, virt, f, lv');
      if f.Filled? {
        FillSharing(m, lv, roots, root, virt, r, s, j);
        SoundShape(f.m, lv', roots);
        SharedAfterWrite(f.m.mem, f.table, Index(virt, 1), LeafEntry(phys, mode), r, s, j);
      }
    }
  }

  lemma SameSharings(mem: Mem, mem': Mem, roots: set<nat>)
    requires forall r, s, j: nat :: r in roots && s in roots && r != s && j < 512 ==>
               (SharedSlot(mem', r, s, j) <==> SharedSlot(mem, r, s, j))
    ensures SharingOf(mem', roots) == SharingOf(mem, roots)
  {
    hide SharedSlot;
    forall r, s | r in roots && s in roots && r != s
      ensures SharedSlots(mem', r, s) == SharedSlots(mem, r, s)
    {
    }
  }

  lemma StepRefines(m: Machine, lv: map<nat, nat>, roots: set<nat>, op: PtOp)
    requires MachineInv(m, lv, roots) && op.root in roots && PtStep(m, op).Ret?
    ensures exists lv' :: StepOk(m, roots, op, PtStep(m, op).m, lv')
  {
    if op.DoMap? {
      MapStepRefines(m, lv, roots, op.root, op.phys, op.virt, op.mode);
    } else {
      UnmapStepRefines(m, lv, roots, op);
    }
  }

  lemma MapStepRefines(m: Machine, lv: map<nat, nat>, roots: set<nat>, root: nat, phys: nat, virt: nat, mode: Mode)
    requires MachineInv(m, lv, roots) && root in roots && MapPage(m, root, phys, virt, mode).Ret?
    ensures exists lv' :: StepOk(m, roots, DoMap(root, phys, virt, mode), MapPage(m, root, phys, virt, mode).m, lv')
  {
    hide View, Shape, Fill, MapPage, RootsStay, FlatMapCode, SharedSlot, Grew, OthersSame, MachineInv, SharingOf, Index,
      PageNo;
    MapPageRefines(m, lv, roots, root, phys, virt, mode);
    var r := MapPage(m, root, phys, virt, mode);
    var lv' :| MapPageOk(m, lv, roots, root, phys, virt, mode, r.m, r.code, lv');
    forall a, b, j: nat | a in roots && b in roots && a != b && j < 512
      ensures SharedSlot(r.m.mem, a, b, j) <==> SharedSlot(m.mem, a, b, j)
    {
      MapSharing(m, lv, roots, root, phys, virt, mode, a, b, j);
    }
    SameSharings(m.mem, r.m.mem, roots);
    assert StepOk(m, roots, DoMap(root, phys, virt, mode), r.m, lv');
  }

  lemma UnmapStepRefines(m: Machine, lv: map<nat, nat>, roots: set<nat>, op: PtOp)
    requires MachineInv(m, lv, roots) && op.root in roots && !op.DoMap?
    ensures StepOk(m, roots, op, PtStep(m, op).m, lv)
  {
    hide View, Shape, UnmapPage, UnmapSome, RootsStay, RootsSame, FlatUnmap, FlatUnmapSome, FlatUnmapWhere, MachineInv,
      SharingOf, SharedSlot, Refused, UnmapCode, Index;
    var m' := PtStep(m, op).m;
    SoundShape(m, lv, roots);
    RootsStayRefl(m.mem, roots);
    if op.DoUnmapPage? {
      UnmapPageRefines(m.mem, lv, roots, op.root, op.virt, false);
    } else if !(op.virt == 0 || op.virt % PAGE != 0 || op.length == 0 || op.length % PAGE != 0) {
      UnmapRefines(m.mem, lv, roots, op.root, op.virt, op.length / PAGE);
    }
    KeepsInv(m, lv, roots, m'.mem);
    forall a, b, j: nat | a in roots && b in roots && a != b && j < 512
      ensures SharedSlot(m'.mem, a, b, j) <==> SharedSlot(m.mem, a, b, j)
    {
      SameSharing(m.mem, m'.mem, roots, a, b, j);
    }
    SameSharings(m.mem, m'.mem, roots);
  }

  lemma RootsStayRefl(mem: Mem, roots: set<nat>)
    requires roots <= mem.Keys
    ensures RootsStay(mem, mem, roots) && RootsSame(mem, mem, roots)
  {
  }

  lemma StepFollows(m: Machine, roots: set<nat>, op: PtOp, m': Machine, lv': map<nat, nat>)
    requires StepOk(m, roots, op, m', lv') && op.root in roots
    ensures Views(m'.mem, roots) == FlatStepAll(Views(m.mem, roots), SharingOf(m.mem, roots), op)
  {
    hide View, MachineInv, RootsStay, FlatStep, FlatStepShared, SharedSlots;
  }

  // Over any run of operations on any of the maps, the walk of each agrees at every address with a flat map
  // of its own, when these go through the same operations; which slots maps share never changes.
  lemma {:induction false} RunRefinesFlatMap(m: Machine, lv: map<nat, nat>, roots: set<nat>, ops: seq<PtOp>,
                                             end: Machine)
    requires MachineInv(m, lv, roots)
    requires PtRun(m, ops, end) && forall i :: 0 <= i < |ops| ==> ops[i].root in roots
    ensures Views(end.mem, roots) == FlatRunAll(Views(m.mem, roots), SharingOf(m.mem, roots), ops)
    ensures forall s, v :: s in roots ==>
              s in FlatRunAll(Views(m.mem, roots), SharingOf(m.mem, roots), ops) &&
              Walk(end.mem, s, v) == Lookup(FlatRunAll(Views(m.mem, roots), SharingOf(m.mem, roots), ops)[s], v)
    ensures SharingOf(end.mem, roots) == SharingOf(m.mem, roots)
    ensures exists lv' :: MachineInv(end, lv', roots)
    decreases |ops|
  {
    hide View, MachineInv, FlatStepAll, PtStep, Lookup, Walk, SharingOf;
    if ops == [] {
    } else {
      var next := PtStep(m, ops[0]).m;
      StepRefines(m, lv, roots, ops[0]);
      var lv' :| StepOk(m, roots, ops[0], next, lv');
      StepFollows(m, roots, ops[0], next, lv');
      RunRefinesFlatMap(next, lv', roots, ops[1..], end);
    }
    forall s, v | s in roots
      ensures Walk(end.mem, s, v) == Lookup(Views(end.mem, roots)[s], v)
    {
      WalkIsLookup(end.mem, s, v);
    }
  }

  // When only one map is operated on, its flat map needs nothing of the others.
  lemma {:induction false} OwnRun(maps: Maps, sharing: Sharing, root: nat, ops: seq<PtOp>)
    requires root in maps && forall i :: 0 <= i < |ops| ==> ops[i].root == root
    ensures root in FlatRunAll(maps, sharing, ops) && FlatRunAll(maps, sharing, ops)[root] == FlatRun(maps[root], ops)
    decreases |ops|
  {
    hide FlatStep, FlatStepShared;
    if ops != [] {
      OwnRun(FlatStepAll(maps, sharing, ops[0]), sharing, root, ops[1..]);
    } else {
      assert FlatRunAll(maps, sharing, ops) == maps;
    }
  }

  // ----- sharing -----

  // Once two roots share a slot, they translate every address below it identically after any later run
  // of operations on any of the maps.
  lemma {:induction false} SharedForever(m: Machine, lv: map<nat, nat>, roots: set<nat>, r: nat, s: nat, j: nat,
                                         ops: seq<PtOp>, end: Machine)
    requires MachineInv(m, lv, roots) && r in roots && s in roots && j < 512
    requires SharedSlot(m.mem, r, s, j)
    requires PtRun(m, ops, end) && forall i :: 0 <= i < |ops| ==> ops[i].root in roots
    ensures SharedSlot(end.mem, r, s, j)
    ensures forall v :: Index(v, 4) == j ==> Walk(end.mem, r, v) == Walk(end.mem, s, v)
    decreases |ops|
  {
    hide View, MachineInv, FlatStep, PtStep;
    if ops == [] {
      forall v | Index(v, 4) == j
        ensures Walk(end.mem, r, v) == Walk(end.mem, s, v)
      {
        SharedWalk(m.mem, r, s, v);
      }
    } else {
      var next := PtStep(m, ops[0]).m;
      StepRefines(m, lv, roots, ops[0]);
      var lv' :| StepOk(m, roots, ops[0], next, lv');
      SharedForever(next, lv', roots, r, s, j, ops[1..], end);
    }
  }

  // Every address an operation names.
  predicate Touches(op: PtOp, virt: nat) {
    match op
    case DoMap(_, _, v, _) => virt == v
    case DoUnmapPage(_, v) => virt == v
    case DoUnmap(_, v, length) => exists i :: 0 <= i < length / PAGE && virt == PageAt(v, i)
  }

  // The operation stays in the lower half of the address space.
  ghost predicate LowerHalf(op: PtOp) {
    forall v :: Touches(op, v) ==> Index(v, 4) < 256
  }

  lemma {:induction false} UnmapLowerIsolated(mem: Mem, lv: map<nat, nat>, roots: set<nat>, root: nat, virt: nat,
                                              n: nat, s: nat)
    requires Shape(mem, lv, roots) && root in roots && s in roots && s != root
    requires forall i :: 0 <= i < n ==> Index(PageAt(virt, i), 4) < 256
    ensures View(UnmapSome(mem, root, virt, n).mem, s) == View(mem, s)
  {
    hide View, Shape, PageAt, Canonical, UnmapPage, Index, SharedSlot, Refused, FlatUnmap, UnmapCode, RootsStay;
    if n == 0 {
    } else {
      UnmapLowerIsolated(mem, lv, roots, root, virt, n - 1, s);
      UnmapRefines(mem, lv, roots, root, virt, n - 1);
      var before := UnmapSome(mem, root, virt, n - 1);
      var a := PageAt(virt, n - 1);
      if before.code >= 0 {
        UnmapPageRefines(before.mem, lv, roots, root, a, true);
        if SharedSlot(before.mem, root, s, Index(a, 4)) {
          SharedIsUpper(before.mem, lv, roots, root, s, Index(a, 4));
          assert false;
        }
      }
    }
  }

  lemma StepIsolated(m: Machine, lv: map<nat, nat>, roots: set<nat>, op: PtOp, s: nat)
    requires MachineInv(m, lv, roots) && op.root in roots && s in roots && s != op.root
    requires LowerHalf(op) && PtStep(m, op).Ret?
    ensures View(PtStep(m, op).m.mem, s) == View(m.mem, s)
  {
    hide View, Shape, Fill, MapPage, UnmapPage, UnmapSome, RootsStay, FlatMapPage, FlatUnmap, FlatUnmapSome, Index,
      SharedSlot, Refused, UnmapCode, FlatMapCode, Grew;
    match op {
      case DoMap(root, phys, virt, mode) =>
        assert Touches(op, virt);
        MapPageRefines(m, lv, roots, root, phys, virt, mode);
        var r := MapPage(m, root, phys, virt, mode);
        var lv' :| MapPageOk(m, lv, roots, root, phys, virt, mode, r.m, r.code, lv');
        if SharedSlot(r.m.mem, root, s, Index(virt, 4)) {
          SharedIsUpper(r.m.mem, lv', roots, root, s, Index(virt, 4));
          assert false;
        }
      case DoUnmapPage(root, virt) =>
        assert Touches(op, virt);
        UnmapPageRefines(m.mem, lv, roots, root, virt, false);
        if SharedSlot(m.mem, root, s, Index(virt, 4)) {
          SharedIsUpper(m.mem, lv, roots, root, s, Index(virt, 4));
          assert false;
        }
      case DoUnmap(root, virt, length) =>
        forall i | 0 <= i < length / PAGE
          ensures Index(PageAt(virt, i), 4) < 256
        {
          assert Touches(op, PageAt(virt, i));
        }
        UnmapLowerIsolated(m.mem, lv, roots, root, virt, length / PAGE, s);
    }
  }

  // Lower-half operations on other maps never change a map.
  lemma {:induction false} LowerHalfIsolated(m: Machine, lv: map<nat, nat>, roots: set<nat>, s: nat,
                                             ops: seq<PtOp>, end: Machine)
    requires MachineInv(m, lv, roots) && s in roots && PtRun(m, ops, end)
    requires forall i :: 0 <= i < |ops| ==> ops[i].root in roots && ops[i].root != s && LowerHalf(ops[i])
    ensures View(end.mem, s) == View(m.mem, s)
    decreases |ops|
  {
    hide View, MachineInv, FlatStep, PtStep, LowerHalf;
    if ops == [] {
    } else {
      var next := PtStep(m, ops[0]).m;
      StepRefines(m, lv, roots, ops[0]);
      var lv' :| StepOk(m, roots, ops[0], next, lv');
      StepIsolated(m, lv, roots, ops[0], s);
      LowerHalfIsolated(next, lv', roots, s, ops[1..], end);
    }
  }
}
