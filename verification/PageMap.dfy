// A page table refines a flat map from virtual pages to frames. View gives the flat map of a root; each
// operation is shown to be the corresponding map update.
module PageMap {
  import opened Division
  import opened PageEntries
  import opened PageWalk
  import opened PageTables

  const PAGES: nat := 0x10_0000_0000  // pages of the 48-bit space

  type Flat = map<nat, Translation>

  // The virtual page number an address falls in.
  function PageNo(virt: nat): (p: nat)
    ensures p < PAGES
  {
    Low48(virt) / PAGE
  }

  // Every mapped page with the translation of its first byte. A large page is all of its 4K pages.
  ghost function View(mem: Mem, root: nat): Flat {
    map p | 0 <= p < PAGES && Walk(mem, root, p * PAGE).Mapped? :: Walk(mem, root, p * PAGE)
  }

  // What the flat map says about a byte address.
  function Lookup(view: Flat, virt: nat): Translation {
    var p := PageNo(virt);
    if p in view && view[p].Mapped? then Mapped(view[p].phys + virt % PAGE, view[p].mode, view[p].level) else Unmapped
  }

  // ----- addresses of one page -----

  lemma BlockOfPage(p: nat)
    requires p < PAGES
    ensures Block(p * PAGE, 1) == p == PageNo(p * PAGE) && (p * PAGE) % PAGE == 0
  {
  }

  // The low 48 bits keep every in-page offset.
  lemma LowOffset(virt: nat, k: nat)
    requires 1 <= k <= 4
    ensures virt % Span(k) == Low48(virt) % Span(k)
  {
    var low, h := Low48(virt), virt / 0x1_0000_0000_0000;
    var d := Span(k);
    var n := match k case 1 => 0x10_0000_0000 case 2 => 0x800_0000 case 3 => 0x4_0000 case _ => 0x200;
    assert n * d == 0x1_0000_0000_0000;
    assert virt == n * d * h + low;
    assert virt == d * (n * h + low / d) + low % d by {
      DivEquation(low, d);
      match k case 1 => case 2 => case 3 => case _ =>
    }
    DivUnique(virt, d, n * h + low / d, low % d);
  }

  // An address and the start of its page: same indices, and offsets that differ by the in-page offset.
  lemma PageStart(virt: nat, k: nat)
    requires 1 <= k <= 4
    ensures var s := PageNo(virt) * PAGE;
            && Low48(s) == s && PageNo(s) == PageNo(virt)
            && Index(s, k) == Index(virt, k) && Block(s, k) == Block(virt, k)
            && virt % Span(k) == s % Span(k) + virt % PAGE
  {
    var s := PageNo(virt) * PAGE;
    var low := Low48(virt);
    DivEquation(low, PAGE);
    assert s <= low < s + PAGE && low < 0x1_0000_0000_0000;
    DivUnique(s, 0x1_0000_0000_0000, 0, s);
    DivUnique(s, PAGE, PageNo(virt), 0);
    PageBlock(low, s, k);
    LowOffset(virt, k);
    LowOffset(virt, 1);
  }

  lemma PageBlock(low: nat, s: nat, k: nat)
    requires 1 <= k <= 4 && s % PAGE == 0 && s <= low < s + PAGE
    ensures low / Span(k) == s / Span(k)
    ensures low % Span(k) == s % Span(k) + low % PAGE
  {
    var d := Span(k);
    var q, r := s / d, s % d;
    var n := match k case 1 => 1 case 2 => 0x200 case 3 => 0x4_0000 case _ => 0x800_0000;
    assert d == n * PAGE;
    assert s == d * q + r;
    assert r % PAGE == 0 by {
      var p := s / PAGE;
      assert s == PAGE * p;
      assert r == PAGE * (p - n * q) by {
        match k case 1 => case 2 => case 3 => case _ =>
      }
      DivUnique(r, PAGE, p - n * q, 0);
    }
    assert r + PAGE <= d by {
      assert r == PAGE * (r / PAGE);
      match k case 1 => case 2 => case 3 => case _ =>
    }
    DivUnique(low, PAGE, s / PAGE, low - s);
    DivUnique(low, d, q, r + (low - s));
  }

  // The offset added to a translation when moving from the start of a page into it.
  function Shift(t: Translation, offset: nat): Translation {
    match t
    case Unmapped => Unmapped
    case Mapped(phys, mode, level) => Mapped(phys + offset, mode, level)
  }

  lemma {:induction false} WalkInPage(mem: Mem, t: nat, level: nat, virt: nat)
    requires 1 <= level <= 4
    ensures WalkFrom(mem, t, level, virt) == Shift(WalkFrom(mem, t, level, PageNo(virt) * PAGE), virt % PAGE)
    decreases level
  {
    PageStart(virt, level);
    var e := Entry(mem, t, Index(virt, level));
    if Links(e, level) {
      WalkInPage(mem, TableAddr(e), level - 1, virt);
    }
  }

  // The walk at every address is what the flat map says.
  lemma WalkIsLookup(mem: Mem, root: nat, virt: nat)
    ensures Walk(mem, root, virt) == Lookup(View(mem, root), virt)
  {
    WalkInPage(mem, root, 4, virt);
  }

  // Walks that agree at every page start give one flat map.
  lemma SameView(mem: Mem, mem': Mem, root: nat)
    requires forall v :: Walk(mem', root, v) == Walk(mem, root, v)
    ensures View(mem', root) == View(mem, root)
  {
  }

  lemma ViewLevels(mem: Mem, root: nat)
    ensures forall p :: p in View(mem, root) ==>
              p < PAGES && View(mem, root)[p].Mapped? && 1 <= View(mem, root)[p].level <= 4
  {
  }

  // ----- one entry write as a flat update -----

  // The pages of one block, all remapped from entry e or all dropped.
  ghost function FlatWrite(view: Flat, virt: nat, k: nat, e: nat): Flat
    requires 1 <= k <= 4
  {
    map p | 0 <= p < PAGES && (if Block(p * PAGE, k) == Block(virt, k) then Present(e) else p in view) ::
      if Block(p * PAGE, k) == Block(virt, k) then Leaf(e, k, p * PAGE) else view[p]
  }

  // A root's flat map follows from its walks: the block is rewritten, or nothing changes.
  lemma FlatFromWalks(mem: Mem, mem': Mem, s: nat, virt: nat, k: nat, e: nat, touched: bool)
    requires 1 <= k <= 4
    requires forall v :: Walk(mem', s, v) ==
               if touched && Block(v, k) == Block(virt, k) then Leaf(e, k, v) else Walk(mem, s, v)
    ensures View(mem', s) == if touched then FlatWrite(View(mem, s), virt, k, e) else View(mem, s)
  {
    hide Walk;
  }

  lemma WriteIsFlat(mem: Mem, lv: map<nat, nat>, roots: set<nat>, root: nat, virt: nat, k: nat, e: nat, s: nat)
    requires Shape(mem, lv, roots) && root in roots && s in roots && 1 <= k <= 3
    requires TableOn(mem, root, 4, virt, k).At? && !Links(e, k)
    ensures var at := TableOn(mem, root, 4, virt, k).table;
            && at in mem && |mem[at]| == 512 && lv[at] == k
            && View(Write(mem, at, Index(virt, k), e), s) ==
               if s == root || SharedSlot(mem, root, s, Index(virt, 4)) then FlatWrite(View(mem, s), virt, k, e)
               else View(mem, s)
  {
    hide View, FlatWrite, SharedSlot;
    var at := TableOn(mem, root, 4, virt, k).table;
    TableOnLevel(mem, lv, roots, root, 4, virt, k);
    var mem' := Write(mem, at, Index(virt, k), e);
    var touched := s == root || SharedSlot(mem, root, s, Index(virt, 4));
    forall v
      ensures Walk(mem', s, v) == if touched && Block(v, k) == Block(virt, k) then Leaf(e, k, v) else Walk(mem, s, v)
    {
      WhoReads(mem, lv, roots, root, virt, k, s, v);
      WriteLeaf(mem, lv, roots, s, v, at, Index(virt, k), e);
    }
    FlatFromWalks(mem, mem', s, virt, k, e, touched);
  }

  lemma FlatMapOne(view: Flat, phys: nat, virt: nat, mode: Mode)
    requires forall p :: p in view ==> p < PAGES
    ensures FlatWrite(view, virt, 1, LeafEntry(phys, mode)) ==
            view[PageNo(virt) := Mapped(DecodeAddr(phys), Normalised(mode), 1)]
  {
    var e := LeafEntry(phys, mode);
    LeafSpec(phys, mode);
    var a, b := FlatWrite(view, virt, 1, e), view[PageNo(virt) := Mapped(DecodeAddr(phys), Normalised(mode), 1)];
    forall p | 0 <= p < PAGES
      ensures Block(p * PAGE, 1) == p
      ensures Leaf(e, 1, p * PAGE) == Mapped(DecodeAddr(phys), Normalised(mode), 1)
    {
      BlockOfPage(p);
      AlignedFrame(phys);
    }
    assert forall p :: p in a <==> p in b;
  }

  lemma AlignedFrame(phys: nat)
    ensures DecodeAddr(phys) % PAGE == 0
  {
  }

  // ----- mapPage -----

  // What mapPage promises of the flat map: the code, and one page updated or nothing.
  function FlatMapCode(view: Flat, virt: nat): int {
    if !Canonical(virt) then ERR_NOT_CANONICAL
    else
      match Lookup(view, virt)
      case Unmapped => 0
      case Mapped(_, _, level) => if level == 3 then ERR_LARGE_1G else if level == 2 then ERR_LARGE_2M else 0
  }

  function FlatMapPage(view: Flat, phys: nat, virt: nat, mode: Mode): Flat {
    if FlatMapCode(view, virt) == 0 then view[PageNo(virt) := Mapped(DecodeAddr(phys), Normalised(mode), 1)] else view
  }

  // PML4 entries, once present, are never changed: what roots share stays shared.
  ghost predicate RootsStay(mem: Mem, mem': Mem, roots: set<nat>) {
    forall s, i: nat :: s in roots && i < 512 && Present(Entry(mem, s, i)) ==> Entry(mem', s, i) == Entry(mem, s, i)
  }

  ghost predicate MapPageOk(m: Machine, lv: map<nat, nat>, roots: set<nat>, root: nat, phys: nat, virt: nat, mode: Mode,
                            m': Machine, code: int, lv': map<nat, nat>)
  {
    && MachineInv(m', lv', roots)
    && RootsStay(m.mem, m'.mem, roots) && OthersSame(m.mem, m'.mem, roots, root) && Grew(m, m')
    && NewLinks(m.mem, m'.mem, virt, TableOn(m'.mem, root, 4, virt, 1), Index(virt, 1))
    && code == FlatMapCode(View(m.mem, root), virt)
    && View(m'.mem, root) == FlatMapPage(View(m.mem, root), phys, virt, mode)
    && (code == 0 ==>
          && TableOn(m'.mem, root, 4, virt, 1).At?
          && Entry(m'.mem, TableOn(m'.mem, root, 4, virt, 1).table, Index(virt, 1)) ==
             (phys - phys % 0x1000) % 0x8000_0000_0000_0000
             + (1 + (if mode.kernelWrite || mode.userWrite then 2 else 0)
                + (if mode.userRead || mode.userWrite || mode.userExec then 4 else 0)))
    && (forall s :: s in roots && s != root ==>
          View(m'.mem, s) == if code == 0 && SharedSlot(m'.mem, root, s, Index(virt, 4))
                             then View(m.mem, s)[PageNo(virt) := Mapped(DecodeAddr(phys), Normalised(mode), 1)]
                             else View(m.mem, s))
  }

  ghost predicate MapPageFine(m: Machine, lv: map<nat, nat>, roots: set<nat>, root: nat, phys: nat, virt: nat,
                              mode: Mode,
                              r: Step)
  {
    r.Ret? ==> exists lv' :: MapPageOk(m, lv, roots, root, phys, virt, mode, r.m, r.code, lv')
  }

  lemma MapPageFails(m: Machine, lv: map<nat, nat>, roots: set<nat>, root: nat, phys: nat, virt: nat, mode: Mode,
                     code: int)
    requires MachineInv(m, lv, roots) && root in roots
    requires code != 0 && code == FlatMapCode(View(m.mem, root), virt)
    ensures MapPageFine(m, lv, roots, root, phys, virt, mode, Ret(m, code))
  {
    hide MachineInv, View, SharedSlot, FlatMapCode, Grew;
    GrewNone(m);
    assert MapPageOk(m, lv, roots, root, phys, virt, mode, m, code, lv);
  }

  // The final entry write of a successful map.
  lemma MapPageWrites(m: Machine, lv: map<nat, nat>, roots: set<nat>, root: nat, phys: nat, virt: nat, mode: Mode,
                      m1: Machine, pt: nat, lv': map<nat, nat>)
    requires MachineInv(m1, lv', roots) && root in roots && pt in m1.mem && lv'[pt] == 1
    requires RootsStay(m.mem, m1.mem, roots) && OthersSame(m.mem, m1.mem, roots, root) && Grew(m, m1)
    requires NewLinks(m.mem, m1.mem, virt, NoTable, 0)
    requires forall s :: s in roots ==> View(m1.mem, s) == View(m.mem, s)
    requires TableOn(m1.mem, root, 4, virt, 1) == At(pt)
    requires FlatMapCode(View(m.mem, root), virt) == 0
    ensures MapPageFine(m, lv, roots, root, phys, virt, mode,
                        Ret(m1.(mem := Store(m1.mem, pt, Index(virt, 1), LeafEntry(phys, mode))), 0))
  {
    hide MachineInv, View, FlatMapCode, SharedSlot, TableOn, FlatWrite, RootsStay, OthersSame, NewLinks, Entry, Grew,
      LeafEntry, Index, DecodeAddr, Normalised;
    var i, e := Index(virt, 1), LeafEntry(phys, mode);
    LeafValue(phys, mode);
    var m2 := m1.(mem := Store(m1.mem, pt, i, e));
    LeafWriteInv(m1, lv', roots, pt, 1, i, e);
    assert m2.mem == Write(m1.mem, pt, i, e);
    forall s | s in roots
      ensures View(m2.mem, s) == if s == root || SharedSlot(m2.mem, root, s, Index(virt, 4))
                                 then View(m.mem, s)[PageNo(virt) := Mapped(DecodeAddr(phys), Normalised(mode), 1)]
                                 else View(m.mem, s)
    {
      LeafWriteView(m1, lv', roots, root, phys, virt, mode, pt, s);
    }
    WriteGrew(m, m1, m2);
    PageWritten(m, m1, lv', roots, root, virt, pt, e);
    RootsStayWrite(m.mem, m1, lv', roots, root, pt, i, e);
    assert MapPageOk(m, lv, roots, root, phys, virt, mode, m2, 0, lv');
  }

  lemma LeafValue(phys: nat, mode: Mode)
    ensures LeafEntry(phys, mode) == (phys - phys % 0x1000) % 0x8000_0000_0000_0000
              + (1 + (if mode.kernelWrite || mode.userWrite then 2 else 0)
                 + (if mode.userRead || mode.userWrite || mode.userExec then 4 else 0))
  {
    LeafSpec(phys, mode);
  }

  // The page entry is the one exempt from NewLinks, and the walk still leads to it.
  lemma PageWritten(m: Machine, m1: Machine, lv: map<nat, nat>, roots: set<nat>, root: nat, virt: nat, pt: nat, e: nat)
    requires MachineInv(m1, lv, roots) && root in roots && pt in m1.mem && lv[pt] == 1
    requires TableOn(m1.mem, root, 4, virt, 1) == At(pt) && NewLinks(m.mem, m1.mem, virt, NoTable, 0)
    ensures |m1.mem[pt]| == 512
    ensures var mem := Write(m1.mem, pt, Index(virt, 1), e);
            && TableOn(mem, root, 4, virt, 1) == At(pt) && Entry(mem, pt, Index(virt, 1)) == e
            && NewLinks(m.mem, mem, virt, At(pt), Index(virt, 1))
  {
    hide MachineInv, Shape, TableOn, NewLinks, Index, Low48, Span;
    RootLevel(m1, lv, roots, root);
    TableFacts(m1, lv, roots, pt);
    WriteBelow(m1.mem, lv, roots, root, 4, virt, pt, Index(virt, 1), e);
    LeafIsExempt(m.mem, m1.mem, virt, pt, Index(virt, 1), e);
  }

  lemma LeafIsExempt(mem: Mem, mem': Mem, virt: nat, pt: nat, i: nat, e: nat)
    requires NewLinks(mem, mem', virt, NoTable, 0) && pt in mem' && i < |mem'[pt]|
    ensures NewLinks(mem, Write(mem', pt, i, e), virt, At(pt), i)
  {
  }

  lemma WriteGrew(m: Machine, m1: Machine, m2: Machine)
    requires Grew(m, m1) && m2.pool == m1.pool && m2.mem.Keys == m1.mem.Keys && m2.early == m1.early
    ensures Grew(m, m2)
  {
    var n: nat :| GrewBy(m, m1, n);
    assert GrewBy(m, m2, n);
  }

  lemma RootsStayWrite(mem: Mem, m1: Machine, lv: map<nat, nat>, roots: set<nat>, root: nat, at: nat, i: nat, e: nat)
    requires MachineInv(m1, lv, roots) && at in m1.mem && lv[at] < 4 && i < 512
    requires RootsStay(mem, m1.mem, roots) && OthersSame(mem, m1.mem, roots, root)
    ensures RootsStay(mem, Write(m1.mem, at, i, e), roots) && OthersSame(mem, Write(m1.mem, at, i, e), roots, root)
  {
    TableFacts(m1, lv, roots, at);
    assert at !in roots;
    WriteKeepsRoots(mem, m1.mem, roots, root, at, i, e);
  }

  lemma WriteKeepsRoots(mem: Mem, mem1: Mem, roots: set<nat>, root: nat, at: nat, i: nat, e: nat)
    requires at in mem1 && i < |mem1[at]| && at !in roots
    requires RootsStay(mem, mem1, roots) && OthersSame(mem, mem1, roots, root)
    ensures RootsStay(mem, Write(mem1, at, i, e), roots) && OthersSame(mem, Write(mem1, at, i, e), roots, root)
  {
  }

  // Writing a leaf entry keeps the machine invariant.
  lemma LeafWriteInv(m: Machine, lv: map<nat, nat>, roots: set<nat>, at: nat, k: nat, i: nat, e: nat)
    requires MachineInv(m, lv, roots) && at in m.mem && lv[at] == k && i < 512
    requires !Links(Entry(m.mem, at, i), k) && !Links(e, k)
    ensures |m.mem[at]| == 512
    ensures MachineInv(m.(mem := Write(m.mem, at, i, e)), lv, roots)
  {
    hide OpenLinks, Shape, Links;
    SoundShape(m, lv, roots);
    TableFacts(m, lv, roots, at);
    WriteLeafShape(m.mem, lv, roots, at, i, e);
    WriteOpen(m.mem, lv, at, i, e);
  }

  lemma LeafWriteView(m1: Machine, lv': map<nat, nat>, roots: set<nat>, root: nat, phys: nat, virt: nat, mode: Mode,
                      pt: nat, s: nat)
    requires MachineInv(m1, lv', roots) && root in roots && s in roots && pt in m1.mem && lv'[pt] == 1
    requires TableOn(m1.mem, root, 4, virt, 1) == At(pt)
    ensures |m1.mem[pt]| == 512
    ensures var mem := Write(m1.mem, pt, Index(virt, 1), LeafEntry(phys, mode));
            View(mem, s) == if s == root || SharedSlot(mem, root, s, Index(virt, 4))
                            then View(m1.mem, s)[PageNo(virt) := Mapped(DecodeAddr(phys), Normalised(mode), 1)]
                            else View(m1.mem, s)
  {
    hide View, SharedSlot, FlatWrite, TableOn;
    var i, e := Index(virt, 1), LeafEntry(phys, mode);
    WriteIsFlat(m1.mem, lv', roots, root, virt, 1, e, s);
    ViewPages(m1.mem, s);
    FlatMapOne(View(m1.mem, s), phys, virt, mode);
    SharedAfterWrite(m1.mem, pt, i, e, root, s, Index(virt, 4));
  }

  lemma ViewPages(mem: Mem, root: nat)
    ensures forall p :: p in View(mem, root) ==> p < PAGES
  {
  }

  lemma SharedAfterWrite(mem: Mem, at: nat, i: nat, e: nat, r: nat, s: nat, j: nat)
    requires at in mem && i < |mem[at]| && at != r && at != s
    ensures SharedSlot(Write(mem, at, i, e), r, s, j) <==> SharedSlot(mem, r, s, j)
  {
  }

  // mapPage is the flat map update: exactly its own page changes, below its own root and below the roots
  // that share the PML4 slot; a refused request changes no translation.
  lemma MapPageRefines(m: Machine, lv: map<nat, nat>, roots: set<nat>, root: nat, phys: nat, virt: nat, mode: Mode)
    requires MachineInv(m, lv, roots) && root in roots
    ensures MapPageFine(m, lv, roots, root, phys, virt, mode, MapPage(m, root, phys, virt, mode))
  {
    if !Canonical(virt) {
      MapPageFails(m, lv, roots, root, phys, virt, mode, ERR_NOT_CANONICAL);
    } else {
      FillKeeps(m, lv, roots, root, 4, virt);
      WalkIsLookup(m.mem, root, virt);
      match Fill(m, root, 4, virt) {
        case FillPanic =>
        case FillErr(m1, code) =>
          MapPageFails(m, lv, roots, root, phys, virt, mode, code);
        case Filled(m1, pt) =>
          FilledFacts(m, lv, roots, root, phys, virt, mode, m1, pt);
      }
    }
  }

  lemma RootsStayExtends(m: Machine, lv: map<nat, nat>, roots: set<nat>, m1: Machine)
    requires MachineInv(m, lv, roots) && Extends(m.mem, m1.mem)
    ensures RootsStay(m.mem, m1.mem, roots)
  {
  }

  lemma FilledFacts(m: Machine, lv: map<nat, nat>, roots: set<nat>, root: nat, phys: nat, virt: nat, mode: Mode,
                    m1: Machine, pt: nat)
    requires MachineInv(m, lv, roots) && root in roots && Canonical(virt)
    requires FillFine(m, lv, roots, root, 4, virt, Filled(m1, pt))
    requires Walk(m.mem, root, virt) == Lookup(View(m.mem, root), virt)
    ensures MapPageFine(m, lv, roots, root, phys, virt, mode,
                        Ret(m1.(mem := Store(m1.mem, pt, Index(virt, 1), LeafEntry(phys, mode))), 0))
  {
    hide View, TableOn, MachineInv, Grew, OthersSame;
    var lv' :| FillOk(m, lv, roots, root, 4, virt, Filled(m1, pt), lv');
    forall s | s in roots
      ensures View(m1.mem, s) == View(m.mem, s)
    {
      SameView(m.mem, m1.mem, s);
    }
    assert RootsStay(m.mem, m1.mem, roots) by {
      RootsStayExtends(m, lv, roots, m1);
    }
    MapPageWrites(m, lv, roots, root, phys, virt, mode, m1, pt, lv');
  }
}
