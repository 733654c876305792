// ContiguousPhysRegion: a map entry for one run of physical memory, mapped page by page when it is added
// to a map and unmapped when it is removed.
module ContiguousRegion {
  import opened Division
  import opened PageEntries
  import opened PageWalk
  import opened PageTables
  import opened PageMap
  import opened PageUnmap
  import opened PageTableObject

  // Rounds of the loop that steps through length bytes a page at a time.
  function Rounds(length: nat): (n: nat)
    ensures length <= n * PAGE < length + PAGE
  {
    DivEquation(length, PAGE);
    if length % PAGE == 0 then length / PAGE else length / PAGE + 1
  }

  // The first n rounds of addedTo; any error of mapPage is fatal.
  function AddPages(m: Machine, root: nat, phys: nat, base: nat, mode: Mode, n: nat): Step {
    if n == 0 then Ret(m, 0)
    else
      match AddPages(m, root, phys, base, mode, n - 1)
      case Panic => Panic
      case Ret(m1, _) =>
        match MapPage(m1, root, PageAt(phys, n - 1), PageAt(base, n - 1), mode)
        case Panic => Panic
        case Ret(m2, code) => if code != 0 then Panic else Ret(m2, 0)
  }

  // Page i of the range has the given translation, and other pages are as before.
  ghost predicate RangeMapped(was: Flat, now: Flat, phys: nat, base: nat, mode: Mode, n: nat) {
    && (forall i :: 0 <= i < n ==>
          && PageNo(PageAt(base, i)) in now
          && now[PageNo(PageAt(base, i))] == Mapped(DecodeAddr(PageAt(phys, i)), Normalised(mode), 1))
    && (forall p :: !InRange(p, base, n) ==> (p in now <==> p in was) && (p in was ==> now[p] == was[p]))
  }

  ghost predicate AddOk(m: Machine, roots: set<nat>, root: nat, phys: nat, base: nat, mode: Mode, n: nat, m': Machine,
                        lv': map<nat, nat>) {
    && MachineInv(m', lv', roots) && Grew(m, m')
    && CanonicalRange(base, n)
    && RangeMapped(View(m.mem, root), View(m'.mem, root), phys, base, mode, n)
  }

  // The pages of a range shorter than the address space are all different.
  lemma PagesDiffer(base: nat, i: nat, j: nat)
    requires i < j < i + PAGES
    ensures PageNo(PageAt(base, i)) != PageNo(PageAt(base, j))
  {
    PageStep(base, i);
    PageStep(base, j);
    var q := base / PAGE;
    DivEquation(q + i, PAGES);
    DivEquation(q + j, PAGES);
    var di, dj := (q + i) / PAGES, (q + j) / PAGES;
    assert j - i == PAGES * (dj - di) + ((q + j) % PAGES - (q + i) % PAGES);
  }

  lemma PageStep(base: nat, i: nat)
    ensures PageNo(PageAt(base, i)) == (base / PAGE + i) % PAGES
  {
    var q, r := base / PAGE, base % PAGE;
    DivEquation(base, PAGE);
    var a := base + i * PAGE;
    var s := q + i;
    assert a == PAGE * s + r;
    var h, t := s / PAGES, s % PAGES;
    DivEquation(s, PAGES);
    var low := PAGE * t + r;
    assert a == 0x1_0000_0000_0000 * h + low;
    DivUnique(a, 0x1_0000_0000_0000, h, low);
    var g, u := h / 0x1_0000, h % 0x1_0000;
    DivEquation(h, 0x1_0000);
    assert a == ADDR_LIMIT * g + (0x1_0000_0000_0000 * u + low);
    DivUnique(a, ADDR_LIMIT, g, 0x1_0000_0000_0000 * u + low);
    DivUnique(0x1_0000_0000_0000 * u + low, 0x1_0000_0000_0000, u, low);
    DivUnique(low, PAGE, t, r);
  }

  lemma RangeMappedNext(was: Flat, mid: Flat, now: Flat, phys: nat, base: nat, mode: Mode, n: nat)
    requires 0 < n <= PAGES && RangeMapped(was, mid, phys, base, mode, n - 1)
    requires now == mid[PageNo(PageAt(base, n - 1)) := Mapped(DecodeAddr(PageAt(phys, n - 1)), Normalised(mode), 1)]
    ensures RangeMapped(was, now, phys, base, mode, n)
  {
    hide PageNo, PageAt, DecodeAddr;
    forall i | 0 <= i < n - 1
      ensures PageNo(PageAt(base, i)) != PageNo(PageAt(base, n - 1))
    {
      PagesDiffer(base, i, n - 1);
    }
    forall p: nat
      ensures InRange(p, base, n) <==> InRange(p, base, n - 1) || p == PageNo(PageAt(base, n - 1))
    {
      RangeSnoc(p, base, n);
    }
  }

  lemma {:induction false} AddRefines(m: Machine, lv: map<nat, nat>, roots: set<nat>, root: nat,
                                      phys: nat, base: nat, mode: Mode, n: nat)
    requires MachineInv(m, lv, roots) && root in roots && n <= PAGES
    requires AddPages(m, root, phys, base, mode, n).Ret?
    ensures exists lv' :: AddOk(m, roots, root, phys, base, mode, n, AddPages(m, root, phys, base, mode, n).m, lv')
  {
    hide MachineInv, View, MapPage, PageNo, PageAt, Grew, RangeMapped, Canonical, DecodeAddr, SharedSlot, OthersSame,
      RootsStay;
    if n == 0 {
      GrewNone(m);
      NothingMapped(View(m.mem, root), phys, base, mode);
      assert AddOk(m, roots, root, phys, base, mode, 0, m, lv);
    } else {
      AddRefines(m, lv, roots, root, phys, base, mode, n - 1);
      var m1 := AddPages(m, root, phys, base, mode, n - 1).m;
      var lv1 :| AddOk(m, roots, root, phys, base, mode, n - 1, m1, lv1);
      MapPageRefines(m1, lv1, roots, root, PageAt(phys, n - 1), PageAt(base, n - 1), mode);
      var r := MapPage(m1, root, PageAt(phys, n - 1), PageAt(base, n - 1), mode);
      var lv' :| MapPageOk(m1, lv1, roots, root, PageAt(phys, n - 1), PageAt(base, n - 1), mode, r.m, r.code, lv');
      RangeMappedNext(View(m.mem, root), View(m1.mem, root), View(r.m.mem, root), phys, base, mode, n);
      GrewChain(m, m1, r.m);
      assert AddOk(m, roots, root, phys, base, mode, n, r.m, lv');
    }
  }

  lemma NothingMapped(view: Flat, phys: nat, base: nat, mode: Mode)
    ensures RangeMapped(view, view, phys, base, mode, 0)
  {
  }

  // willRemoveFrom: unmap asks for an aligned, non-null base and whole pages, so removing a region whose
  // length is not a page multiple is fatal although adding it was not.
  predicate Removable(base: nat, length: nat) {
    base > 0 && base % PAGE == 0 && length > 0 && length % PAGE == 0
  }

  // Removing a region that was added over unmapped addresses gives the map back its translations, exactly
  // when base and length are page multiples.
  lemma AddThenRemove(m: Machine, lv: map<nat, nat>, roots: set<nat>, root: nat,
                      phys: nat, base: nat, mode: Mode, length: nat, m': Machine)
    requires MachineInv(m, lv, roots) && root in roots && Rounds(length) <= PAGES
    requires AddPages(m, root, phys, base, mode, Rounds(length)) == Ret(m', 0)
    requires forall p :: p in View(m.mem, root) ==> !InRange(p, base, Rounds(length))
    ensures Unmap(m'.mem, root, base, length).code == 0 <==> Removable(base, length)
    ensures Removable(base, length) ==> View(Unmap(m'.mem, root, base, length).mem, root) == View(m.mem, root)
  {
    hide MachineInv, View, PageNo, PageAt, Grew, Canonical, DecodeAddr, UnmapSome, Shape, RootsStay, AddPages;
    var n := Rounds(length);
    AddRefines(m, lv, roots, root, phys, base, mode, n);
    var lv' :| AddOk(m, roots, root, phys, base, mode, n, m', lv');
    if Removable(base, length) {
      SoundShape(m', lv', roots);
      UnmapRefines(m'.mem, lv', roots, root, base, n);
      ViewLevels(m'.mem, root);
      RangeIsSmall(View(m.mem, root), View(m'.mem, root), phys, base, mode, n);
      FlatUnmapExact(View(m'.mem, root), base, n);
      Restored(View(m.mem, root), View(m'.mem, root), phys, base, mode, n);
    }
  }

  lemma RangeIsSmall(was: Flat, now: Flat, phys: nat, base: nat, mode: Mode, n: nat)
    requires RangeMapped(was, now, phys, base, mode, n)
    ensures forall p: nat :: p in now && InRange(p, base, n) ==> now[p].Mapped? && now[p].level == 1
  {
  }

  lemma Restored(was: Flat, now: Flat, phys: nat, base: nat, mode: Mode, n: nat)
    requires RangeMapped(was, now, phys, base, mode, n)
    requires forall p :: p in was ==> !InRange(p, base, n)
    ensures (map p | p in now && !InRange(p, base, n) :: now[p]) == was
  {
  }

  class ContiguousPhysRegion {
    const physBase: nat
    const length: nat
    const accessMode: Mode

    constructor (physBase: nat, length: nat, mode: Mode)
      ensures this.physBase == physBase && this.length == length && accessMode == mode
    {
      this.physBase, this.length, accessMode := physBase, length, mode;
    }

    // addedTo. The result is absent when a REQUIRE halted the kernel.
    method AddedTo(base: nat, pt: PageTable, ghost lv: map<nat, nat>, ghost roots: set<nat>) returns (r: Halting<int>)
      requires pt.Valid() && pt.Sound(lv, roots) && Rounds(length) <= PAGES
      requires this as object != pt
      modifies pt.memory`tables, pt.frames.Repr()
      ensures pt.Valid() && pt.frames.Repr() == old(pt.frames.Repr())
      ensures AddPages(old(pt.State()), pt.pml4Phys, physBase, base, accessMode, Rounds(length)) ==
              match r case Halted => Panic case Value(_) => Ret(pt.State(), 0)
    {
      hide MachineInv, View, PageTables.MapPage, Grew, RangeMapped;
      ghost var m, root, rounds := pt.State(), pt.pml4Phys, Rounds(length);
      ghost var i := 0;
      var off := 0;
      while off < length
        invariant i <= rounds && off == i * PAGE
        invariant pt.Valid() && pt.frames.Repr() == old(pt.frames.Repr())
        invariant AddPages(m, root, physBase, base, accessMode, i) == Ret(pt.State(), 0)
      {
        AddRefines(m, lv, roots, root, physBase, base, accessMode, i);
        ghost var m1 := pt.State();
        ghost var lv1 :| AddOk(m, roots, root, physBase, base, accessMode, i, m1, lv1);
        var err := pt.MapPage((physBase + off) % ADDR_LIMIT, (base + off) % ADDR_LIMIT, accessMode, lv1, roots);
        i := i + 1;
        AddUnfold(m, root, physBase, base, accessMode, i, m1);
        if err.Halted? || err.value != 0 {
          AddStops(m, root, physBase, base, accessMode, i, rounds);
          return Halted;
        }
        off := off + PAGE;
      }
      r := Value(0);
    }
  }

  lemma AddUnfold(m: Machine, root: nat, phys: nat, base: nat, mode: Mode, n: nat, m1: Machine)
    requires n > 0 && AddPages(m, root, phys, base, mode, n - 1) == Ret(m1, 0)
    ensures AddPages(m, root, phys, base, mode, n) ==
            match MapPage(m1, root, PageAt(phys, n - 1), PageAt(base, n - 1), mode)
            case Panic => Panic
            case Ret(m2, code) => if code != 0 then Panic else Ret(m2, 0)
  {
    hide MapPage, PageAt;
  }

  lemma {:induction false} AddStops(m: Machine, root: nat, phys: nat, base: nat, mode: Mode, k: nat, n: nat)
    requires k <= n && AddPages(m, root, phys, base, mode, k) == Panic
    ensures AddPages(m, root, phys, base, mode, n) == Panic
    decreases n
  {
    hide MapPage, PageAt;
    if k == n {
    } else {
      AddStops(m, root, phys, base, mode, k, n - 1);
    }
  }
}
