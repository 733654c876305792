// unmapPage, unmap and getPhysAddr, and runs of page table operations against the flat map.
module PageUnmap {
  import opened PageEntries
  import opened PageWalk
  import opened PageTables
  import opened PageMap

  const ERR_LARGE := -1
  const ERR_ARGUMENT := -1

  datatype Cleared = Cleared(mem: Mem, code: int)

  // The descent of unmapPage below a table.
  function UnmapFrom(mem: Mem, table: nat, level: nat, virt: nat, large: bool): Cleared
    requires 1 <= level <= 4
    decreases level
  {
    var i := Index(virt, level);
    var e := Entry(mem, table, i);
    if level == 1 then Cleared(Store(mem, table, i, 0), 1)
    else if !Present(e) then Cleared(mem, 0)
    else if level < 4 && LargePage(e) then
      if large then Cleared(Store(mem, table, i, 0), 1) else Cleared(mem, ERR_LARGE)
    else UnmapFrom(mem, TableAddr(e), level - 1, virt, large)
  }

  function UnmapPage(mem: Mem, root: nat, virt: nat, large: bool): Cleared {
    if !Canonical(virt) then Cleared(mem, ERR_NOT_CANONICAL) else UnmapFrom(mem, root, 4, virt, large)
  }

  // Address of the i-th page of a range; addresses wrap at 64 bits.
  function PageAt(virt: nat, i: nat): nat {
    (virt + i * PAGE) % ADDR_LIMIT
  }

  // The loop of unmap: the first n pages, stopping at the first error.
  function UnmapSome(mem: Mem, root: nat, virt: nat, n: nat): Cleared {
    if n == 0 then Cleared(mem, 0)
    else
      var before := UnmapSome(mem, root, virt, n - 1);
      if before.code < 0 then before
      else
        var r := UnmapPage(before.mem, root, PageAt(virt, n - 1), true);
        Cleared(r.mem, if r.code < 0 then r.code else 0)
  }

  function Unmap(mem: Mem, root: nat, virt: nat, length: nat): Cleared {
    if virt == 0 || virt % PAGE != 0 || length == 0 || length % PAGE != 0 then Cleared(mem, ERR_ARGUMENT)
    else UnmapSome(mem, root, virt, length / PAGE)
  }

  // getPhysAddr: the code it returns and what it leaves in its out parameters.
  datatype Resolved = Resolved(code: int, out: Translation)

  function GetPhysAddr(mem: Mem, root: nat, virt: nat): Resolved {
    if !Canonical(virt) then Resolved(-1, Unmapped)
    else
      var t := Walk(mem, root, virt);
      Resolved(if t.Mapped? && t.level == 1 then 1 else 0, t)
  }

  // ----- where a walk ends -----

  function EndLevel(mem: Mem, table: nat, level: nat, virt: nat): (k: nat)
    requires 1 <= level <= 4
    ensures 1 <= k <= level
    decreases level
  {
    var e := Entry(mem, table, Index(virt, level));
    if Links(e, level) then EndLevel(mem, TableAddr(e), level - 1, virt) else level
  }

  // unmapPage clears the entry the walk ends at, or leaves everything alone.
  lemma {:induction false} UnmapAtEnd(mem: Mem, table: nat, level: nat, virt: nat, large: bool)
    requires 1 <= level <= 4
    ensures var k := EndLevel(mem, table, level, virt);
            var at := TableOn(mem, table, level, virt, k);
            && at.At?
            && var e := Entry(mem, at.table, Index(virt, k));
            && !Links(e, k) && WalkFrom(mem, table, level, virt) == Leaf(e, k, virt)
            && UnmapFrom(mem, table, level, virt, large) ==
               (if k == 1 then Cleared(Store(mem, at.table, Index(virt, k), 0), 1)
                else if !Present(e) then Cleared(mem, 0)
                else if large then Cleared(Store(mem, at.table, Index(virt, k), 0), 1)
                else Cleared(mem, ERR_LARGE))
    ensures TableOn(mem, table, level, virt, 1).At? <==> EndLevel(mem, table, level, virt) == 1
    decreases level
  {
  }

  // ----- unmapPage against the flat map -----

  // Dropping the page virt is in, whatever its size.
  ghost function FlatUnmap(view: Flat, virt: nat): Flat {
    match Lookup(view, virt)
    case Unmapped => view
    case Mapped(_, _, k) =>
      if 1 <= k <= 4 then map p | p in view && Block(p * PAGE, k) != Block(virt, k) :: view[p] else view
  }

  predicate Refused(view: Flat, virt: nat, large: bool) {
    !Canonical(virt) || (Lookup(view, virt).Mapped? && Lookup(view, virt).level >= 2 && !large)
  }

  // The code: 1 also when the page table exists but its entry was already empty.
  ghost function UnmapCode(mem: Mem, root: nat, virt: nat, large: bool): int {
    if !Canonical(virt) then ERR_NOT_CANONICAL
    else if Refused(View(mem, root), virt, large) then ERR_LARGE
    else if Lookup(View(mem, root), virt).Mapped? || TableOn(mem, root, 4, virt, 1).At? then 1
    else 0
  }

  // No root table changes at all.
  ghost predicate RootsSame(mem: Mem, mem': Mem, roots: set<nat>) {
    forall s :: s in roots ==> s in mem && s in mem' && mem'[s] == mem[s]
  }

  lemma SameSharing(mem: Mem, mem': Mem, roots: set<nat>, r: nat, s: nat, j: nat)
    requires RootsSame(mem, mem', roots) && r in roots && s in roots
    ensures SharedSlot(mem', r, s, j) <==> SharedSlot(mem, r, s, j)
  {
  }

  ghost predicate UnmapOk(mem: Mem, lv: map<nat, nat>, roots: set<nat>, root: nat, virt: nat, large: bool, r: Cleared) {
    && Shape(r.mem, lv, roots) && r.mem.Keys == mem.Keys && RootsStay(mem, r.mem, roots) && RootsSame(mem, r.mem, roots)
    && OnlyClears(mem, r.mem)
    && r.code == UnmapCode(mem, root, virt, large)
    && View(r.mem, root) == (if Refused(View(mem, root), virt, large) then View(mem, root)
         else FlatUnmap(View(mem, root), virt))
    && (forall s :: s in roots && s != root ==>
          View(r.mem, s) == if !Refused(View(mem, root), virt, large) && SharedSlot(mem, root, s, Index(virt, 4))
                            then FlatUnmap(View(mem, s), virt) else View(mem, s))
  }

  lemma FlatClear(view: Flat, virt: nat, k: nat)
    requires 1 <= k <= 4 && (forall p :: p in view ==> p < PAGES)
    ensures FlatWrite(view, virt, k, 0) == map p | p in view && Block(p * PAGE, k) != Block(virt, k) :: view[p]
  {
  }

  lemma FlatUnmapIs(mem: Mem, s: nat, virt: nat, k: nat, e: nat)
    requires 1 <= k <= 4 && Walk(mem, s, virt) == Leaf(e, k, virt)
    requires Present(e) || k == 1
    ensures FlatUnmap(View(mem, s), virt) == FlatWrite(View(mem, s), virt, k, 0)
  {
    hide View, Walk, FlatWrite;
    var view := View(mem, s);
    ViewPages(mem, s);
    WalkIsLookup(mem, s, virt);
    FlatClear(view, virt, k);
    if !Present(e) {
      NotInView(mem, s, virt);
      assert view == map p | p in view && Block(p * PAGE, k) != Block(virt, k) :: view[p];
    }
  }

  lemma NotInView(mem: Mem, s: nat, virt: nat)
    requires Lookup(View(mem, s), virt) == Unmapped
    ensures forall p :: p in View(mem, s) ==> Block(p * PAGE, 1) != Block(virt, 1)
  {
    hide Walk;
    forall p | p in View(mem, s)
      ensures Block(p * PAGE, 1) != Block(virt, 1)
    {
      BlockOfPage(p);
    }
  }

  // Nothing happens: refused, or nothing was mapped.
  lemma UnmapNothing(mem: Mem, lv: map<nat, nat>, roots: set<nat>, root: nat, virt: nat, large: bool, code: int)
    requires Shape(mem, lv, roots) && root in roots
    requires code == UnmapCode(mem, root, virt, large)
    requires Refused(View(mem, root), virt, large) || Lookup(View(mem, root), virt) == Unmapped
    ensures UnmapOk(mem, lv, roots, root, virt, large, Cleared(mem, code))
  {
    hide View, UnmapCode;
    forall s | s in roots && s != root && !Refused(View(mem, root), virt, large)
        && SharedSlot(mem, root, s, Index(virt, 4))
      ensures FlatUnmap(View(mem, s), virt) == View(mem, s)
    {
      SharedWalk(mem, root, s, virt);
      WalkIsLookup(mem, root, virt);
      WalkIsLookup(mem, s, virt);
    }
  }

  lemma UnmapClears(mem: Mem, lv: map<nat, nat>, roots: set<nat>, root: nat, virt: nat, large: bool, k: nat, at: nat)
    requires Shape(mem, lv, roots) && root in roots && 1 <= k <= 3
    requires TableOn(mem, root, 4, virt, k) == At(at)
    requires var e := Entry(mem, at, Index(virt, k));
             && !Links(e, k) && Walk(mem, root, virt) == Leaf(e, k, virt) && (Present(e) || k == 1)
    requires !Refused(View(mem, root), virt, large) && UnmapCode(mem, root, virt, large) == 1
    ensures UnmapOk(mem, lv, roots, root, virt, large, Cleared(Store(mem, at, Index(virt, k), 0), 1))
  {
    hide View, UnmapCode, FlatUnmap, Refused, FlatWrite, RootsStay, RootsSame, OnlyClears, SharedSlot, Canonical, Index;
    var i, e := Index(virt, k), Entry(mem, at, Index(virt, k));
    TableOnLevel(mem, lv, roots, root, 4, virt, k);
    WriteLeafShape(mem, lv, roots, at, i, 0);
    var mem' := Write(mem, at, i, 0);
    forall s | s in roots
      ensures View(mem', s) == if s == root || SharedSlot(mem, root, s, Index(virt, 4))
                then FlatUnmap(View(mem, s), virt)
                               else View(mem, s)
    {
      WriteIsFlat(mem, lv, roots, root, virt, k, 0, s);
      if s == root || SharedSlot(mem, root, s, Index(virt, 4)) {
        if s != root {
          SharedWalk(mem, root, s, virt);
        }
        FlatUnmapIs(mem, s, virt, k, e);
      }
    }
    ClearKeepsRoots(mem, lv, roots, at, i);
    ClearsOne(mem, at, i);
  }

  lemma ClearsOne(mem: Mem, at: nat, i: nat)
    requires at in mem && i < |mem[at]|
    ensures OnlyClears(mem, Write(mem, at, i, 0))
  {
  }

  lemma ClearKeepsRoots(mem: Mem, lv: map<nat, nat>, roots: set<nat>, at: nat, i: nat)
    requires Shape(mem, lv, roots) && at in mem && lv[at] < 4 && i < 512
    ensures |mem[at]| == 512 && RootsStay(mem, Write(mem, at, i, 0), roots)
    ensures RootsSame(mem, Write(mem, at, i, 0), roots)
  {
  }

  // unmapPage drops exactly the page it ends at, below its root and the roots that share the slot.
  lemma UnmapPageRefines(mem: Mem, lv: map<nat, nat>, roots: set<nat>, root: nat, virt: nat, large: bool)
    requires Shape(mem, lv, roots) && root in roots
    ensures UnmapOk(mem, lv, roots, root, virt, large, UnmapPage(mem, root, virt, large))
  {
    hide View, UnmapOk, FlatUnmap, WalkFrom, UnmapFrom;
    var r := UnmapPage(mem, root, virt, large);
    if !Canonical(virt) {
      UnmapNothing(mem, lv, roots, root, virt, large, r.code);
    } else {
      UnmapAtEnd(mem, root, 4, virt, large);
      WalkIsLookup(mem, root, virt);
      var k := EndLevel(mem, root, 4, virt);
      var at := TableOn(mem, root, 4, virt, k).table;
      var e := Entry(mem, at, Index(virt, k));
      if k == 1 || (Present(e) && large) {
        UnmapClears(mem, lv, roots, root, virt, large, k, at);
      } else {
        UnmapNothing(mem, lv, roots, root, virt, large, r.code);
      }
    }
  }

  // ----- unmap: a range -----

  // The flat map after the first n pages of a range; the loop stops at the first address that is not canonical.
  ghost function FlatUnmapSome(view: Flat, virt: nat, n: nat): Flat {
    if n == 0 then view
    else
      var before := FlatUnmapSome(view, virt, n - 1);
      if CanonicalRange(virt, n) then FlatUnmap(before, PageAt(virt, n - 1)) else before
  }

  predicate CanonicalRange(virt: nat, n: nat) {
    forall i :: 0 <= i < n ==> Canonical(PageAt(virt, i))
  }

  // What a range unmap of another root does to a root: pages below the slots they share are dropped.
  ghost function FlatUnmapWhere(view: Flat, slots: set<nat>, virt: nat, n: nat): Flat {
    if n == 0 then view
    else
      var before := FlatUnmapWhere(view, slots, virt, n - 1);
      if CanonicalRange(virt, n) && Index(PageAt(virt, n - 1), 4) in slots then FlatUnmap(before, PageAt(virt, n - 1))
        else before
  }

  ghost function SharedSlots(mem: Mem, r: nat, s: nat): set<nat> {
    set j: nat | j < 512 && SharedSlot(mem, r, s, j)
  }

  ghost predicate UnmapSomeOk(mem: Mem, lv: map<nat, nat>, roots: set<nat>, root: nat, virt: nat, n: nat, r: Cleared) {
    && Shape(r.mem, lv, roots) && r.mem.Keys == mem.Keys && RootsStay(mem, r.mem, roots) && RootsSame(mem, r.mem, roots)
    && OnlyClears(mem, r.mem)
    && r.code == (if CanonicalRange(virt, n) then 0 else ERR_NOT_CANONICAL)
    && View(r.mem, root) == FlatUnmapSome(View(mem, root), virt, n)
    && (forall s :: s in roots && s != root ==>
         View(r.mem, s) == FlatUnmapWhere(View(mem, s), SharedSlots(mem, root, s), virt, n))
  }

  lemma UnmapNext(mem: Mem, lv: map<nat, nat>, roots: set<nat>, root: nat, virt: nat, n: nat, before: Cleared,
                  r: Cleared)
    requires n > 0 && CanonicalRange(virt, n - 1) && root in roots
    requires UnmapSomeOk(mem, lv, roots, root, virt, n - 1, before)
    requires UnmapOk(before.mem, lv, roots, root, PageAt(virt, n - 1), true, r)
    ensures UnmapSomeOk(mem, lv, roots, root, virt, n, Cleared(r.mem, if r.code < 0 then r.code else 0))
  {
    hide View, FlatUnmap, Shape, PageAt, Canonical, SharedSlot, RootsSame, RootsStay, UnmapCode, Index;
    var a := PageAt(virt, n - 1);
    forall s | s in roots && s != root
      ensures SharedSlot(before.mem, root, s, Index(a, 4)) <==> Index(a, 4) in SharedSlots(mem, root, s)
    {
      SameSharing(mem, before.mem, roots, root, s, Index(a, 4));
    }
    SameTrans(mem, before.mem, r.mem, roots);
    NeverRefused(before.mem, root, a, r.code);
    assert CanonicalRange(virt, n) <==> Canonical(PageAt(virt, n - 1));
  }

  lemma SameTrans(a: Mem, b: Mem, c: Mem, roots: set<nat>)
    requires RootsSame(a, b, roots) && RootsStay(a, b, roots) && RootsSame(b, c, roots) && RootsStay(b, c, roots)
    ensures RootsSame(a, c, roots) && RootsStay(a, c, roots)
  {
  }

  // With large pages allowed only an address that is not canonical is refused.
  lemma NeverRefused(mem: Mem, root: nat, virt: nat, code: int)
    requires code == UnmapCode(mem, root, virt, true)
    ensures Refused(View(mem, root), virt, true) <==> !Canonical(virt)
    ensures code == ERR_NOT_CANONICAL <==> !Canonical(virt)
    ensures code < 0 ==> code == ERR_NOT_CANONICAL
  {
  }

  // unmap over a range is the flat map with every page of the range dropped, and it succeeds exactly
  // when every address of the range is canonical.
  lemma {:induction false} UnmapRefines(mem: Mem, lv: map<nat, nat>, roots: set<nat>, root: nat, virt: nat, n: nat)
    requires Shape(mem, lv, roots) && root in roots
    ensures UnmapSomeOk(mem, lv, roots, root, virt, n, UnmapSome(mem, root, virt, n))
  {
    hide View, Shape, PageAt, Canonical, UnmapPage, UnmapOk;
    if n == 0 {
      Untouched(mem, lv, roots, root, virt);
    } else {
      UnmapRefines(mem, lv, roots, root, virt, n - 1);
      var before := UnmapSome(mem, root, virt, n - 1);
      if before.code >= 0 {
        assert CanonicalRange(virt, n - 1);
        UnmapPageRefines(before.mem, lv, roots, root, PageAt(virt, n - 1), true);
        UnmapNext(mem, lv, roots, root, virt, n, before, UnmapPage(before.mem, root, PageAt(virt, n - 1), true));
      }
    }
  }

  lemma Untouched(mem: Mem, lv: map<nat, nat>, roots: set<nat>, root: nat, virt: nat)
    requires Shape(mem, lv, roots)
    ensures UnmapSomeOk(mem, lv, roots, root, virt, 0, Cleared(mem, 0))
  {
  }

  // The pages a range covers.
  ghost predicate InRange(p: nat, virt: nat, n: nat) {
    exists i :: 0 <= i < n && PageNo(PageAt(virt, i)) == p
  }

  // Without large pages in the way, exactly the pages of the range go.
  lemma {:induction false} FlatUnmapExact(view: Flat, virt: nat, n: nat)
    requires CanonicalRange(virt, n)
    requires forall p :: p in view ==> p < PAGES && view[p].Mapped? && 1 <= view[p].level <= 4
    requires forall p :: p in view && InRange(p, virt, n) ==> view[p].level == 1
    ensures FlatUnmapSome(view, virt, n) == map p | p in view && !InRange(p, virt, n) :: view[p]
  {
    if n == 0 {
    } else {
      var a := PageAt(virt, n - 1);
      assert forall p :: InRange(p, virt, n) <==> InRange(p, virt, n - 1) || p == PageNo(a) by {
        forall p
          ensures InRange(p, virt, n) <==> InRange(p, virt, n - 1) || p == PageNo(a)
        {
          RangeSnoc(p, virt, n);
        }
      }
      FlatUnmapExact(view, virt, n - 1);
      FlatUnmapOne(FlatUnmapSome(view, virt, n - 1), a);
    }
  }

  lemma RangeSnoc(p: nat, virt: nat, n: nat)
    requires n > 0
    ensures InRange(p, virt, n) <==> InRange(p, virt, n - 1) || p == PageNo(PageAt(virt, n - 1))
  {
  }

  lemma FlatUnmapOne(view: Flat, virt: nat)
    requires forall p :: p in view ==> p < PAGES && view[p].Mapped?
    requires PageNo(virt) in view ==> view[PageNo(virt)].level == 1
    ensures FlatUnmap(view, virt) == map p | p in view && p != PageNo(virt) :: view[p]
  {
  }
}
