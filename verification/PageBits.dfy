// The page table operations in terms of the bits of addresses and entries, as the processor's manual gives
// them (Intel SDM Volume 3A, section 4.5): nothing here goes through the indices, masks and decoding of the model.
module PageBits {
  import opened Division
  import opened PageEntries
  import opened PageWalk
  import opened PageTables
  import opened PageMap
  import opened PageUnmap

  // ----- the split of an address -----

  // Table indices are nine bits each, from bit 12 up.
  lemma IndexBits(virt: nat)
    ensures Index(virt, 4) == virt / 0x80_0000_0000 % 512
    ensures Index(virt, 3) == virt / 0x4000_0000 % 512
    ensures Index(virt, 2) == virt / 0x20_0000 % 512
    ensures Index(virt, 1) == virt / 0x1000 % 512
  {
    var low, h := Low48(virt), virt / 0x1_0000_0000_0000;
    DivEquation(virt, 0x1_0000_0000_0000);
    IndexOf(low, h, 0x80_0000_0000, 0x200);
    IndexOf(low, h, 0x4000_0000, 0x4_0000);
    IndexOf(low, h, 0x20_0000, 0x800_0000);
    IndexOf(low, h, 0x1000, 0x10_0000_0000);
  }

  // Bits 48 and up add multiples of 512 to every quotient.
  lemma IndexOf(low: nat, h: nat, d: nat, n: nat)
    requires (d == 0x80_0000_0000 && n == 0x200) || (d == 0x4000_0000 && n == 0x4_0000)
             || (d == 0x20_0000 && n == 0x800_0000) || (d == 0x1000 && n == 0x10_0000_0000)
    ensures (low + 0x1_0000_0000_0000 * h) / d % 512 == low / d % 512
  {
    DivEquation(low, d);
    var q, k := low / d, n / 512;
    assert low + 0x1_0000_0000_0000 * h == d * (q + n * h) + low % d;
    DivUnique(low + 0x1_0000_0000_0000 * h, d, q + n * h, low % d);
    DivEquation(q, 512);
    assert q + n * h == 512 * (q / 512 + k * h) + q % 512;
    DivUnique(q + n * h, 512, q / 512 + k * h, q % 512);
  }

  // Addresses above bit 47 must repeat it.
  lemma CanonicalBits(virt: nat)
    requires virt < 0x1_0000_0000_0000_0000
    ensures Canonical(virt) <==> virt / 0x8000_0000_0000 == 0 || virt / 0x8000_0000_0000 == 0x1_FFFF
  {
  }

  // A table address is bits 12 to 62 of the entry, a frame address bits 12 to 51.
  lemma AddressBits(e: nat)
    ensures TableAddr(e) == e / 0x1000 % 0x8_0000_0000_0000 * 0x1000
    ensures DecodeAddr(e) == e / 0x1000 % 0x100_0000_0000 * 0x1000
  {
    var p, r := e / 0x1000, e % 0x1000;
    DivEquation(e, 0x1000);
    var a, b := p / 0x8_0000_0000_0000, p % 0x8_0000_0000_0000;
    DivEquation(p, 0x8_0000_0000_0000);
    assert e - r == 0x8000_0000_0000_0000 * a + 0x1000 * b;
    DivUnique(e - r, 0x8000_0000_0000_0000, a, 0x1000 * b);
    var c, d := p / 0x100_0000_0000, p % 0x100_0000_0000;
    DivEquation(p, 0x100_0000_0000);
    assert e == 0x10_0000_0000_0000 * c + (0x1000 * d + r);
    DivUnique(e, 0x10_0000_0000_0000, c, 0x1000 * d + r);
  }

  // Bit 1 allows writing, bit 2 hands the page to user space, bit 63 forbids execution.
  lemma ModeBits(e: nat)
    ensures var mode := DecodeMode(e);
            && (mode.kernelRead <==> e / 4 % 2 == 0) && (mode.userRead <==> e / 4 % 2 == 1)
            && (mode.kernelWrite <==> e / 4 % 2 == 0 && e / 2 % 2 == 1)
            && (mode.userWrite <==> e / 4 % 2 == 1 && e / 2 % 2 == 1)
            && (mode.kernelExec <==> e / 4 % 2 == 0 && e / 0x8000_0000_0000_0000 % 2 == 0)
            && (mode.userExec <==> e / 4 % 2 == 1 && e / 0x8000_0000_0000_0000 % 2 == 0)
  {
  }

  // A large page of 2^21 or 2^30 bytes starts at the frame bits from there up.
  lemma LargeBits(e: nat)
    ensures DecodeAddr(e) - DecodeAddr(e) % 0x20_0000 == e / 0x20_0000 % 0x8000_0000 * 0x20_0000
    ensures DecodeAddr(e) - DecodeAddr(e) % 0x4000_0000 == e / 0x4000_0000 % 0x40_0000 * 0x4000_0000
    ensures DecodeAddr(e) % 0x1000 == 0
  {
    hide DecodeAddr;
    AddressBits(e);
    var p := e / 0x1000;
    DivEquation(e, 0x1000);
    LargeStart(e, p, 0x200, 0x8000_0000);
    LargeStart(e, p, 0x4_0000, 0x40_0000);
    DivUnique(DecodeAddr(e), 0x1000, p % 0x100_0000_0000, 0);
  }

  lemma LargeStart(e: nat, p: nat, n: nat, m: nat)
    requires (n == 0x200 && m == 0x8000_0000) || (n == 0x4_0000 && m == 0x40_0000)
    requires 0x1000 * p <= e < 0x1000 * p + 0x1000
    ensures var a, d := p % 0x100_0000_0000 * 0x1000, n * 0x1000;
            a - a % d == e / d % m * d
  {
    var d := n * 0x1000;
    var q, s := p / n, p % n;
    DivEquation(p, n);
    DivUnique(e, d, q, 0x1000 * s + (e - 0x1000 * p));
    var c, b := q / m, q % m;
    DivEquation(q, m);
    assert p == 0x100_0000_0000 * c + (n * b + s);
    DivUnique(p, 0x100_0000_0000, c, n * b + s);
    DivUnique((n * b + s) * 0x1000, d, b, s * 0x1000);
  }

  // The walk, entry by entry: four tables of 512 entries, a page where bit 7 is set in the second or third.
  lemma WalkBits(mem: Mem, root: nat, virt: nat)
    ensures Walk(mem, root, virt) ==
            var e4 := Entry(mem, root, virt / 0x80_0000_0000 % 512);
            var e3 := Entry(mem, e4 / 0x1000 % 0x8_0000_0000_0000 * 0x1000, virt / 0x4000_0000 % 512);
            var e2 := Entry(mem, e3 / 0x1000 % 0x8_0000_0000_0000 * 0x1000, virt / 0x20_0000 % 512);
            var e1 := Entry(mem, e2 / 0x1000 % 0x8_0000_0000_0000 * 0x1000, virt / 0x1000 % 512);
            if e4 % 2 == 0 || e3 % 2 == 0 then Unmapped
            else if e3 / 0x80 % 2 == 1 then
              Mapped(e3 / 0x4000_0000 % 0x40_0000 * 0x4000_0000 + virt % 0x4000_0000, DecodeMode(e3), 3)
            else if e2 % 2 == 0 then Unmapped
            else if e2 / 0x80 % 2 == 1 then
              Mapped(e2 / 0x20_0000 % 0x8000_0000 * 0x20_0000 + virt % 0x20_0000, DecodeMode(e2), 2)
            else if e1 % 2 == 0 then Unmapped
            else Mapped(e1 / 0x1000 % 0x100_0000_0000 * 0x1000 + virt % 0x1000, DecodeMode(e1), 1)
  {
    hide Index, TableAddr, DecodeAddr, DecodeMode;
    IndexBits(virt);
    var e4 := Entry(mem, root, Index(virt, 4));
    AddressBits(e4);
    var e3 := Entry(mem, TableAddr(e4), Index(virt, 3));
    AddressBits(e3);
    LargeBits(e3);
    var e2 := Entry(mem, TableAddr(e3), Index(virt, 2));
    AddressBits(e2);
    LargeBits(e2);
    var e1 := Entry(mem, TableAddr(e2), Index(virt, 1));
    AddressBits(e1);
    LargeBits(e1);
  }

  // ----- mapPage -----

  // Do two addresses lie in the same 4 KB page of the 48-bit space?
  predicate SamePage(v: nat, w: nat) {
    v % 0x1_0000_0000_0000 / 0x1000 == w % 0x1_0000_0000_0000 / 0x1000
  }

  // Which of the six accesses a page allows once mapped: user space or kernel, never both; always reading
  // and executing, and writing if any write was asked for.
  predicate Grants(got: Mode, asked: Mode) {
    var user := asked.userRead || asked.userWrite || asked.userExec;
    var write := asked.kernelWrite || asked.userWrite;
    && got.kernelRead == !user && got.kernelWrite == (!user && write) && got.kernelExec == !user
    && got.userRead == user && got.userWrite == (user && write) && got.userExec == user
  }

  // The code says what stood in the way, and a refused request changes no translation.
  ghost predicate MapCode(mem: Mem, root: nat, virt: nat, code: int) {
    var was := Walk(mem, root, virt);
    code == if 0x8000_0000_0000 <= virt < 0xFFFF_8000_0000_0000 then -1000
            else if was.Mapped? && was.level == 3 then -1002
            else if was.Mapped? && was.level == 2 then -1003
            else 0
  }

  // The page translates to bits 12 to 51 of the frame address, with the access asked for.
  ghost predicate MappedTo(mem: Mem, root: nat, v: nat, phys: nat, mode: Mode) {
    var now := Walk(mem, root, v);
    && now.Mapped? && now.level == 1
    && now.phys == phys / 0x1000 % 0x100_0000_0000 * 0x1000 + v % 0x1000
    && Grants(now.mode, mode)
  }

  // After mapPage exactly the addresses of the page translate to the frame, every other one as before. Where writing
  // was asked for, no table on the way forbids it.
  lemma MapPageBits(m: Machine, lv: map<nat, nat>, roots: set<nat>, root: nat, phys: nat, virt: nat, mode: Mode)
    requires MachineInv(m, lv, roots) && root in roots && MapPage(m, root, phys, virt, mode).Ret?
    ensures var r := MapPage(m, root, phys, virt, mode);
            && MapCode(m.mem, root, virt, r.code)
            && forall v ::
                 if r.code == 0 && SamePage(v, virt) then
                   && MappedTo(r.m.mem, root, v, phys, mode)
                   && (mode.kernelWrite || mode.userWrite ==> AllowsWrites(r.m.mem, root, 4, v))
                 else Walk(r.m.mem, root, v) == Walk(m.mem, root, v)
  {
    hide MachineInv, View, MapPage, SharedSlot, MapCode, MappedTo, SamePage, Lookup, AllowsWrites;
    var r := MapPage(m, root, phys, virt, mode);
    MapPageRefines(m, lv, roots, root, phys, virt, mode);
    var lv' :| MapPageOk(m, lv, roots, root, phys, virt, mode, r.m, r.code, lv');
    MapCodeIs(m.mem, root, virt, r.code);
    forall v
      ensures if r.code == 0 && SamePage(v, virt) then
                && MappedTo(r.m.mem, root, v, phys, mode)
                && (mode.kernelWrite || mode.userWrite ==> AllowsWrites(r.m.mem, root, 4, v))
              else Walk(r.m.mem, root, v) == Walk(m.mem, root, v)
    {
      MapAt(m.mem, r.m.mem, root, phys, virt, mode, v);
      if r.code == 0 && SamePage(v, virt) && (mode.kernelWrite || mode.userWrite) {
        WantsWriting(r.m.mem, root, v, phys, mode);
        MayWrite(r.m, lv', roots, root, v);
      }
    }
  }

  lemma WantsWriting(mem: Mem, root: nat, v: nat, phys: nat, mode: Mode)
    requires MappedTo(mem, root, v, phys, mode) && (mode.kernelWrite || mode.userWrite)
    ensures var w := Walk(mem, root, v); w.Mapped? && (w.mode.kernelWrite || w.mode.userWrite)
  {
    hide Walk;
  }

  lemma MapCodeIs(mem: Mem, root: nat, virt: nat, code: int)
    requires code == FlatMapCode(View(mem, root), virt)
    ensures MapCode(mem, root, virt, code)
  {
    hide View, Walk;
    WalkIsLookup(mem, root, virt);
  }

  lemma MapAt(mem: Mem, mem': Mem, root: nat, phys: nat, virt: nat, mode: Mode, v: nat)
    requires View(mem', root) == FlatMapPage(View(mem, root), phys, virt, mode)
    ensures if FlatMapCode(View(mem, root), virt) == 0 && SamePage(v, virt) then MappedTo(mem', root, v, phys, mode)
            else Walk(mem', root, v) == Walk(mem, root, v)
  {
    hide View, Walk, DecodeAddr, FlatMapCode;
    WalkIsLookup(mem, root, v);
    WalkIsLookup(mem', root, v);
    AddressBits(phys);
  }

  // ----- unmapPage and unmap -----

  // Bytes mapped by one entry at each level.
  predicate SameBlockOf(v: nat, w: nat, level: nat) {
    var d := if level == 1 then 0x1000 else if level == 2 then 0x20_0000 else 0x4000_0000;
    v % 0x1_0000_0000_0000 / d == w % 0x1_0000_0000_0000 / d
  }

  // unmapPage removes the page an address lies in, whatever its size, and refuses a large page if told to.
  lemma UnmapPageBits(mem: Mem, lv: map<nat, nat>, roots: set<nat>, root: nat, virt: nat, large: bool)
    requires Shape(mem, lv, roots) && root in roots
    ensures var r := UnmapPage(mem, root, virt, large);
            var was := Walk(mem, root, virt);
            && (was.Mapped? ==> 1 <= was.level <= 3)
            && (0x8000_0000_0000 <= virt < 0xFFFF_8000_0000_0000 ==> r == Cleared(mem, -1000))
            && (!(0x8000_0000_0000 <= virt < 0xFFFF_8000_0000_0000) ==>
                  && r.code == (if was.Mapped? then if was.level >= 2 && !large then -1 else 1
                                else if TableOn(mem, root, 4, virt, 1).At? then 1 else 0)
                  && (r.code < 0 ==> r.mem == mem)
                  && (forall v :: Walk(r.mem, root, v) ==
                        if was.Mapped? && r.code == 1 && SameBlockOf(v, virt, was.level) then Unmapped
                        else Walk(mem, root, v)))
  {
    hide View, Walk, SharedSlot, UnmapFrom, TableOn, Shape;
    UnmapPageRefines(mem, lv, roots, root, virt, large);
    WalkIsLookup(mem, root, virt);
    var r := UnmapPage(mem, root, virt, large);
    var was := Walk(mem, root, virt);
    UnmapAtEnd(mem, root, 4, virt, large);
    WalkBits(mem, root, virt);
    if Canonical(virt) {
      forall v
        ensures Walk(r.mem, root, v) ==
                if was.Mapped? && r.code == 1 && SameBlockOf(v, virt, was.level) then Unmapped else Walk(mem, root, v)
      {
        WalkIsLookup(mem, root, v);
        WalkIsLookup(r.mem, root, v);
        if was.Mapped? {
          PageStart(v, was.level);
        }
      }
    }
  }

  // The i-th page address of a range, wrapping at 64 bits as the loop computes it.
  predicate NotCanonicalAt(virt: nat, i: nat) {
    0x8000_0000_0000 <= (virt + i * 0x1000) % 0x1_0000_0000_0000_0000 < 0xFFFF_8000_0000_0000
  }

  ghost predicate PageOfRange(v: nat, virt: nat, n: nat) {
    exists i :: 0 <= i < n && SamePage(v, (virt + i * 0x1000) % 0x1_0000_0000_0000_0000)
  }

  // unmap wants a page aligned address other than null and a whole positive number of pages. It then fails
  // exactly when it meets an address that is not canonical, and without large pages in the range it removes
  // exactly the pages of the range.
  lemma UnmapBits(mem: Mem, lv: map<nat, nat>, roots: set<nat>, root: nat, virt: nat, length: nat)
    requires Shape(mem, lv, roots) && root in roots
    ensures var r := Unmap(mem, root, virt, length);
            var n := length / 0x1000;
            if virt == 0 || virt % 0x1000 != 0 || length == 0 || length % 0x1000 != 0 then r == Cleared(mem, -1)
            else
              && r.code == (if exists i :: 0 <= i < n && NotCanonicalAt(virt, i) then -1000 else 0)
              && (r.code == 0 && (forall v :: PageOfRange(v, virt, n) && Walk(mem, root, v).Mapped? ==>
                                    Walk(mem, root, v).level == 1) ==>
                    forall v :: Walk(r.mem, root, v) ==
                      if PageOfRange(v, virt, n) then Unmapped else Walk(mem, root, v))
  {
    hide View, Walk, Shape, SamePage, UnmapSome, FlatUnmapSome, SharedSlots, RootsStay, RootsSame;
    var n := length / 0x1000;
    UnmapRefines(mem, lv, roots, root, virt, n);
    var r := UnmapSome(mem, root, virt, n);
    assert CanonicalRange(virt, n) <==> !exists i :: 0 <= i < n && NotCanonicalAt(virt, i) by {
      CanonicalAt(virt, n);
    }
    if r.code == 0 && (forall v :: PageOfRange(v, virt, n) && Walk(mem, root, v).Mapped? ==>
                         Walk(mem, root, v).level == 1) {
      RangeGone(mem, r.mem, root, virt, n);
    }
  }

  lemma CanonicalAt(virt: nat, n: nat)
    ensures CanonicalRange(virt, n) <==> forall i :: 0 <= i < n ==> !NotCanonicalAt(virt, i)
  {
    forall i | 0 <= i < n
      ensures Canonical(PageAt(virt, i)) <==> !NotCanonicalAt(virt, i)
    {
    }
  }

  lemma RangePages(v: nat, virt: nat, n: nat)
    ensures PageOfRange(v, virt, n) <==> InRange(PageNo(v), virt, n)
    ensures PageOfRange(PageNo(v) * PAGE, virt, n) <==> PageOfRange(v, virt, n)
  {
    PageStart(v, 1);
    SamePages(v, virt, n);
    SamePages(PageNo(v) * PAGE, virt, n);
  }

  lemma SamePages(v: nat, virt: nat, n: nat)
    ensures PageOfRange(v, virt, n) <==> InRange(PageNo(v), virt, n)
  {
    hide Low48;
    if PageOfRange(v, virt, n) {
      var i :| 0 <= i < n && SamePage(v, (virt + i * 0x1000) % 0x1_0000_0000_0000_0000);
      PageNoIs(v, virt, i);
      assert PageNo(PageAt(virt, i)) == PageNo(v);
    }
    if InRange(PageNo(v), virt, n) {
      var i :| 0 <= i < n && PageNo(PageAt(virt, i)) == PageNo(v);
      PageNoIs(v, virt, i);
      assert SamePage(v, (virt + i * 0x1000) % 0x1_0000_0000_0000_0000);
    }
  }

  lemma PageNoIs(v: nat, virt: nat, i: nat)
    ensures SamePage(v, (virt + i * 0x1000) % 0x1_0000_0000_0000_0000) <==> PageNo(PageAt(virt, i)) == PageNo(v)
  {
  }

  lemma RangeGone(mem: Mem, mem': Mem, root: nat, virt: nat, n: nat)
    requires CanonicalRange(virt, n) && View(mem', root) == FlatUnmapSome(View(mem, root), virt, n)
    requires forall v :: PageOfRange(v, virt, n) && Walk(mem, root, v).Mapped? ==> Walk(mem, root, v).level == 1
    ensures forall v :: Walk(mem', root, v) == if PageOfRange(v, virt, n) then Unmapped else Walk(mem, root, v)
  {
    hide Walk, FlatUnmapSome, CanonicalRange, PageOfRange, InRange, Low48;
    var view := View(mem, root);
    ViewLevels(mem, root);
    forall p | p in view && InRange(p, virt, n)
      ensures view[p].level == 1
    {
      BlockOfPage(p);
      RangePages(p * PAGE, virt, n);
    }
    FlatUnmapExact(view, virt, n);
    forall v
      ensures Walk(mem', root, v) == if PageOfRange(v, virt, n) then Unmapped else Walk(mem, root, v)
    {
      RangePages(v, virt, n);
      WalkIsLookup(mem, root, v);
      WalkIsLookup(mem', root, v);
    }
  }
}
