// The heap of 512-entry paging structures, the walk the processor makes through it, and the shape
// invariant under which one entry write has a predictable effect on every translation.
module PageWalk {
  import opened PhysicalMap
  import opened PageEntries

  // Paging structures by physical address. ReadTable and WriteTable access one entry.
  type Mem = map<nat, seq<nat>>

  function Entry(mem: Mem, table: nat, i: nat): nat {
    if table in mem && i < |mem[table]| then mem[table][i] else 0
  }

  function Write(mem: Mem, table: nat, i: nat, e: nat): Mem
    requires table in mem && i < |mem[table]|
  {
    var entries: seq<nat> := mem[table][i := e];
    mem[table := entries]
  }

  function ZeroTable(): (t: seq<nat>)
    ensures |t| == 512 && forall i :: 0 <= i < 512 ==> t[i] == 0
  {
    seq(512, _ => 0)
  }

  // Does an entry at this level lead to another table? The large-page bit counts at levels 2 and 3 only.
  predicate Links(e: nat, level: nat) {
    Present(e) && 2 <= level <= 4 && (level == 4 || !LargePage(e))
  }

  datatype Translation = Unmapped | Mapped(phys: nat, mode: Mode, level: nat)

  // The page an entry maps at a level that does not link further, with the in-page offset applied.
  function Leaf(e: nat, level: nat, virt: nat): Translation
    requires 1 <= level <= 4
  {
    if !Present(e) then Unmapped
    else Mapped(DecodeAddr(e) - DecodeAddr(e) % Span(level) + virt % Span(level), DecodeMode(e), level)
  }

  // The walk from a table at some level.
  function WalkFrom(mem: Mem, table: nat, level: nat, virt: nat): Translation
    requires 1 <= level <= 4
    decreases level
  {
    var e := Entry(mem, table, Index(virt, level));
    if Links(e, level) then WalkFrom(mem, TableAddr(e), level - 1, virt) else Leaf(e, level, virt)
  }

  // What the paging structures below a root translate an address to.
  function Walk(mem: Mem, root: nat, virt: nat): Translation {
    WalkFrom(mem, root, 4, virt)
  }

  datatype Place = NoTable | At(table: nat)

  // The table at level `to` that the walk of virt from a table at `level` goes through.
  function TableOn(mem: Mem, table: nat, level: nat, virt: nat, to: nat): Place
    requires 1 <= to <= level <= 4
    decreases level
  {
    if level == to then At(table)
    else
      var e := Entry(mem, table, Index(virt, level));
      if Links(e, level) then TableOn(mem, TableAddr(e), level - 1, virt, to) else NoTable
  }

  // ----- shape -----

  // The entry is a link from a table at its level to table c.
  ghost predicate Child(mem: Mem, lv: map<nat, nat>, t: nat, i: nat, c: nat) {
    t in mem && t in lv && i < 512 && Links(Entry(mem, t, i), lv[t]) && TableAddr(Entry(mem, t, i)) == c
  }

  // lv gives every table its level. Links descend one level; every table that is not a root has a
  // parent entry, and only one, except that roots may share what hangs off their upper halves.
  ghost predicate Shape(mem: Mem, lv: map<nat, nat>, roots: set<nat>) {
    && lv.Keys == mem.Keys
    && roots <= mem.Keys
    && (forall t :: t in mem ==> |mem[t]| == 512 && 1 <= lv[t] <= 4 && (t in roots <==> lv[t] == 4))
    && (forall t :: t in mem ==> t % PAGE == 0 && 0 < t < APERTURE_LENGTH - PAGE)
    && (forall t, i, c :: Child(mem, lv, t, i, c) ==> c in mem && lv[c] == lv[t] - 1)
    && (forall t, i, u, j, c :: Child(mem, lv, t, i, c) && Child(mem, lv, u, j, c) ==>
          i == j && (t == u || (lv[t] == 4 && lv[u] == 4 && i >= 256)))
    && (forall c :: c in mem && c !in roots ==> exists t, i :: Child(mem, lv, t, i, c))
  }

  lemma LinkedChild(mem: Mem, lv: map<nat, nat>, roots: set<nat>, t: nat, i: nat)
    requires Shape(mem, lv, roots) && t in mem && i < 512
    requires Links(Entry(mem, t, i), lv[t])
    ensures var c := TableAddr(Entry(mem, t, i)); Child(mem, lv, t, i, c) && c in mem && lv[c] == lv[t] - 1
  {
    assert Child(mem, lv, t, i, TableAddr(Entry(mem, t, i)));
  }

  lemma {:induction false} TableOnLevel(mem: Mem, lv: map<nat, nat>, roots: set<nat>, t: nat, level: nat, virt: nat,
                                        to: nat)
    requires Shape(mem, lv, roots) && t in mem && lv[t] == level && 1 <= to <= level <= 4
    ensures var p := TableOn(mem, t, level, virt, to); p.At? ==> p.table in mem && lv[p.table] == to
    decreases level
  {
    if level > to && Links(Entry(mem, t, Index(virt, level)), level) {
      LinkedChild(mem, lv, roots, t, Index(virt, level));
      TableOnLevel(mem, lv, roots, TableAddr(Entry(mem, t, Index(virt, level))), level - 1, virt, to);
    }
  }

  // The table one level up is on the path too, and links to this one.
  lemma {:induction false} TableAbove(mem: Mem, t: nat, level: nat, virt: nat, to: nat)
    requires 1 <= to < level <= 4
    requires TableOn(mem, t, level, virt, to).At?
    ensures var p := TableOn(mem, t, level, virt, to + 1);
            && p.At?
            && Links(Entry(mem, p.table, Index(virt, to + 1)), to + 1)
            && TableAddr(Entry(mem, p.table, Index(virt, to + 1))) == TableOn(mem, t, level, virt, to).table
    decreases level
  {
  }

  // From a table on its path onwards the walk is the walk from that table.
  lemma {:induction false} WalkVia(mem: Mem, t: nat, level: nat, virt: nat, to: nat)
    requires 1 <= to <= level <= 4
    requires TableOn(mem, t, level, virt, to).At?
    ensures WalkFrom(mem, t, level, virt) == WalkFrom(mem, TableOn(mem, t, level, virt, to).table, to, virt)
    decreases level
  {
  }

  // Two addresses that reach one table agree on all indices above it; if they started from different
  // roots, they did so through a shared upper-half slot.
  lemma {:induction false} PathUnique(mem: Mem, lv: map<nat, nat>, roots: set<nat>, r: nat, v: nat, s: nat, w: nat,
                                      to: nat)
    requires Shape(mem, lv, roots) && r in roots && s in roots && 1 <= to <= 3
    requires TableOn(mem, r, 4, v, to).At? && TableOn(mem, r, 4, v, to) == TableOn(mem, s, 4, w, to)
    ensures SameIndices(v, w, to + 1)
    ensures r == s || Index(v, 4) >= 256
    ensures TableOn(mem, r, 4, v, 3).At? && TableOn(mem, r, 4, v, 3) == TableOn(mem, s, 4, w, 3)
    decreases 4 - to
  {
    TableAbove(mem, r, 4, v, to);
    TableAbove(mem, s, 4, w, to);
    TableOnLevel(mem, lv, roots, r, 4, v, to + 1);
    TableOnLevel(mem, lv, roots, s, 4, w, to + 1);
    var p, q := TableOn(mem, r, 4, v, to + 1).table, TableOn(mem, s, 4, w, to + 1).table;
    var c := TableOn(mem, r, 4, v, to).table;
    assert Child(mem, lv, p, Index(v, to + 1), c) && Child(mem, lv, q, Index(w, to + 1), c);
    if to == 3 {
    } else {
      assert p == q;
      PathUnique(mem, lv, roots, r, v, s, w, to + 1);
    }
  }

  // ----- writing through the walk -----

  // Every link lets writes through: what may be written is up to the entry of the page.
  ghost predicate OpenLinks(mem: Mem, lv: map<nat, nat>) {
    forall t, i: nat :: t in lv && Links(Entry(mem, t, i), lv[t]) ==> (Entry(mem, t, i) / 2) % 2 == 1
  }

  // The processor allows a write only if every entry of the walk does.
  predicate AllowsWrites(mem: Mem, table: nat, level: nat, virt: nat)
    requires 1 <= level <= 4
    decreases level
  {
    var e := Entry(mem, table, Index(virt, level));
    e % 2 == 1 && (e / 2) % 2 == 1 && (Links(e, level) ==> AllowsWrites(mem, TableAddr(e), level - 1, virt))
  }

  // With open links it does so wherever the page's own mode has a write flag.
  lemma {:induction false} WalkWrites(mem: Mem, lv: map<nat, nat>, roots: set<nat>, t: nat, level: nat, virt: nat)
    requires Shape(mem, lv, roots) && OpenLinks(mem, lv) && t in mem && lv[t] == level
    requires var w := WalkFrom(mem, t, level, virt); w.Mapped? && (w.mode.kernelWrite || w.mode.userWrite)
    ensures AllowsWrites(mem, t, level, virt)
    decreases level
  {
    var e := Entry(mem, t, Index(virt, level));
    if Links(e, level) {
      LinkedChild(mem, lv, roots, t, Index(virt, level));
      WalkWrites(mem, lv, roots, TableAddr(e), level - 1, virt);
    }
  }

  // ----- the effect of one entry write -----

  // Does the walk of virt from root read entry i of table t (a table of that level)?
  ghost predicate Reads(mem: Mem, root: nat, virt: nat, t: nat, level: nat, i: nat)
    requires 1 <= level <= 4
  {
    TableOn(mem, root, 4, virt, level) == At(t) && Index(virt, level) == i
  }

  // A walk that does not read the written entry is unchanged.
  lemma {:induction false} WriteElsewhere(mem: Mem, lv: map<nat, nat>, roots: set<nat>, t: nat, level: nat, virt: nat,
                                          at: nat, i: nat, e: nat)
    requires Shape(mem, lv, roots) && t in mem && lv[t] == level
    requires at in mem && i < 512
    requires lv[at] > level || TableOn(mem, t, level, virt, lv[at]) != At(at) || Index(virt, lv[at]) != i
    ensures WalkFrom(Write(mem, at, i, e), t, level, virt) == WalkFrom(mem, t, level, virt)
    decreases level
  {
    var mem' := Write(mem, at, i, e);
    var j := Index(virt, level);
    assert Entry(mem', t, j) == Entry(mem, t, j);
    if Links(Entry(mem, t, j), level) {
      LinkedChild(mem, lv, roots, t, j);
      WriteElsewhere(mem, lv, roots, TableAddr(Entry(mem, t, j)), level - 1, virt, at, i, e);
    }
  }

  // The tables above the written one are still reached.
  lemma {:induction false} WriteBelow(mem: Mem, lv: map<nat, nat>, roots: set<nat>, t: nat, level: nat, virt: nat,
                                      at: nat, i: nat, e: nat)
    requires Shape(mem, lv, roots) && t in mem && lv[t] == level
    requires at in mem && i < 512 && lv[at] <= level
    ensures TableOn(Write(mem, at, i, e), t, level, virt, lv[at]) == TableOn(mem, t, level, virt, lv[at])
    decreases level
  {
    var mem' := Write(mem, at, i, e);
    if level > lv[at] {
      var j := Index(virt, level);
      assert Entry(mem', t, j) == Entry(mem, t, j);
      if Links(Entry(mem, t, j), level) {
        LinkedChild(mem, lv, roots, t, j);
        WriteBelow(mem, lv, roots, TableAddr(Entry(mem, t, j)), level - 1, virt, at, i, e);
      }
    }
  }

  // Writing an entry that does not link replaces the translation of exactly the addresses that read it.
  lemma WriteLeaf(mem: Mem, lv: map<nat, nat>, roots: set<nat>, root: nat, virt: nat, at: nat, i: nat, e: nat)
    requires Shape(mem, lv, roots) && root in roots
    requires at in mem && i < 512 && !Links(e, lv[at])
    ensures Walk(Write(mem, at, i, e), root, virt) ==
            if Reads(mem, root, virt, at, lv[at], i) then Leaf(e, lv[at], virt) else Walk(mem, root, virt)
  {
    var mem' := Write(mem, at, i, e);
    if Reads(mem, root, virt, at, lv[at], i) {
      WriteBelow(mem, lv, roots, root, 4, virt, at, i, e);
      WalkVia(mem', root, 4, virt, lv[at]);
      assert Entry(mem', at, i) == e;
    } else {
      WriteElsewhere(mem, lv, roots, root, 4, virt, at, i, e);
    }
  }

  // Replacing an entry that does not link by another one keeps the shape.
  lemma WriteLeafShape(mem: Mem, lv: map<nat, nat>, roots: set<nat>, at: nat, i: nat, e: nat)
    requires Shape(mem, lv, roots)
    requires at in mem && i < 512 && !Links(Entry(mem, at, i), lv[at]) && !Links(e, lv[at])
    ensures Shape(Write(mem, at, i, e), lv, roots)
  {
    var mem' := Write(mem, at, i, e);
    forall t, j, c
      ensures Child(mem', lv, t, j, c) <==> Child(mem, lv, t, j, c)
    {
      if t in mem && j < 512 && !(t == at && j == i) {
        assert Entry(mem', t, j) == Entry(mem, t, j);
      }
    }
    forall c | c in mem' && c !in roots
      ensures exists t, j :: Child(mem', lv, t, j, c)
    {
      var t, j :| Child(mem, lv, t, j, c);
      assert Child(mem', lv, t, j, c);
    }
  }

  // Addresses with the same indices go through the same tables.
  lemma {:induction false} SamePath(mem: Mem, t: nat, level: nat, v: nat, w: nat, to: nat)
    requires 1 <= to <= level <= 4
    requires forall k :: to < k <= level ==> Index(v, k) == Index(w, k)
    ensures TableOn(mem, t, level, v, to) == TableOn(mem, t, level, w, to)
    decreases level
  {
  }

  // Two roots whose slot j leads to one table.
  ghost predicate SharedSlot(mem: Mem, r: nat, s: nat, j: nat) {
    && Links(Entry(mem, r, j), 4) && Links(Entry(mem, s, j), 4)
    && TableAddr(Entry(mem, r, j)) == TableAddr(Entry(mem, s, j))
  }

  // A shared slot translates every address identically below both roots.
  lemma SharedWalk(mem: Mem, r: nat, s: nat, virt: nat)
    requires SharedSlot(mem, r, s, Index(virt, 4))
    ensures Walk(mem, r, virt) == Walk(mem, s, virt)
    ensures forall to :: 1 <= to <= 3 ==> TableOn(mem, r, 4, virt, to) == TableOn(mem, s, 4, virt, to)
  {
  }

  // Only upper-half slots are ever shared by different roots.
  lemma SharedIsUpper(mem: Mem, lv: map<nat, nat>, roots: set<nat>, r: nat, s: nat, j: nat)
    requires Shape(mem, lv, roots) && r in roots && s in roots && r != s && j < 512
    requires SharedSlot(mem, r, s, j)
    ensures j >= 256
  {
    var c := TableAddr(Entry(mem, r, j));
    assert Child(mem, lv, r, j, c) && Child(mem, lv, s, j, c);
  }

  // Which addresses read the entry that virt reads at level k below root: those in its block, below
  // root itself and below the roots that share the slot.
  lemma WhoReads(mem: Mem, lv: map<nat, nat>, roots: set<nat>, root: nat, virt: nat, k: nat, s: nat, v: nat)
    requires Shape(mem, lv, roots) && root in roots && s in roots && 1 <= k <= 3
    requires TableOn(mem, root, 4, virt, k).At?
    ensures Reads(mem, s, v, TableOn(mem, root, 4, virt, k).table, k, Index(virt, k)) <==>
            Block(v, k) == Block(virt, k) && (s == root || SharedSlot(mem, root, s, Index(virt, 4)))
  {
    var t := TableOn(mem, root, 4, virt, k).table;
    SameBlock(v, virt, k);
    if Reads(mem, s, v, t, k, Index(virt, k)) {
      PathUnique(mem, lv, roots, root, virt, s, v, k);
      assert Index(v, 4) == Index(virt, 4);
      TableAbove(mem, root, 4, virt, 3);
      TableAbove(mem, s, 4, v, 3);
    }
    if Block(v, k) == Block(virt, k) && (s == root || SharedSlot(mem, root, s, Index(virt, 4))) {
      assert SameIndices(v, virt, k);
      SamePath(mem, root, 4, v, virt, k);
      if s != root {
        assert Index(v, 4) == Index(virt, 4);
        SharedWalk(mem, root, s, v);
      }
    }
  }
}
