/** Whole address spaces: removing a range of pages, and copying one space to another. */
module VmSpaces {
  import opened VmState
  import opened VmOps
  import opened Clock

  /** Everything except the pages a <= index < b of address space m. */
  ghost function Minus<T>(v: map<Loc, T>, m: nat, a: nat, b: nat): map<Loc, T> {
    map l | l in v && !(l.mm == m && a <= PageIndex(l) < b) :: v[l]
  }

  /** Everything except address space m. */
  ghost function WithoutMm<T>(v: map<Loc, T>, m: nat): map<Loc, T> {
    map l | l in v && l.mm != m :: v[l]
  }

  ghost predicate AllInRange<T>(v: map<Loc, T>) { forall l :: l in v ==> InRange(l) }

  function LocOf(m: nat, n: nat): Loc { Loc(m, n / ENTRIES, n % ENTRIES) }

  lemma LocOfIndex(l: Loc)
    requires InRange(l)
    ensures PageIndex(l) < PAGES_PER_PD && LocOf(l.mm, PageIndex(l)) == l
  {
  }

  /** The page of a 32-bit address, as the hardware takes the address apart, and back. */
  lemma AddressPage(m: nat, addr: nat)
    requires addr < 0x1_0000_0000
    ensures var l := Loc(m, addr / 0x40_0000, addr / 0x1000 % 0x400);
      InRange(l) && PageIndex(l) == addr / 0x1000 < PAGES_PER_PD && LocOf(m, addr / 0x1000) == l
      && addr == l.dir * 0x40_0000 + l.ti * 0x1000 + addr % 0x1000
  {
    assert addr / 0x40_0000 == addr / 0x1000 / 0x400;
  }

  /** Every page is the page of an address. */
  lemma PageAddress(l: Loc)
    requires InRange(l)
    ensures var addr := l.dir * 0x40_0000 + l.ti * 0x1000;
      addr < 0x1_0000_0000 && addr / 0x40_0000 == l.dir && addr / 0x1000 % 0x400 == l.ti
  {
    var addr := l.dir * 0x40_0000 + l.ti * 0x1000;
    assert addr / 0x1000 == l.dir * 0x400 + l.ti;
  }

  lemma MinusStep<T>(v: map<Loc, T>, m: nat, a: nat, n: nat)
    requires AllInRange(v) && a <= n < PAGES_PER_PD
    ensures Minus(v, m, a, n + 1) == Minus(v, m, a, n) - {LocOf(m, n)}
  {
    var k := LocOf(m, n);
    assert PageIndex(k) == n;
    forall l | l in v && l.mm == m && PageIndex(l) == n ensures l == k { LocOfIndex(l); }
  }

  lemma MinusNone<T>(v: map<Loc, T>, m: nat, a: nat)
    ensures Minus(v, m, a, a) == v
  {
  }

  lemma MinusAll<T>(v: map<Loc, T>, m: nat)
    requires AllInRange(v)
    ensures Minus(v, m, 0, PAGES_PER_PD) == WithoutMm(v, m)
  {
    forall l | l in v ensures PageIndex(l) < PAGES_PER_PD { LocOfIndex(l); }
  }

  /** The pages of `parent` below index n, copied to `child`. */
  ghost function CopyTo<T>(v: map<Loc, T>, parent: nat, child: nat, n: nat): map<Loc, T> {
    var keys := set k | k in v && k.mm == parent && PageIndex(k) < n :: Loc(child, k.dir, k.ti);
    map l | l in v.Keys + keys :: if l in keys then v[Loc(parent, l.dir, l.ti)] else v[l]
  }

  /** The effect of fork on everything: the child gets a copy of each page of the parent. */
  ghost function ForkView<T>(v: map<Loc, T>, parent: nat, child: nat): map<Loc, T> {
    CopyTo(v, parent, child, PAGES_PER_PD)
  }

  lemma CopyNone<T>(v: map<Loc, T>, parent: nat, child: nat)
    ensures CopyTo(v, parent, child, 0) == v
  {
  }

  lemma CopyStep<T>(v: map<Loc, T>, parent: nat, child: nat, n: nat)
    requires AllInRange(v) && n < PAGES_PER_PD && parent != child && forall l :: l in v ==> l.mm != child
    ensures var p, c := LocOf(parent, n), LocOf(child, n);
            CopyTo(v, parent, child, n + 1) ==
            if p in v then CopyTo(v, parent, child, n)[c := v[p]] else CopyTo(v, parent, child, n)
  {
    var p, c := LocOf(parent, n), LocOf(child, n);
    assert PageIndex(p) == n;
    var keys0 := set k | k in v && k.mm == parent && PageIndex(k) < n :: Loc(child, k.dir, k.ti);
    var keys1 := set k | k in v && k.mm == parent && PageIndex(k) < n + 1 :: Loc(child, k.dir, k.ti);
    forall l | l in keys1 ensures l in keys0 || (l == c && p in v) {
      var k :| k in v && k.mm == parent && PageIndex(k) < n + 1 && l == Loc(child, k.dir, k.ti);
      if PageIndex(k) == n { LocOfIndex(k); }
    }
    assert p in v ==> c in keys1;
    assert keys1 == keys0 + (if p in v then {c} else {});
  }

  /** Nothing of the parent or of any third space moves, and the child is the parent's image. */
  lemma ForkIsCopy<T>(v: map<Loc, T>, parent: nat, child: nat)
    requires AllInRange(v) && parent != child && forall l :: l in v ==> l.mm != child
    ensures var v' := ForkView(v, parent, child);
            && (forall l: Loc :: l.mm != child ==> (l in v' <==> l in v) && (l in v ==> v'[l] == v[l]))
            && (forall l: Loc :: l.mm == child ==> (l in v' <==> Loc(parent, l.dir, l.ti) in v))
            && (forall l: Loc :: l.mm == child && l in v' ==> v'[l] == v[Loc(parent, l.dir, l.ti)])
            && WithoutMm(v', child) == v
  {
    var keys := set k | k in v && k.mm == parent && PageIndex(k) < PAGES_PER_PD :: Loc(child, k.dir, k.ti);
    forall l: Loc | l.mm == child && Loc(parent, l.dir, l.ti) in v ensures l in keys {
      LocOfIndex(Loc(parent, l.dir, l.ti));
    }
  }

  /** A fork that is undone half way leaves what was there before. */
  lemma PartialCopyUndone<T>(v: map<Loc, T>, parent: nat, child: nat, n: nat)
    requires parent != child && forall l :: l in v ==> l.mm != child
    ensures WithoutMm(CopyTo(v, parent, child, n), child) == v
  {
  }

  // ----- slots ------------------------------------------------------------------------------

  lemma ClearSlotKeeps(s: Vm, i: nat)
    requires Inv(s) && i < |s.slots| && s.slots[i].used && s.dirs == SlotCr3s(s.slots)
    ensures Inv(s.(slots := s.slots[i := MmSlot(false, 0, 0)]))
    ensures SlotCr3s(s.slots[i := MmSlot(false, 0, 0)]) == s.dirs - {s.slots[i].cr3}
  {
    hide SysOk, TablesOk, EntriesOk, CountsOk, SharingOk, SwapOk;
    SlotCr3sClear(s.slots, i);
  }

  /** A directory that no slot lists may be given a slot. */
  lemma RelistKeeps(s: Vm, i: nat, m: nat)
    requires Inv(s) && i < |s.slots| && !s.slots[i].used && m in s.dirs && m !in SlotCr3s(s.slots)
    ensures Inv(s.(slots := s.slots[i := MmSlot(true, m, 1)]))
    ensures SlotCr3s(s.slots[i := MmSlot(true, m, 1)]) == SlotCr3s(s.slots) + {m}
  {
    hide SysOk, TablesOk, EntriesOk, CountsOk, SharingOk, SwapOk;
    SlotCr3sSet(s.slots, i, MmSlot(true, m, 1));
    assert forall j :: 0 <= j < |s.slots| && s.slots[j].used ==> s.slots[j].cr3 in SlotCr3s(s.slots);
  }

  lemma RecountKeeps(s: Vm, i: nat, r: nat)
    requires Inv(s) && i < |s.slots| && s.slots[i].used && r > 0
    ensures Inv(s.(slots := s.slots[i := s.slots[i].(refs := r)]))
    ensures SlotCr3s(s.slots[i := s.slots[i].(refs := r)]) == SlotCr3s(s.slots)
  {
    hide SysOk, TablesOk, EntriesOk, CountsOk, SharingOk, SwapOk;
    var slots' := s.slots[i := s.slots[i].(refs := r)];
    assert SlotCr3s(slots') == SlotCr3s(s.slots) by {
      forall x | x in SlotCr3s(s.slots) ensures x in SlotCr3s(slots') {
        var j :| 0 <= j < |s.slots| && s.slots[j].used && s.slots[j].cr3 == x;
        assert slots'[j].cr3 == x && slots'[j].used;
      }
      forall x | x in SlotCr3s(slots') ensures x in SlotCr3s(s.slots) {
        var j :| 0 <= j < |slots'| && slots'[j].used && slots'[j].cr3 == x;
        assert s.slots[j].cr3 == x && s.slots[j].used;
      }
    }
  }

  // ----- progress of a fork ------------------------------------------------------------------

  /** Pages below n are copied: seen from outside the child nothing has changed, and the child's page n is still empty. */
  lemma CopyFrontier<T>(v: map<Loc, T>, parent: nat, child: nat, n: nat)
    requires AllInRange(v) && n < PAGES_PER_PD && parent != child && forall l :: l in v ==> l.mm != child
    ensures LocOf(child, n) !in CopyTo(v, parent, child, n)
    ensures LocOf(parent, n) in CopyTo(v, parent, child, n) <==> LocOf(parent, n) in v
    ensures LocOf(parent, n) in v ==> CopyTo(v, parent, child, n)[LocOf(parent, n)] == v[LocOf(parent, n)]
  {
    assert PageIndex(LocOf(child, n)) == n;
    forall k | k in v && k.mm == parent && PageIndex(k) < n ensures Loc(child, k.dir, k.ti) != LocOf(child, n) {
      LocOfIndex(k);
    }
  }

  lemma CopyEmptyRow<T>(v: map<Loc, T>, parent: nat, child: nat, i: nat)
    requires AllInRange(v) && i < DIRS && forall l :: l in v && l.mm == parent ==> l.dir != i
    ensures CopyTo(v, parent, child, (i + 1) * ENTRIES) == CopyTo(v, parent, child, i * ENTRIES)
  {
    var a := set k | k in v && k.mm == parent && PageIndex(k) < i * ENTRIES :: Loc(child, k.dir, k.ti);
    var b := set k | k in v && k.mm == parent && PageIndex(k) < (i + 1) * ENTRIES :: Loc(child, k.dir, k.ti);
    forall l | l in b ensures l in a {
      var k :| k in v && k.mm == parent && PageIndex(k) < (i + 1) * ENTRIES && l == Loc(child, k.dir, k.ti);
      assert PageIndex(k) < i * ENTRIES;
    }
    assert a == b;
  }

  /** The entries outside the child still name what they named when the fork began. */
  ghost predicate NamesKept(p0: map<Loc, Pte>, ptes: map<Loc, Pte>, child: nat) {
    SameNames(p0, WithoutMm(ptes, child))
  }

  lemma NamesKeptShare(p0: map<Loc, Pte>, ptes: map<Loc, Pte>, child: nat, l: Loc, c: Loc, e: Pte, e': Pte)
    requires NamesKept(p0, ptes, child) && l in ptes && l.mm != child && c.mm == child
    requires e.p == ptes[l].p && e.swapped == ptes[l].swapped && e.num == ptes[l].num
    ensures NamesKept(p0, ptes[l := e][c := e'], child)
  {
    assert WithoutMm(ptes[l := e][c := e'], child) == WithoutMm(ptes, child)[l := e];
  }

  lemma NamesKeptStart(p0: map<Loc, Pte>, child: nat)
    requires forall l :: l in p0 ==> l.mm != child
    ensures NamesKept(p0, p0, child)
  {
    assert WithoutMm(p0, child) == p0;
  }

  ghost function RowsOf(tables: map<TableId, nat>, m: nat, i: nat): set<TableId> {
    set t | t in tables && t.mm == m && t.dir < i
  }

  lemma RowsStep(tables: map<TableId, nat>, m: nat, i: nat)
    ensures |RowsOf(tables, m, i + 1)| == |RowsOf(tables, m, i)| + (if TableId(m, i) in tables then 1 else 0)
  {
    var t := TableId(m, i);
    assert RowsOf(tables, m, i + 1) == RowsOf(tables, m, i) + (if t in tables then {t} else {});
    assert t !in RowsOf(tables, m, i);
  }

  lemma RowsMono(tables: map<TableId, nat>, m: nat, i: nat, j: nat)
    requires i <= j
    ensures |RowsOf(tables, m, i)| <= |RowsOf(tables, m, j)|
    decreases j - i
  {
    if i < j {
      RowsStep(tables, m, j - 1);
      RowsMono(tables, m, i, j - 1);
    }
  }
}
