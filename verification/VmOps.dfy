/**
 The kernel's elementary memory operations on a whole state. Each keeps the invariant, and
 each has a stated effect on the view of the address spaces.
 */
module VmOps {
  import opened FrameTable
  import opened VmState
  import opened VmSteps

  // ----- frames in transit -------------------------------------------------------------

  lemma FramesLen(s: Vm)
    requires Inv(s)
    ensures |s.frames.used| == |s.frames.refs|
  {
  }

  lemma LooseFrame(s: Vm, f: nat)
    requires Inv(s) && f in s.loose
    ensures f < |s.frames.refs| && PageRefs(s.ptes, f) == {}
  {
    hide SysOk, SlotsOk, TablesOk, EntriesOk, SharingOk, SwapOk;
    assert f in SysFrames(s);
    SysUnnamed(s.ptes, SysFrames(s), s.frames, f);
  }

  lemma FreeSlotUnnamed(s: Vm, k: nat)
    requires Inv(s) && k < |s.slotRefs| && s.slotRefs[k] == 0
    ensures SlotLocs(s.ptes, k) == {}
  {
    hide SysOk, SlotsOk, TablesOk, EntriesOk, SharingOk, CountsOk;
  }

  /** phys_alloc_frame gave out frame f. */
  ghost function HandOut(s: Vm, f: nat): Vm
    requires f < |s.frames.used| == |s.frames.refs|
  {
    s.(frames := AllocAt(s.frames, f), loose := s.loose + {f})
  }

  lemma HandOutKeeps(s: Vm, f: nat)
    requires Inv(s) && f < |s.frames.used| && !s.frames.used[f]
    ensures Inv(HandOut(s, f)) && View(HandOut(s, f)) == View(s)
  {
    hide SlotsOk, TablesOk, EntriesOk, CountsOk, SharingOk, SwapOk, ViewOf;
    FramesLen(s);
    CountsAlloc(s.ptes, SysFrames(s), s.frames, f);
    assert SysFrames(HandOut(s, f)) == SysFrames(s) + {f};
    forall t | t in s.tables ensures s.tables[t] != f { assert s.tables[t] in SysFrames(s); }
  }

  /** phys_free_frame took back a frame that nothing names. */
  ghost function HandBack(s: Vm, f: nat): Vm
    requires |s.frames.used| == |s.frames.refs|
  {
    s.(frames := FreeAt(s.frames, f), loose := s.loose - {f})
  }

  lemma HandBackKeeps(s: Vm, f: nat)
    requires Inv(s) && f in s.loose
    ensures Inv(HandBack(s, f)) && View(HandBack(s, f)) == View(s)
  {
    hide SlotsOk, TablesOk, EntriesOk, CountsOk, SharingOk, SwapOk, ViewOf;
    FramesLen(s);
    CountsFree(s.ptes, SysFrames(s), s.frames, f);
    assert SysFrames(HandBack(s, f)) == SysFrames(s) - {f} by {
      assert f !in s.tables.Values;
    }
  }

  // ----- tables and directories --------------------------------------------------------

  ghost function AddTable(s: Vm, t: TableId, f: nat): Vm {
    s.(tables := s.tables[t := f], loose := s.loose - {f})
  }

  lemma AddTableKeeps(s: Vm, t: TableId, f: nat)
    requires Inv(s) && f in s.loose && t !in s.tables
    requires t.mm in s.dirs && t.dir < DIRS && t.dir !in s.kernelDirs
    ensures Inv(AddTable(s, t, f)) && View(AddTable(s, t, f)) == View(s)
  {
    hide SlotsOk, CountsOk, SharingOk, SwapOk, ViewOf;
    var s' := AddTable(s, t, f);
    ValuesAdd(s.tables, t, f);
    assert SysFrames(s') == SysFrames(s);
  }

  lemma ValuesAdd(m: map<TableId, nat>, t: TableId, f: nat)
    requires t !in m
    ensures m[t := f].Values == m.Values + {f}
  {
    assert m[t := f][t] == f;
    forall v | v in m.Values ensures v in m[t := f].Values {
      var k :| k in m && m[k] == v;
      assert m[t := f][k] == v;
    }
  }

  lemma ValuesDrop(m: map<TableId, nat>, t: TableId)
    requires t in m && forall k, k' :: k in m && k' in m && m[k] == m[k'] ==> k == k'
    ensures (m - {t}).Values == m.Values - {m[t]}
  {
    forall v | v in m.Values - {m[t]} ensures v in (m - {t}).Values {
      var k :| k in m && m[k] == v;
      assert (m - {t})[k] == v;
    }
  }

  /** Frees the frame of a page table that holds no entry any more. */
  ghost function DropTable(s: Vm, t: TableId): Vm
    requires t in s.tables && |s.frames.used| == |s.frames.refs|
  {
    s.(tables := s.tables - {t}, frames := FreeAt(s.frames, s.tables[t]))
  }

  lemma DropTableKeeps(s: Vm, t: TableId)
    requires Inv(s) && t in s.tables && forall l :: l in s.ptes ==> TableOf(l) != t
    ensures Inv(DropTable(s, t)) && View(DropTable(s, t)) == View(s)
  {
    hide SlotsOk, CountsOk, SharingOk, SwapOk, ViewOf;
    FramesLen(s);
    var s' := DropTable(s, t);
    var f := s.tables[t];
    assert f in SysFrames(s);
    CountsFree(s.ptes, SysFrames(s), s.frames, f);
    ValuesDrop(s.tables, t);
    assert SysFrames(s') == SysFrames(s) - {f};
  }

  ghost function AddMm(s: Vm, i: nat, f: nat): Vm
    requires i < |s.slots|
  {
    s.(slots := s.slots[i := MmSlot(true, f, 1)], dirs := s.dirs + {f}, loose := s.loose - {f})
  }

  lemma {:induction false} FewUsed(slots: seq<MmSlot>, n: nat)
    requires n <= |slots|
    ensures var ids := set i | 0 <= i < n && slots[i].used :: slots[i].cr3; |ids| <= n
  {
    if n > 0 {
      FewUsed(slots, n - 1);
      var a := set i | 0 <= i < n - 1 && slots[i].used :: slots[i].cr3;
      var b := set i | 0 <= i < n && slots[i].used :: slots[i].cr3;
      assert b <= a + {slots[n - 1].cr3};
      SubsetSize(b, a + {slots[n - 1].cr3});
    }
  }

  lemma {:induction false} SubsetSize(a: set<nat>, b: set<nat>)
    requires a <= b
    ensures |a| <= |b|
    decreases |a|
  {
    if a != {} {
      var x :| x in a;
      SubsetSize(a - {x}, b - {x});
    }
  }

  lemma FewerThanSlots(slots: seq<MmSlot>, i: nat)
    requires i < |slots| && !slots[i].used
    ensures |SlotCr3s(slots)| < |slots|
  {
    var rest := slots[..i] + slots[i + 1..];
    FewUsed(rest, |rest|);
    forall x | x in SlotCr3s(slots) ensures x in SlotCr3s(rest) {
      var j :| 0 <= j < |slots| && slots[j].used && slots[j].cr3 == x;
      var j' := if j < i then j else j - 1;
      assert rest[j'] == slots[j];
    }
    SubsetSize(SlotCr3s(slots), SlotCr3s(rest));
  }

  lemma SlotsAdd(slots: seq<MmSlot>, dirs: set<nat>, i: nat, f: nat)
    requires SlotsOk(slots, dirs) && dirs == SlotCr3s(slots) && i < |slots| && !slots[i].used && f !in dirs
    ensures SlotsOk(slots[i := MmSlot(true, f, 1)], dirs + {f})
    ensures SlotCr3s(slots[i := MmSlot(true, f, 1)]) == dirs + {f}
  {
    FewerThanSlots(slots, i);
    SlotCr3sSet(slots, i, MmSlot(true, f, 1));
  }

  lemma AddMmKeeps(s: Vm, i: nat, f: nat)
    requires Inv(s) && f in s.loose && i < |s.slots| && !s.slots[i].used && s.dirs == SlotCr3s(s.slots)
    ensures Inv(AddMm(s, i, f)) && View(AddMm(s, i, f)) == View(s)
    ensures AddMm(s, i, f).dirs == SlotCr3s(AddMm(s, i, f).slots)
  {
    hide SlotsOk, EntriesOk, CountsOk, SharingOk, SwapOk, ViewOf, SlotCr3s;
    SlotsAdd(s.slots, s.dirs, i, f);
    assert SysFrames(AddMm(s, i, f)) == SysFrames(s);
  }

  lemma SlotCr3sSet(slots: seq<MmSlot>, i: nat, m: MmSlot)
    requires i < |slots| && !slots[i].used && m.used
    ensures SlotCr3s(slots[i := m]) == SlotCr3s(slots) + {m.cr3}
  {
    var slots' := slots[i := m];
    assert slots'[i].cr3 in SlotCr3s(slots');
    forall x | x in SlotCr3s(slots) ensures x in SlotCr3s(slots') {
      var j :| 0 <= j < |slots| && slots[j].used && slots[j].cr3 == x;
      assert slots'[j] == slots[j];
    }
  }

  lemma SlotCr3sClear(slots: seq<MmSlot>, i: nat)
    requires i < |slots| && slots[i].used
    requires forall j, k | 0 <= j < |slots| && 0 <= k < |slots| && slots[j].used && slots[k].used ::
          slots[j].cr3 == slots[k].cr3 ==> j == k
    ensures SlotCr3s(slots[i := MmSlot(false, 0, 0)]) == SlotCr3s(slots) - {slots[i].cr3}
  {
    var slots' := slots[i := MmSlot(false, 0, 0)];
    forall x | x in SlotCr3s(slots) - {slots[i].cr3} ensures x in SlotCr3s(slots') {
      var j :| 0 <= j < |slots| && slots[j].used && slots[j].cr3 == x;
      assert slots'[j] == slots[j];
    }
  }

  /** Frees the frame of a directory without tables. */
  ghost function DropDir(s: Vm, m: nat): Vm
    requires |s.frames.used| == |s.frames.refs|
  {
    s.(dirs := s.dirs - {m}, frames := FreeAt(s.frames, m))
  }

  lemma SlotsDropDir(slots: seq<MmSlot>, dirs: set<nat>, m: nat)
    requires SlotsOk(slots, dirs) && m in dirs && m !in SlotCr3s(slots)
    ensures SlotsOk(slots, dirs - {m})
  {
    forall i | 0 <= i < |slots| && slots[i].used ensures slots[i].cr3 in dirs - {m} {
      assert slots[i].cr3 in SlotCr3s(slots);
    }
  }

  lemma SysDropDir(s: Vm, m: nat)
    requires SysOk(s.reserved, s.dirs, s.loose, s.tables) && TablesOk(s.tables, s.dirs, s.kernelDirs)
    requires m in s.dirs && forall t :: t in s.tables ==> t.mm != m
    ensures SysOk(s.reserved, s.dirs - {m}, s.loose, s.tables) && TablesOk(s.tables, s.dirs - {m}, s.kernelDirs)
    ensures s.reserved + (s.dirs - {m}) + s.loose + s.tables.Values == SysFrames(s) - {m}
  {
    assert m !in s.tables.Values;
  }

  lemma DropDirKeeps(s: Vm, m: nat)
    requires Inv(s) && m in s.dirs && m !in SlotCr3s(s.slots) && forall t :: t in s.tables ==> t.mm != m
    ensures Inv(DropDir(s, m)) && View(DropDir(s, m)) == View(s)
  {
    hide SysOk, SlotsOk, TablesOk, EntriesOk, CountsOk, SharingOk, SwapOk, ViewOf, SlotCr3s;
    FramesLen(s);
    CountsFree(s.ptes, SysFrames(s), s.frames, m);
    SysDropDir(s, m);
    SlotsDropDir(s.slots, s.dirs, m);
  }

  // ----- entries ------------------------------------------------------------------------

  ghost function Counts(s: Vm): SlotCounts { SlotCounts(s.slotRefs, s.slotsUsed) }

  ghost function WithCounts(s: Vm, c: SlotCounts): Vm { s.(slotRefs := c.refs, slotsUsed := c.used) }

  /** Removes a present entry and drops its reference. */
  ghost function DropPage(s: Vm, l: Loc): Vm
    requires l in s.ptes && |s.frames.used| == |s.frames.refs|
  {
    s.(ptes := s.ptes - {l}, frames := UnrefAt(s.frames, s.ptes[l].num))
  }

  lemma DropPageKeeps(s: Vm, l: Loc)
    requires Inv(s) && l in s.ptes && s.ptes[l].p
    ensures Inv(DropPage(s, l)) && View(DropPage(s, l)) == View(s) - {l}
  {
    hide SysOk, SlotsOk, TablesOk, CountsOk, SharingOk, SwapOk;
    FramesLen(s);
    CountsDrop(s.ptes, SysFrames(s), s.frames, l);
    SwapDropPresent(s.ptes, s.swapOn, Counts(s), l);
    SharingDrop(s.ptes, l);
  }

  /** Removes a swapped entry and drops its slot reference. */
  ghost function DropSwapped(s: Vm, l: Loc): Vm
    requires l in s.ptes
  {
    WithCounts(s.(ptes := s.ptes - {l}), SlotUnrefAt(Counts(s), s.ptes[l].num))
  }

  lemma DropSwappedKeeps(s: Vm, l: Loc)
    requires Inv(s) && l in s.ptes && !s.ptes[l].p
    ensures Inv(DropSwapped(s, l)) && View(DropSwapped(s, l)) == View(s) - {l}
  {
    hide SysOk, SlotsOk, TablesOk, CountsOk, SharingOk, SwapOk;
    FramesLen(s);
    CountsDropAbsent(s.ptes, SysFrames(s), s.frames, l);
    SwapDrop(s.ptes, s.swapOn, Counts(s), l);
    SharingDrop(s.ptes, l);
  }

  /** Maps a frame in transit at an empty entry, with the given contents. */
  ghost function Install(s: Vm, l: Loc, e: Pte, page: Page): Vm
    requires e.num < |s.mem|
  {
    s.(ptes := s.ptes[l := e], loose := s.loose - {e.num}, mem := s.mem[e.num := page])
  }

  lemma InstallKeeps(s: Vm, l: Loc, e: Pte, page: Page)
    requires Inv(s) && l !in s.ptes && TableOf(l) in s.tables && l.ti < ENTRIES
    requires PresentShape(e, |s.mem|) && e.num in s.loose
    ensures Inv(Install(s, l, e, page))
    ensures View(Install(s, l, e, page)) == View(s)[l := PageView(page, e.w || e.cow)]
  {
    hide SlotsOk, TablesOk, CountsOk, SharingOk, SwapOk, ViewOf;
    FramesLen(s);
    var s' := Install(s, l, e, page);
    CountsInstall(s.ptes, SysFrames(s), s.frames, l, e);
    assert SysFrames(s') == SysFrames(s) - {e.num} by {
      assert e.num !in s.tables.Values;
    }
    SwapAddPresent(s.ptes, s.swapOn, Counts(s), l, e);
    SharingAdd(s.ptes, l, e);
    InstallView(s.ptes, s.mem, s.swap, l, e, page);
  }

  lemma InstallView(ptes: map<Loc, Pte>, mem: seq<Page>, swap: seq<Page>, l: Loc, e: Pte, page: Page)
    requires e.p && e.num < |mem| && PageRefs(ptes, e.num) == {}
    ensures ViewOf(ptes[l := e], mem[e.num := page], swap) == ViewOf(ptes, mem, swap)[l := PageView(page, e.w || e.cow)]
  {
    forall k | k in ptes && ptes[k].p ensures ptes[k].num != e.num {
      assert k !in PageRefs(ptes, e.num);
    }
  }

  /** Whatever shares with an entry stands at the same page, and is read-only unless it is that entry. */
  lemma Sharers(ptes: map<Loc, Pte>, l: Loc)
    requires SharingOk(ptes) && l in ptes
    ensures ptes[l].p ==> forall k :: k in PageRefs(ptes, ptes[l].num) ==>
              k.dir == l.dir && k.ti == l.ti && (ptes[k].w || ptes[l].w ==> k == l)
    ensures !ptes[l].p ==> forall k :: k in ptes && !ptes[k].p && ptes[k].num == ptes[l].num ==>
              k.dir == l.dir && k.ti == l.ti
  {
  }

  /** Changes flag bits only: the entries keep naming what they name and allow what they allowed. */
  ghost predicate Reflagged(ptes: map<Loc, Pte>, ptes': map<Loc, Pte>) {
    && SameNames(ptes, ptes')
    && (forall l :: l in ptes && ptes[l].p ==>
          ptes'[l].u && !(ptes'[l].w && ptes'[l].cow)
          && (ptes'[l].w ==> ptes[l].w || PageRefs(ptes, ptes[l].num) == {l}))
    && (forall l :: l in ptes && !ptes[l].p ==> ptes'[l] == ptes[l])
  }

  lemma ReflagKeeps(s: Vm, ptes': map<Loc, Pte>)
    requires Inv(s) && Reflagged(s.ptes, ptes')
    ensures Inv(s.(ptes := ptes'))
    ensures (forall l :: l in s.ptes ==> (s.ptes[l].w || s.ptes[l].cow) == (ptes'[l].w || ptes'[l].cow))
            ==> View(s.(ptes := ptes')) == View(s)
  {
    hide SysOk, SlotsOk, TablesOk, CountsOk, SharingOk, SwapOk;
    CountsSame(s.ptes, ptes', SysFrames(s), s.frames);
    SwapSame(s.ptes, ptes', s.swapOn, Counts(s));
    SharingUnmarked(s.ptes, ptes');
  }

  /** What fork leaves in the parent's entry and puts in the child's (kernel/paging.c:901-906). */
  function ForkPte(e: Pte): Pte { if e.w || e.cow then e.(cow := true, w := false) else e }

  ghost function SharePage(s: Vm, l: Loc, m: nat): Vm
    requires l in s.ptes && |s.frames.used| == |s.frames.refs|
  {
    var e := ForkPte(s.ptes[l]);
    s.(ptes := s.ptes[l := e][Loc(m, l.dir, l.ti) := e], frames := RefAt(s.frames, e.num))
  }

  /** The child's entry joins a page that is already read-only everywhere. */
  lemma AddSharerKeeps(s: Vm, l: Loc, c: Loc)
    requires Inv(s) && l in s.ptes && s.ptes[l].p && !s.ptes[l].w && c.dir == l.dir && c.ti == l.ti
    requires c.mm in s.dirs && TableOf(c) in s.tables && c !in s.ptes
    ensures var s' := s.(ptes := s.ptes[c := s.ptes[l]], frames := RefAt(s.frames, s.ptes[l].num));
            Inv(s') && View(s') == View(s)[c := View(s)[l]]
  {
    hide SysOk, SlotsOk, TablesOk, CountsOk, SharingOk, SwapOk;
    FramesLen(s);
    NoSaturation(s, l);
    CountsShare(s.ptes, SysFrames(s), s.frames, l, c, s.ptes[l]);
    SwapAddPresent(s.ptes, s.swapOn, Counts(s), c, s.ptes[l]);
    Sharers(s.ptes, l);
    SharingAdd(s.ptes, c, s.ptes[l]);
  }

  lemma ForkPteKeeps(s: Vm, l: Loc)
    requires Inv(s) && l in s.ptes && s.ptes[l].p
    ensures var s' := s.(ptes := s.ptes[l := ForkPte(s.ptes[l])]); Inv(s') && View(s') == View(s)
  {
    hide SysOk, SlotsOk, TablesOk, CountsOk, SharingOk, SwapOk, ViewOf;
    ReflagKeeps(s, s.ptes[l := ForkPte(s.ptes[l])]);
  }

  lemma SharePageKeeps(s: Vm, l: Loc, m: nat)
    requires Inv(s) && l in s.ptes && s.ptes[l].p
    requires m in s.dirs && TableId(m, l.dir) in s.tables && Loc(m, l.dir, l.ti) !in s.ptes
    ensures Inv(SharePage(s, l, m))
    ensures View(SharePage(s, l, m)) == View(s)[Loc(m, l.dir, l.ti) := View(s)[l]]
  {
    hide Inv, ViewOf;
    FramesLen(s);
    ForkPteKeeps(s, l);
    AddSharerKeeps(s.(ptes := s.ptes[l := ForkPte(s.ptes[l])]), l, Loc(m, l.dir, l.ti));
  }

  ghost function ShareSwapped(s: Vm, l: Loc, m: nat): Vm
    requires l in s.ptes
  {
    WithCounts(s.(ptes := s.ptes[Loc(m, l.dir, l.ti) := s.ptes[l]]), SlotRefAt(Counts(s), s.ptes[l].num))
  }

  lemma ShareSwappedKeeps(s: Vm, l: Loc, m: nat)
    requires Inv(s) && l in s.ptes && !s.ptes[l].p
    requires m in s.dirs && TableId(m, l.dir) in s.tables && Loc(m, l.dir, l.ti) !in s.ptes
    ensures Inv(ShareSwapped(s, l, m))
    ensures View(ShareSwapped(s, l, m)) == View(s)[Loc(m, l.dir, l.ti) := View(s)[l]]
  {
    hide SysOk, SlotsOk, TablesOk, CountsOk, SharingOk, SwapOk;
    FramesLen(s);
    var e, c := s.ptes[l], Loc(m, l.dir, l.ti);
    NoSaturation(s, l);
    CountsAddAbsent(s.ptes, SysFrames(s), s.frames, c, e);
    SwapAdd(s.ptes, s.swapOn, Counts(s), c, e);
    Sharers(s.ptes, l);
    SharingAdd(s.ptes, c, e);
  }

  lemma PutBack(v: map<Loc, PageView>, l: Loc)
    requires l in v
    ensures (v - {l})[l := v[l]] == v
  {
  }

  // ----- swapping -----------------------------------------------------------------------

  function SwappedPte(e: Pte, k: nat): Pte { Pte(false, e.w, e.u, false, e.cow, true, k) }

  /** Writes a page to a free slot and drops its frame. */
  ghost function PageOut(s: Vm, l: Loc, k: nat): Vm
    requires l in s.ptes && s.ptes[l].num < |s.mem| && k < |s.swap| && |s.frames.used| == |s.frames.refs|
  {
    var e := s.ptes[l];
    WithCounts(
      s.(ptes := s.ptes[l := SwappedPte(e, k)], swap := s.swap[k := s.mem[e.num]], frames := UnrefAt(s.frames, e.num)),
      SlotRefAt(Counts(s), k))
  }

  lemma PageOutKeeps(s: Vm, l: Loc, k: nat)
    requires Inv(s) && l in s.ptes && s.ptes[l].p && !s.ptes[l].cow && s.frames.refs[s.ptes[l].num] == 1
    requires k < |s.slotRefs| && s.slotRefs[k] == 0
    ensures Inv(PageOut(s, l, k)) && View(PageOut(s, l, k)) == View(s)
    ensures !PageOut(s, l, k).frames.used[s.ptes[l].num]
  {
    hide SysOk, SlotsOk, TablesOk, CountsOk, SharingOk, SwapOk, ViewOf;
    FramesLen(s);
    var e, f := SwappedPte(s.ptes[l], k), s.ptes[l].num;
    var s' := PageOut(s, l, k);
    PresentFrame(s, l);
    DropPageKeeps(s, l);
    var d := DropPage(s, l);
    FreeSlotUnnamed(s, k);
    NoSlotUser(s.ptes, k);
    assert s'.ptes == d.ptes[l := e];
    CountsAddAbsent(d.ptes, SysFrames(d), d.frames, l, e);
    SwapAdd(d.ptes, d.swapOn, Counts(d), l, e);
    SharingAdd(d.ptes, l, e);
    PageOutView(s, l, k);
  }

  lemma NoSlotUser(ptes: map<Loc, Pte>, k: nat)
    requires SlotLocs(ptes, k) == {}
    ensures forall l :: l in ptes && IsSwapped(ptes[l]) ==> ptes[l].num != k
  {
    forall l | l in ptes && IsSwapped(ptes[l]) ensures ptes[l].num != k {
      assert l !in SlotLocs(ptes, k);
    }
  }

  lemma PageOutView(s: Vm, l: Loc, k: nat)
    requires Inv(s) && l in s.ptes && s.ptes[l].p && k < |s.swap|
    requires forall l :: l in s.ptes && IsSwapped(s.ptes[l]) ==> s.ptes[l].num != k
    ensures View(PageOut(s, l, k)) == View(s)
  {
    hide SysOk, SlotsOk, TablesOk, CountsOk, SharingOk, SwapOk;
    FramesLen(s);
    var s' := PageOut(s, l, k);
    forall j | j in s.ptes ensures View(s')[j] == View(s)[j] {
      assert PresentShape(s.ptes[j], |s.mem|) || SwappedShape(s.ptes[j], |s.swap|);
    }
  }

  /** Brings a swapped page back into a frame in transit and drops its slot reference. */
  ghost function PageIn(s: Vm, l: Loc, f: nat): Vm
    requires l in s.ptes && f < |s.mem| && s.ptes[l].num < |s.swap|
  {
    var e := s.ptes[l];
    WithCounts(
      s.(ptes := s.ptes[l := Pte(true, e.w, e.u, false, e.cow, false, f)], loose := s.loose - {f},
         mem := s.mem[f := s.swap[e.num]]),
      SlotUnrefAt(Counts(s), e.num))
  }

  lemma PageInKeeps(s: Vm, l: Loc, f: nat)
    requires Inv(s) && l in s.ptes && !s.ptes[l].p && f in s.loose
    ensures Inv(PageIn(s, l, f)) && View(PageIn(s, l, f)) == View(s)
  {
    hide SysOk, SlotsOk, TablesOk, CountsOk, SharingOk, SwapOk;
    FramesLen(s);
    assert SwappedShape(s.ptes[l], |s.swap|);
    var e := Pte(true, s.ptes[l].w, s.ptes[l].u, false, s.ptes[l].cow, false, f);
    LooseFrame(s, f);
    DropSwappedKeeps(s, l);
    var d := DropSwapped(s, l);
    InstallKeeps(d, l, e, s.swap[s.ptes[l].num]);
    assert d.ptes[l := e] == s.ptes[l := e];
    assert Install(d, l, e, s.swap[s.ptes[l].num]) == PageIn(s, l, f);
    PutBack(View(s), l);
  }

  // ----- copy on write ------------------------------------------------------------------

  /** Gives the faulting entry a private copy in a frame in transit and drops the shared one. */
  ghost function CowCopy(s: Vm, l: Loc, f: nat): Vm
    requires l in s.ptes && s.ptes[l].num < |s.mem| && f < |s.mem| && |s.frames.used| == |s.frames.refs|
  {
    var e := s.ptes[l];
    s.(ptes := s.ptes[l := Pte(true, true, e.u, false, false, false, f)], loose := s.loose - {f},
       mem := s.mem[f := s.mem[e.num]], frames := UnrefAt(s.frames, e.num))
  }

  lemma CowCopyKeeps(s: Vm, l: Loc, f: nat)
    requires Inv(s) && l in s.ptes && s.ptes[l].p && s.ptes[l].cow && f in s.loose
    ensures Inv(CowCopy(s, l, f)) && View(CowCopy(s, l, f)) == View(s)
  {
    hide SysOk, SlotsOk, TablesOk, CountsOk, SharingOk, SwapOk;
    FramesLen(s);
    assert PresentShape(s.ptes[l], |s.mem|);
    var e := Pte(true, true, s.ptes[l].u, false, false, false, f);
    LooseFrame(s, f);
    DropPageKeeps(s, l);
    var d := DropPage(s, l);
    InstallKeeps(d, l, e, s.mem[s.ptes[l].num]);
    assert d.ptes[l := e] == s.ptes[l := e];
    assert Install(d, l, e, s.mem[s.ptes[l].num]) == CowCopy(s, l, f);
    PutBack(View(s), l);
  }

  /** The last owner of a copy-on-write page just gets it back. */
  ghost function CowReclaim(s: Vm, l: Loc): Vm
    requires l in s.ptes
  {
    s.(ptes := s.ptes[l := s.ptes[l].(w := true, cow := false)])
  }

  lemma CowReclaimKeeps(s: Vm, l: Loc)
    requires Inv(s) && l in s.ptes && s.ptes[l].p && s.ptes[l].cow && s.frames.refs[s.ptes[l].num] <= 1
    ensures Inv(CowReclaim(s, l)) && View(CowReclaim(s, l)) == View(s)
  {
    hide SysOk, SlotsOk, TablesOk, CountsOk, SharingOk, SwapOk, ViewOf;
    PresentFrame(s, l);
    ReflagKeeps(s, CowReclaim(s, l).ptes);
  }

  // ----- the program's own stores --------------------------------------------------------

  ghost function StorePage(s: Vm, l: Loc, page: Page): Vm
    requires l in s.ptes && s.ptes[l].num < |s.mem|
  {
    s.(mem := s.mem[s.ptes[l].num := page], ptes := s.ptes[l := s.ptes[l].(a := true)])
  }

  /** A store through a writable entry changes that page of that address space and nothing else. */
  lemma StorePageKeeps(s: Vm, l: Loc, page: Page)
    requires Inv(s) && l in s.ptes && s.ptes[l].p && s.ptes[l].w
    ensures Inv(StorePage(s, l, page))
    ensures View(StorePage(s, l, page)) == View(s)[l := PageView(page, true)]
  {
    hide SysOk, SlotsOk, TablesOk, CountsOk, SharingOk, SwapOk;
    FramesLen(s);
    var s1 := s.(ptes := s.ptes[l := s.ptes[l].(a := true)]);
    ReflagKeeps(s, s1.ptes);
    Sharers(s.ptes, l);
    forall j | j in s.ptes && s.ptes[j].p && s.ptes[j].num == s.ptes[l].num ensures j == l {
      assert j in PageRefs(s.ptes, s.ptes[l].num);
    }
  }
}
