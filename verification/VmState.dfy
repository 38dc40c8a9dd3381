/**
 The state of virtual memory (kernel/paging.c over kernel/pmm.c) as a value, the invariant
 that every kernel step keeps, and the view of it that programs have: a map from virtual
 pages to contents and permission.
 */
module VmState {
  import opened FrameTable

  newtype Byte = x: int | 0 <= x < 256
  type Page = seq<Byte>

  const PAGE_SIZE: nat := 4096
  const DIRS: nat := 1024
  const ENTRIES: nat := 1024
  const PAGES_PER_PD: nat := 1048576
  /** A swap slot number has to fit the upper 20 bits of an entry (kernel/paging.c:367). */
  const SLOT_LIMIT: nat := 0x100000
  const U32: nat := 0x1_0000_0000

  function ZeroPage(): Page { seq(PAGE_SIZE, i => 0) }

  /** A page-table entry: its flag bits and its upper 20 bits (a frame or a swap slot). */
  datatype Pte = Pte(p: bool, w: bool, u: bool, a: bool, cow: bool, swapped: bool, num: nat)

  /** The entry word 0. */
  const ZERO_PTE := Pte(false, false, false, false, false, false, 0)

  predicate IsSwapped(e: Pte) { !e.p && e.swapped }

  /** One virtual page of one address space; `mm` is the frame of its page directory. */
  datatype Loc = Loc(mm: nat, dir: nat, ti: nat)
  datatype TableId = TableId(mm: nat, dir: nat)

  datatype MmSlot = MmSlot(used: bool, cr3: nat, refs: nat)

  /**
   `ptes` holds the entries that are not zero. `dirs` is the set of page directories in
   existence and `loose` the frames handed out by the allocator that nothing names yet.
   */
  datatype Vm = Vm(
    frames: Frames,
    mem: seq<Page>,
    slots: seq<MmSlot>,
    dirs: set<nat>,
    tables: map<TableId, nat>,
    ptes: map<Loc, Pte>,
    loose: set<nat>,
    reserved: set<nat>,
    kernelDirs: set<nat>,
    swapOn: bool,
    slotRefs: seq<nat>,
    slotsUsed: nat,
    swap: seq<Page>)

  /** What a lazily mapped region supplies for a page: its first contents and its permission. */
  datatype Fill = NoFill | Fill(page: Page, writable: bool)

  function PutByte(page: Page, off: nat, b: Byte): Page {
    if off < |page| then page[off := b] else page
  }

  function TableOf(l: Loc): TableId { TableId(l.mm, l.dir) }

  /** The entries naming frame f, and those naming swap slot k. */
  ghost function PageRefs(ptes: map<Loc, Pte>, f: nat): set<Loc> {
    set l | l in ptes && ptes[l].p && ptes[l].num == f
  }
  ghost function SlotLocs(ptes: map<Loc, Pte>, k: nat): set<Loc> {
    set l | l in ptes && IsSwapped(ptes[l]) && ptes[l].num == k
  }

  /** Frames that hold kernel memory, a page directory or a page table, or are in transit. */
  ghost function SysFrames(s: Vm): set<nat> {
    s.reserved + s.dirs + s.loose + s.tables.Values
  }

  ghost predicate SysOk(reserved: set<nat>, dirs: set<nat>, loose: set<nat>, tables: map<TableId, nat>) {
    && reserved !! dirs && reserved !! loose && dirs !! loose
    && (forall t :: t in tables ==> tables[t] !in reserved && tables[t] !in dirs && tables[t] !in loose)
    && (forall t, t' :: t in tables && t' in tables && tables[t] == tables[t'] ==> t == t')
    && 0 in reserved
  }

  /** Live slots name distinct directories; there are never more directories than slots. */
  ghost predicate SlotsOk(slots: seq<MmSlot>, dirs: set<nat>) {
    && |slots| <= REF_MAX
    && |dirs| <= |slots|
    && (forall i :: 0 <= i < |slots| && slots[i].used ==> slots[i].cr3 in dirs && slots[i].refs > 0)
    && (forall i, j | 0 <= i < |slots| && 0 <= j < |slots| && slots[i].used && slots[j].used ::
          slots[i].cr3 == slots[j].cr3 ==> i == j)
  }

  ghost predicate TablesOk(tables: map<TableId, nat>, dirs: set<nat>, kernelDirs: set<nat>) {
    forall t :: t in tables ==> t.mm in dirs && t.dir < DIRS && t.dir !in kernelDirs
  }

  predicate PresentShape(e: Pte, nframes: nat) {
    e.p && e.u && !e.swapped && e.num < nframes && !(e.w && e.cow)
  }

  predicate SwappedShape(e: Pte, nslots: nat) {
    !e.p && e.swapped && e.u && !e.cow && e.num < nslots
  }

  /** Entries live in existing tables; a present entry is a user entry and never both writable and COW. */
  ghost predicate EntriesOk(ptes: map<Loc, Pte>, tables: map<TableId, nat>, nframes: nat, nslots: nat) {
    && (forall l :: l in ptes ==> TableOf(l) in tables && l.ti < ENTRIES)
    && (forall l :: l in ptes ==> PresentShape(ptes[l], nframes) || SwappedShape(ptes[l], nslots))
  }

  ghost function Owners(ptes: map<Loc, Pte>, sys: set<nat>, f: nat): nat {
    (if f in sys then 1 else 0) + |PageRefs(ptes, f)|
  }

  /** Reference conservation for frames: every count is the number of names the frame has. */
  ghost predicate CountsOk(ptes: map<Loc, Pte>, sys: set<nat>, frames: Frames) {
    && FramesOk(frames)
    && (forall f :: f in sys ==> f < |frames.refs|)
    && (forall f :: 0 <= f < |frames.refs| ==> frames.refs[f] == Owners(ptes, sys, f))
    && (forall l :: l in ptes && ptes[l].p ==> ptes[l].num !in sys)
  }

  /** Entries that share a frame or a slot stand at the same virtual page, and a writable one shares with nobody. */
  ghost predicate SharingOk(ptes: map<Loc, Pte>) {
    && (forall l, l' | l in ptes && l' in ptes && ptes[l].p && ptes[l'].p && ptes[l].num == ptes[l'].num ::
          l.dir == l'.dir && l.ti == l'.ti && (ptes[l].w ==> l == l'))
    && (forall l, l' | l in ptes && l' in ptes && !ptes[l].p && !ptes[l'].p && ptes[l].num == ptes[l'].num ::
          l.dir == l'.dir && l.ti == l'.ti)
  }

  /** Reference conservation for swap slots. */
  ghost predicate SwapOk(ptes: map<Loc, Pte>, swapOn: bool, slotRefs: seq<nat>, slotsUsed: nat) {
    && |slotRefs| <= SLOT_LIMIT
    && (!swapOn ==> |slotRefs| == 0)
    && (forall k :: 0 <= k < |slotRefs| ==> slotRefs[k] == |SlotLocs(ptes, k)|)
    && slotsUsed == CountNonZero(slotRefs)
  }

  ghost predicate Inv(s: Vm) {
    && SysOk(s.reserved, s.dirs, s.loose, s.tables)
    && SlotsOk(s.slots, s.dirs)
    && TablesOk(s.tables, s.dirs, s.kernelDirs)
    && EntriesOk(s.ptes, s.tables, |s.frames.refs|, |s.slotRefs|)
    && CountsOk(s.ptes, SysFrames(s), s.frames)
    && SharingOk(s.ptes)
    && SwapOk(s.ptes, s.swapOn, s.slotRefs, s.slotsUsed)
    && |s.mem| == |s.frames.refs| && |s.swap| == |s.slotRefs|
  }

  ghost function SlotCr3s(slots: seq<MmSlot>): set<nat> {
    set i | 0 <= i < |slots| && slots[i].used :: slots[i].cr3
  }

  /** Between kernel steps nothing is in transit and the slot table lists every directory. */
  ghost predicate Quiet(s: Vm) {
    Inv(s) && s.loose == {} && s.dirs == SlotCr3s(s.slots)
  }

  // ----- what programs see ------------------------------------------------------------

  datatype PageView = PageView(contents: Page, writable: bool)

  ghost function Contents(e: Pte, mem: seq<Page>, swap: seq<Page>): Page {
    if e.p then (if e.num < |mem| then mem[e.num] else []) else (if e.num < |swap| then swap[e.num] else [])
  }

  ghost function ViewOf(ptes: map<Loc, Pte>, mem: seq<Page>, swap: seq<Page>): map<Loc, PageView> {
    map l | l in ptes :: PageView(Contents(ptes[l], mem, swap), ptes[l].w || ptes[l].cow)
  }

  /** Every address space at once: each mapped or swapped page with its contents and permission. */
  ghost function View(s: Vm): map<Loc, PageView> {
    ViewOf(s.ptes, s.mem, s.swap)
  }

  // ----- consequences -----------------------------------------------------------------

  lemma PageRefsSet(ptes: map<Loc, Pte>, l: Loc, e: Pte, f: nat)
    ensures PageRefs(ptes[l := e], f) == PageRefs(ptes, f) - {l} + (if e.p && e.num == f then {l} else {})
    ensures SlotLocs(ptes[l := e], f) == SlotLocs(ptes, f) - {l} + (if IsSwapped(e) && e.num == f then {l} else {})
  {
  }

  /** A new entry adds one name to the frame or slot it names and none to any other. */
  lemma RefsAdd(ptes: map<Loc, Pte>, l: Loc, e: Pte, f: nat)
    requires l !in ptes
    ensures |PageRefs(ptes[l := e], f)| == |PageRefs(ptes, f)| + (if e.p && e.num == f then 1 else 0)
    ensures |SlotLocs(ptes[l := e], f)| == |SlotLocs(ptes, f)| + (if IsSwapped(e) && e.num == f then 1 else 0)
  {
    PageRefsSet(ptes, l, e, f);
    assert PageRefs(ptes, f) - {l} == PageRefs(ptes, f) && SlotLocs(ptes, f) - {l} == SlotLocs(ptes, f);
  }

  lemma RefsDrop(ptes: map<Loc, Pte>, l: Loc, f: nat)
    requires l in ptes
    ensures |PageRefs(ptes - {l}, f)| == |PageRefs(ptes, f)| - (if ptes[l].p && ptes[l].num == f then 1 else 0)
    ensures |SlotLocs(ptes - {l}, f)| == |SlotLocs(ptes, f)| - (if IsSwapped(ptes[l]) && ptes[l].num == f then 1 else 0)
  {
    PageRefsDrop(ptes, l, f);
    assert l !in PageRefs(ptes, f) ==> PageRefs(ptes, f) - {l} == PageRefs(ptes, f);
    assert l !in SlotLocs(ptes, f) ==> SlotLocs(ptes, f) - {l} == SlotLocs(ptes, f);
  }

  lemma PageRefsDrop(ptes: map<Loc, Pte>, l: Loc, f: nat)
    ensures PageRefs(ptes - {l}, f) == PageRefs(ptes, f) - {l}
    ensures SlotLocs(ptes - {l}, f) == SlotLocs(ptes, f) - {l}
  {
  }

  lemma {:induction false} SameSpotBound(ls: set<Loc>, dirs: set<nat>)
    requires forall l, l' :: l in ls && l' in ls ==> l.dir == l'.dir && l.ti == l'.ti
    requires forall l :: l in ls ==> l.mm in dirs
    ensures |ls| <= |dirs|
    decreases |ls|
  {
    if ls != {} {
      var l :| l in ls;
      SameSpotBound(ls - {l}, dirs - {l.mm});
    }
  }

  /** The 16-bit counters cannot saturate: a frame or slot that is shared has a free count left. */
  lemma NoSaturation(s: Vm, l: Loc)
    requires Inv(s) && l in s.ptes
    requires exists m :: m in s.dirs && Loc(m, l.dir, l.ti) !in s.ptes
    ensures s.ptes[l].p ==> 0 < s.frames.refs[s.ptes[l].num] < REF_MAX
    ensures !s.ptes[l].p ==> 0 < s.slotRefs[s.ptes[l].num] < REF_MAX
  {
    var m :| m in s.dirs && Loc(m, l.dir, l.ti) !in s.ptes;
    var n := s.ptes[l].num;
    var ls := if s.ptes[l].p then PageRefs(s.ptes, n) else SlotLocs(s.ptes, n);
    assert l in ls;
    forall k | k in ls ensures k.mm in s.dirs - {m} {
      assert k == Loc(k.mm, l.dir, l.ti);
      assert TableOf(k) in s.tables;
    }
    SameSpotBound(ls, s.dirs - {m});
    assert |s.dirs - {m}| == |s.dirs| - 1;
    if s.ptes[l].p {
      assert s.frames.refs[n] == Owners(s.ptes, SysFrames(s), n) == |ls|;
    } else {
      assert s.slotRefs[n] == |ls|;
    }
  }

  /** Entry maps that name the same frames and slots at the same places. */
  ghost predicate SameNames(ptes: map<Loc, Pte>, ptes': map<Loc, Pte>) {
    && ptes.Keys == ptes'.Keys
    && (forall l :: l in ptes ==> ptes[l].p == ptes'[l].p && ptes[l].swapped == ptes'[l].swapped && ptes[l].num == ptes'[l].num)
  }

  lemma SameNamesSameRefs(ptes: map<Loc, Pte>, ptes': map<Loc, Pte>, f: nat)
    requires SameNames(ptes, ptes')
    ensures PageRefs(ptes, f) == PageRefs(ptes', f) && SlotLocs(ptes, f) == SlotLocs(ptes', f)
  {
  }

  lemma FramesDetermined(ptes: map<Loc, Pte>, ptes': map<Loc, Pte>, sys: set<nat>, p: Frames, q: Frames)
    requires SameNames(ptes, ptes') && |p.refs| == |q.refs|
    requires CountsOk(ptes, sys, p) && CountsOk(ptes', sys, q)
    ensures p == q
  {
    forall f | 0 <= f < |p.refs| ensures p.refs[f] == q.refs[f] {
      SameNamesSameRefs(ptes, ptes', f);
    }
    assert p.refs == q.refs;
    CountsDetermine(p, q);
  }

  lemma SlotsDetermined(ptes: map<Loc, Pte>, ptes': map<Loc, Pte>, on: bool, r: seq<nat>, r': seq<nat>, n: nat, n': nat)
    requires SameNames(ptes, ptes') && |r| == |r'|
    requires SwapOk(ptes, on, r, n) && SwapOk(ptes', on, r', n')
    ensures r == r' && n == n'
  {
    forall k | 0 <= k < |r| ensures r[k] == r'[k] {
      SameNamesSameRefs(ptes, ptes', k);
    }
    assert r == r';
  }

  /**
   The structure determines the accounts: two states whose directories, tables and entries
   name the same frames and slots agree on every counter and on the whole bitmap.
   */
  lemma AccountsDetermined(s: Vm, s': Vm)
    requires Inv(s) && Inv(s')
    requires |s.frames.refs| == |s'.frames.refs| && |s.slotRefs| == |s'.slotRefs| && s.swapOn == s'.swapOn
    requires s.dirs == s'.dirs && s.tables == s'.tables && s.loose == s'.loose && s.reserved == s'.reserved
    requires SameNames(s.ptes, s'.ptes)
    ensures s.frames == s'.frames && s.slotRefs == s'.slotRefs && s.slotsUsed == s'.slotsUsed
  {
    FramesDetermined(s.ptes, s'.ptes, SysFrames(s), s.frames, s'.frames);
    SlotsDetermined(s.ptes, s'.ptes, s.swapOn, s.slotRefs, s'.slotRefs, s.slotsUsed, s'.slotsUsed);
  }

  /** A frame that is not in use has no name at all. */
  lemma FreeFrameUnnamed(s: Vm, f: nat)
    requires Inv(s) && f < |s.frames.refs| && !s.frames.used[f]
    ensures f !in SysFrames(s) && PageRefs(s.ptes, f) == {}
  {
    assert s.frames.refs[f] == Owners(s.ptes, SysFrames(s), f) == 0;
  }

  /** A present entry's frame is in use and counted. */
  lemma PresentFrame(s: Vm, l: Loc)
    requires Inv(s) && l in s.ptes && s.ptes[l].p
    ensures var f := s.ptes[l].num;
            f < |s.frames.used| && s.frames.used[f] && s.frames.refs[f] == |PageRefs(s.ptes, f)| >= 1
            && (s.frames.refs[f] == 1 ==> PageRefs(s.ptes, f) == {l})
  {
    var f := s.ptes[l].num;
    assert l in PageRefs(s.ptes, f);
    assert s.frames.refs[f] == Owners(s.ptes, SysFrames(s), f);
    if |PageRefs(s.ptes, f)| == 1 { Singleton(PageRefs(s.ptes, f), l); }
  }

  lemma Singleton(ls: set<Loc>, l: Loc)
    requires l in ls && |ls| == 1
    ensures ls == {l}
  {
    assert |ls - {l}| == 0;
    assert ls == {l} + (ls - {l});
  }

  lemma SwappedSlot(s: Vm, l: Loc)
    requires Inv(s) && l in s.ptes && !s.ptes[l].p
    ensures var k := s.ptes[l].num;
            k < |s.slotRefs| && s.slotRefs[k] == |SlotLocs(s.ptes, k)| >= 1
            && (s.slotRefs[k] == 1 ==> SlotLocs(s.ptes, k) == {l})
  {
    var k := s.ptes[l].num;
    assert l in SlotLocs(s.ptes, k);
    if |SlotLocs(s.ptes, k)| == 1 { Singleton(SlotLocs(s.ptes, k), l); }
  }
}
