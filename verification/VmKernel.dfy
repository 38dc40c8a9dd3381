/**
 The memory code of the kernel as it runs: the frame allocator, the swap slots, the clock,
 the fault handlers, fork and the life of an address space (kernel/pmm.c, kernel/paging.c).
 */
module VmKernel {
  import opened FrameTable
  import opened VmState
  import opened VmSteps
  import opened VmOps
  import opened Clock
  import opened VmSweep
  import opened VmSpaces

  class Kernel {
    var used: seq<bool>
    var refs: seq<nat>
    var free: nat
    var mem: seq<Page>
    var slots: seq<MmSlot>
    var tables: map<TableId, nat>
    var ptes: map<Loc, Pte>
    var swapOn: bool
    var slotRefs: seq<nat>
    var slotsUsed: nat
    var swap: seq<Page>
    var handMm: nat
    var handPage: nat
    var current: nat
    const kernelCr3: nat
    const kernelDirs: set<nat>
    ghost const reserved: set<nat>
    ghost var dirs: set<nat>
    ghost var loose: set<nat>

    ghost function S(): Vm
      reads this
    {
      Vm(Frames(used, refs, free), mem, slots, dirs, tables, ptes, loose, reserved, kernelDirs,
         swapOn, slotRefs, slotsUsed, swap)
    }

    ghost predicate HandsOk()
      reads this
    {
      handMm < |slots| && handPage < PAGES_PER_PD
    }

    ghost predicate Valid()
      reads this
    {
      Quiet(S()) && HandsOk()
    }

    /**
     The state after boot: frames below `kernelFrames` belong to the kernel, the next one is its
     page directory, the rest are free; `nslots` address-space slots and `nswap` swap slots.
     */
    constructor (nframes: nat, kernelFrames: nat, nslots: nat, nswap: nat, kdirs: set<nat>)
      requires 0 < kernelFrames < nframes && 0 < nslots
      ensures S() == BootVm(nframes, kernelFrames, nslots, nswap, kdirs) && HandsOk() && current == kernelCr3 == kernelFrames
    {
      used := BootUsed(nframes, kernelFrames);
      refs := BootRefs(nframes, kernelFrames);
      free := nframes - kernelFrames - 1;
      mem := ZeroPages(nframes);
      slots := BootSlotTable(nslots, kernelFrames);
      tables := map[];
      ptes := map[];
      swapOn := nswap > 0;
      slotRefs := seq(nswap, i => 0);
      slotsUsed := 0;
      swap := ZeroPages(nswap);
      handMm, handPage := 0, 0;
      current := kernelFrames;
      kernelCr3 := kernelFrames;
      kernelDirs := kdirs;
      reserved := Below(kernelFrames);
      dirs := {kernelFrames};
      loose := {};
    }

    /** Booting gives a valid state in which no space has a page and every frame and slot is accounted for. */
    static method Boot(nframes: nat, kernelFrames: nat, nslots: nat, nswap: nat, kdirs: set<nat>) returns (k: Kernel)
      requires 0 < kernelFrames < nframes && 0 < nslots <= REF_MAX && nswap <= SLOT_LIMIT
      ensures fresh(k) && k.Valid() && View(k.S()) == map[] && k.kernelCr3 in k.dirs && k.current == k.kernelCr3
      ensures k.free == nframes - kernelFrames - 1 && k.slotsUsed == 0 && k.kernelDirs == kdirs
    {
      hide Quiet, ViewOf;
      k := new Kernel(nframes, kernelFrames, nslots, nswap, kdirs);
      BootQuiet(nframes, kernelFrames, nslots, nswap, kdirs);
    }

    static ghost function BootVm(n: nat, k: nat, nslots: nat, nswap: nat, kdirs: set<nat>): Vm
      requires 0 < k < n
    {
      Vm(Frames(BootUsed(n, k), BootRefs(n, k), n - k - 1), ZeroPages(n), BootSlotTable(nslots, k), {k}, map[], map[], {},
         Below(k), kdirs, nswap > 0, seq(nswap, i => 0), 0, ZeroPages(nswap))
    }

    static lemma BootQuiet(n: nat, k: nat, nslots: nat, nswap: nat, kdirs: set<nat>)
      requires 0 < k < n && 0 < nslots <= REF_MAX && nswap <= SLOT_LIMIT
      ensures Quiet(BootVm(n, k, nslots, nswap, kdirs)) && View(BootVm(n, k, nslots, nswap, kdirs)) == map[]
    {
      hide Inv, Quiet, ViewOf, CountFalse, CountNonZero, FramesOk;
      var s := BootVm(n, k, nslots, nswap, kdirs);
      BootFrames(n, k, s.frames);
      CountNonZeroNone(s.slotRefs);
      BootInv(s, k);
      BootView(s);
    }

    static function BootUsed(n: nat, k: nat): (r: seq<bool>)
      ensures |r| == n && forall i :: 0 <= i < n ==> r[i] == (i <= k)
    {
      seq(n, i => i <= k)
    }

    static function BootRefs(n: nat, k: nat): (r: seq<nat>)
      ensures |r| == n && forall i :: 0 <= i < n ==> r[i] == if i <= k then 1 else 0
    {
      seq(n, i => if i <= k then 1 else 0)
    }

    static function BootSlotTable(n: nat, k: nat): (r: seq<MmSlot>)
      ensures |r| == n && forall i :: 0 <= i < n ==> r[i] == if i == 0 then MmSlot(true, k, 1) else MmSlot(false, 0, 0)
    {
      seq(n, i => if i == 0 then MmSlot(true, k, 1) else MmSlot(false, 0, 0))
    }

    static function ZeroPages(n: nat): (r: seq<Page>)
      ensures |r| == n
    {
      seq(n, i => ZeroPage())
    }

    static lemma BootFrames(n: nat, k: nat, p: Frames)
      requires 0 < k < n == |p.used| == |p.refs| && p.free == n - k - 1
      requires forall i :: 0 <= i < n ==> p.used[i] == (i <= k)
      requires forall i :: 0 <= i < n ==> p.refs[i] == if i <= k then 1 else 0
      ensures FramesOk(p)
    {
      CountFalsePrefix(n, k + 1, p.used);
    }

    static ghost function Below(k: nat): (r: set<nat>)
      ensures forall f: nat :: f in r <==> f < k
    {
      if k == 0 then {} else Below(k - 1) + {k - 1}
    }

    static lemma BootView(s: Vm)
      requires s.ptes == map[]
      ensures View(s) == map[]
    {
    }

    static lemma BootInv(s: Vm, k: nat)
      requires s.ptes == map[] && s.tables == map[] && FramesOk(s.frames) && 0 < k < |s.frames.refs|
      requires s.reserved == Below(k) && s.dirs == {k} && s.loose == {}
      requires forall f :: 0 <= f < |s.frames.refs| ==> s.frames.refs[f] == if f <= k then 1 else 0
      requires forall j :: 0 <= j < |s.slotRefs| ==> s.slotRefs[j] == 0
      requires |s.slotRefs| <= SLOT_LIMIT && s.slotsUsed == CountNonZero(s.slotRefs) && (!s.swapOn ==> |s.slotRefs| == 0)
      requires |s.mem| == |s.frames.refs| && |s.swap| == |s.slotRefs| && 0 < |s.slots| <= REF_MAX
      requires forall i :: 0 <= i < |s.slots| ==> s.slots[i] == if i == 0 then MmSlot(true, k, 1) else MmSlot(false, 0, 0)
      ensures Quiet(s)
    {
      hide SysOk, SlotsOk, CountsOk, SwapOk, SlotCr3s;
      BootCounts(s, k);
      BootSys(s.reserved, s.dirs, s.loose, s.tables, k);
      BootSlots(s.slots, k);
    }

    static lemma BootSys(reserved: set<nat>, dirs: set<nat>, loose: set<nat>, tables: map<TableId, nat>, k: nat)
      requires 0 < k && reserved == Below(k) && dirs == {k} && loose == {} && tables == map[]
      ensures SysOk(reserved, dirs, loose, tables)
    {
    }

    static lemma BootSlots(slots: seq<MmSlot>, k: nat)
      requires 0 < |slots| <= REF_MAX
      requires forall i :: 0 <= i < |slots| ==> slots[i] == if i == 0 then MmSlot(true, k, 1) else MmSlot(false, 0, 0)
      ensures SlotsOk(slots, {k}) && SlotCr3s(slots) == {k}
    {
      assert slots[0].used && slots[0].cr3 == k;
      assert SlotCr3s(slots) == {k};
    }

    static lemma BootCounts(s: Vm, k: nat)
      requires s.ptes == map[] && s.tables == map[] && FramesOk(s.frames) && k < |s.frames.refs|
      requires s.reserved == Below(k) && s.dirs == {k} && s.loose == {}
      requires forall f :: 0 <= f < |s.frames.refs| ==> s.frames.refs[f] == if f <= k then 1 else 0
      requires forall j :: 0 <= j < |s.slotRefs| ==> s.slotRefs[j] == 0
      requires |s.slotRefs| <= SLOT_LIMIT && s.slotsUsed == CountNonZero(s.slotRefs) && (!s.swapOn ==> |s.slotRefs| == 0)
      ensures CountsOk(s.ptes, SysFrames(s), s.frames) && SwapOk(s.ptes, s.swapOn, s.slotRefs, s.slotsUsed)
    {
      hide FramesOk, CountNonZero, Below;
      BootSet(s, k);
      forall f: nat ensures PageRefs(s.ptes, f) == {} && SlotLocs(s.ptes, f) == {} { NoEntries(s.ptes, f); }
      hide SysFrames, PageRefs, SlotLocs;
      assert CountsOk(s.ptes, SysFrames(s), s.frames);
    }

    static lemma BootSet(s: Vm, k: nat)
      requires s.tables == map[] && s.reserved == Below(k) && s.dirs == {k} && s.loose == {}
      ensures forall f: nat :: f in SysFrames(s) <==> f <= k
    {
      hide Below;
      assert s.tables.Values == {};
    }

    static lemma NoEntries(ptes: map<Loc, Pte>, f: nat)
      requires ptes == map[]
      ensures PageRefs(ptes, f) == {} && SlotLocs(ptes, f) == {}
    {
    }

    static lemma {:induction false} CountFalsePrefix(n: nat, k: nat, bits: seq<bool>)
      requires k <= n == |bits| && forall i :: 0 <= i < n ==> bits[i] == (i < k)
      ensures CountFalse(bits) == n - k
      decreases n
    {
      if n > 0 {
        if k == n { AllTrue(bits); } else { CountFalsePrefix(n - 1, k, bits[..n - 1]); }
      }
    }

    static lemma {:induction false} AllTrue(bits: seq<bool>)
      requires forall i :: 0 <= i < |bits| ==> bits[i]
      ensures CountFalse(bits) == 0
      decreases |bits|
    {
      if bits != [] { AllTrue(bits[..|bits| - 1]); }
    }

    static lemma {:induction false} CountNonZeroNone(ns: seq<nat>)
      requires forall i :: 0 <= i < |ns| ==> ns[i] == 0
      ensures CountNonZero(ns) == 0
      decreases |ns|
    {
      if ns != [] { CountNonZeroNone(ns[..|ns| - 1]); }
    }

    // ----- frames (kernel/pmm.c) ---------------------------------------------------------

    /** First free frame, or 0 if there is none. */
    method AllocFrame() returns (f: nat)
      requires Inv(S())
      modifies this`used, this`refs, this`free, this`loose
      ensures Inv(S())
      ensures f == 0 <==> forall i :: 0 <= i < |old(used)| ==> old(used)[i]
      ensures f == 0 ==> S() == old(S())
      ensures f != 0 ==> f < |old(used)| && !old(used)[f] && S() == HandOut(old(S()), f)
      ensures f != 0 ==> forall i :: 0 <= i < f ==> old(used)[i]
    {
      hide Inv;
      ZeroReserved(S());
      var i := 0;
      while i < |used|
        invariant 0 <= i <= |used|
        invariant forall j :: 0 <= j < i ==> used[j]
        invariant S() == old(S())
      {
        if !used[i] {
          HandOutKeeps(S(), i);
          used := used[i := true];
          refs := refs[i := 1];
          if free > 0 { free := free - 1; }
          loose := loose + {i};
          return i;
        }
        i := i + 1;
      }
      return 0;
    }

    static lemma ZeroReserved(s: Vm)
      requires Inv(s)
      ensures |s.frames.used| == |s.frames.refs| > 0 && s.frames.used[0]
    {
      hide SlotsOk, TablesOk, EntriesOk, SharingOk, SwapOk;
      assert 0 in SysFrames(s);
      SysUnnamed(s.ptes, SysFrames(s), s.frames, 0);
    }

    /** Clears a frame's bit, whatever its count was. */
    method PhysFree(f: nat)
      requires |used| == |refs|
      modifies this`used, this`refs, this`free
      ensures Frames(used, refs, free) == FreeAt(old(Frames(used, refs, free)), f)
      ensures f < |used| && old(used)[f] ==> used == old(used)[f := false] && refs == old(refs)[f := 0] && free == old(free) + 1
      ensures f >= |used| || !old(used)[f] ==> used == old(used) && refs == old(refs) && free == old(free)
    {
      if f >= |used| { return; }
      if used[f] {
        used := used[f := false];
        refs := refs[f := 0];
        free := free + 1;
      }
    }

    method FrameRef(f: nat)
      requires |used| == |refs|
      modifies this`refs
      ensures Frames(used, refs, free) == RefAt(old(Frames(used, refs, free)), f)
      ensures refs == if f < |used| && used[f] && old(refs)[f] != 65535 then old(refs)[f := old(refs)[f] + 1] else old(refs)
    {
      if f >= |used| || !used[f] { return; }
      if refs[f] != REF_MAX { refs := refs[f := refs[f] + 1]; }
    }

    method FrameUnref(f: nat)
      requires |used| == |refs|
      modifies this`used, this`refs, this`free
      ensures Frames(used, refs, free) == UnrefAt(old(Frames(used, refs, free)), f)
      ensures f < |used| && used[f] ==> refs == old(refs)[f := old(refs)[f] - 1] && old(refs)[f] > 1 && free == old(free)
      ensures f < |used| && old(used)[f] && !used[f] ==> old(refs)[f] <= 1 && refs == old(refs)[f := 0] && free == old(free) + 1
    {
      if f >= |used| || !used[f] { return; }
      if refs[f] > 1 {
        refs := refs[f := refs[f] - 1];
        return;
      }
      PhysFree(f);
    }

    // ----- swap slots ---------------------------------------------------------------------

    /** First slot without owners. */
    method SwapAllocSlot() returns (ok: bool, k: nat)
      requires !swapOn ==> |slotRefs| == 0
      modifies this`slotRefs, this`slotsUsed
      ensures ok <==> exists i :: 0 <= i < |old(slotRefs)| && old(slotRefs)[i] == 0
      ensures !ok ==> slotRefs == old(slotRefs) && slotsUsed == old(slotsUsed)
      ensures ok ==> k < |old(slotRefs)| && old(slotRefs)[k] == 0 && forall i :: 0 <= i < k ==> old(slotRefs)[i] != 0
      ensures ok ==> SlotCounts(slotRefs, slotsUsed) == SlotRefAt(old(SlotCounts(slotRefs, slotsUsed)), k)
    {
      if !swapOn { return false, 0; }
      var i := 0;
      while i < |slotRefs|
        invariant 0 <= i <= |slotRefs|
        invariant forall j :: 0 <= j < i ==> slotRefs[j] != 0
        invariant slotRefs == old(slotRefs) && slotsUsed == old(slotsUsed)
      {
        if slotRefs[i] == 0 {
          slotRefs := slotRefs[i := 1];
          slotsUsed := slotsUsed + 1;
          return true, i;
        }
        i := i + 1;
      }
      return false, 0;
    }

    method SwapSlotRef(k: nat)
      requires !swapOn ==> |slotRefs| == 0
      modifies this`slotRefs, this`slotsUsed
      ensures SlotCounts(slotRefs, slotsUsed) == SlotRefAt(old(SlotCounts(slotRefs, slotsUsed)), k)
      ensures slotRefs == if k < |slotRefs| && old(slotRefs)[k] != 65535 then old(slotRefs)[k := old(slotRefs)[k] + 1] else old(slotRefs)
      ensures slotsUsed == old(slotsUsed) + if k < |slotRefs| && old(slotRefs)[k] == 0 then 1 else 0
    {
      if !swapOn || k >= |slotRefs| { return; }
      if slotRefs[k] == 0 {
        slotRefs := slotRefs[k := 1];
        slotsUsed := slotsUsed + 1;
        return;
      }
      if slotRefs[k] != REF_MAX { slotRefs := slotRefs[k := slotRefs[k] + 1]; }
    }

    method SwapSlotUnref(k: nat)
      requires !swapOn ==> |slotRefs| == 0
      modifies this`slotRefs, this`slotsUsed
      ensures SlotCounts(slotRefs, slotsUsed) == SlotUnrefAt(old(SlotCounts(slotRefs, slotsUsed)), k)
      ensures slotRefs == if k < |slotRefs| && old(slotRefs)[k] > 0 then old(slotRefs)[k := old(slotRefs)[k] - 1] else old(slotRefs)
      ensures slotsUsed == old(slotsUsed) - if k < |slotRefs| && old(slotRefs)[k] == 1 && old(slotsUsed) > 0 then 1 else 0
    {
      if !swapOn || k >= |slotRefs| { return; }
      if slotRefs[k] == 0 { return; }
      if slotRefs[k] > 1 {
        slotRefs := slotRefs[k := slotRefs[k] - 1];
        return;
      }
      slotRefs := slotRefs[k := 0];
      if slotsUsed > 0 { slotsUsed := slotsUsed - 1; }
    }

    // ----- the clock ------------------------------------------------------------------------

    /** One directory's round: stops at the first evictable page whose accessed bit does not save it. */
    method ScanMm(m: nat, start: nat, second: bool) returns (found: bool, v: Loc, ghost stop: nat)
      requires start < PAGES_PER_PD && |used| == |refs|
      modifies this`ptes
      ensures stop <= PAGES_PER_PD && (!found ==> stop == PAGES_PER_PD)
      ensures found ==> v.mm == m && InRange(v) && Evictable(old(ptes), Frames(used, refs, free), v)
      ensures found ==> StepsTo(PageIndex(v), start, PAGES_PER_PD) == stop && !(second && old(ptes)[v].a)
      ensures var seen := Before(old(ptes), Frames(used, refs, free), m, start, stop);
              Saved(old(ptes), seen, second) && ptes == Aged(old(ptes), seen)
    {
      ghost var frames := Frames(used, refs, free);
      ghost var was := ptes;
      var step := 0;
      assert Aged(was, Before(was, frames, m, start, 0)) == was;
      while step < PAGES_PER_PD
        invariant 0 <= step <= PAGES_PER_PD
        invariant forall l :: l in Before(was, frames, m, start, step) ==> second && was[l].a
        invariant ptes == Aged(was, Before(was, frames, m, start, step))
      {
        var page := (start + step) % PAGES_PER_PD;
        var l := Loc(m, page / ENTRIES, page % ENTRIES);
        assert PageIndex(l) == page && InRange(l);
        RoundTrip(start, step, PAGES_PER_PD);
        NextBefore(was, frames, m, start, step, l);
        if Evictable(ptes, Frames(used, refs, free), l) {
          var e := ptes[l];
          assert e == was[l];
          if second && e.a {
            ptes := ptes[l := e.(a := false)];
          } else {
            return true, l, step;
          }
        }
        assert ptes == Aged(was, Before(was, frames, m, start, step + 1));
        step := step + 1;
      }
      return false, Loc(m, 0, 0), PAGES_PER_PD;
    }

    /**
     The sweep: finds the first candidate after the hands that its accessed bit does not save,
     clears the accessed bits of exactly the candidates before it, and moves the hands past it.
     */
    method FindSwapVictim(second: bool) returns (found: bool, v: Loc, ghost key: nat)
      requires |used| == |refs| && HandsOk() && DistinctMms(slots)
      modifies this`ptes, this`handMm, this`handPage
      ensures HandsOk()
      ensures SweptTo(old(ptes), ptes, Frames(used, refs, free), slots, kernelCr3, old(handMm), old(handPage), key, second)
      ensures !found ==> key == |slots| * PAGES_PER_PD && handMm == old(handMm) && handPage == old(handPage)
      ensures found ==>
        && InRange(v) && Evictable(old(ptes), Frames(used, refs, free), v) && !(second && old(ptes)[v].a)
        && SweptSlot(slots, kernelCr3, handMm, v.mm) && handPage == (PageIndex(v) + 1) % PAGES_PER_PD
        && key == SweepKey(handMm, v, old(handMm), old(handPage), |slots|)
    {
      hide SweptTo, Before, Aged, Saved, DistinctMms;
      ghost var frames := Frames(used, refs, free);
      ghost var was := ptes;
      var startMm, startPage := handMm, handPage;
      var step := 0;
      SweptToStart(was, frames, slots, kernelCr3, startMm, startPage, second);
      while step < |slots|
        invariant 0 <= step <= |slots|
        invariant handMm == startMm == old(handMm) && handPage == startPage == old(handPage)
        invariant SweptTo(was, ptes, frames, slots, kernelCr3, startMm, startPage, step * PAGES_PER_PD, second)
      {
        RoundTrip(startMm, step, |slots|);
        var i := (startMm + step) % |slots|;
        if slots[i].used && slots[i].cr3 != kernelCr3 {
          var pageStart := if step == 0 then startPage else 0;
          ghost var mid := ptes;
          ghost var stop: nat;
          found, v, stop := ScanMm(slots[i].cr3, pageStart, second);
          SlotSwept(was, mid, ptes, frames, slots, kernelCr3, startMm, startPage, step, stop, second);
          if found {
            VictimUntouched(was, mid, frames, slots, kernelCr3, startMm, startPage, step, second, i, v);
            handMm := i;
            handPage := (PageIndex(v) + 1) % PAGES_PER_PD;
            return true, v, step * PAGES_PER_PD + stop;
          }
        } else {
          SlotSkipped(was, ptes, frames, slots, kernelCr3, startMm, startPage, step, second);
        }
        step := step + 1;
      }
      return false, Loc(0, 0, 0), |slots| * PAGES_PER_PD;
    }

    /** The two passes of swap_page_out_one: a victim is found exactly when there is a candidate. */
    method PickVictim() returns (found: bool, v: Loc)
      requires Inv(S()) && HandsOk()
      modifies this`ptes, this`handMm, this`handPage
      ensures HandsOk() && AccessedOnly(old(ptes), ptes)
      ensures found <==> HasCandidate(old(S()), kernelCr3)
      ensures found ==> Candidate(S(), kernelCr3, v)
    {
      hide Inv, SweptTo, HasCandidate, Aged, DistinctMms, AccessedOnly;
      ghost var s0, hm, hp := S(), handMm, handPage;
      InvInRange(s0);
      ghost var key;
      found, v, key := FindSwapVictim(true);
      SweepAccessedOnly(s0.ptes, ptes, s0.frames, slots, kernelCr3, hm, hp, key, true);
      AccessedOnlyCandidates(s0, ptes, kernelCr3);
      if found {
        VictimIsCandidate(s0, kernelCr3, v, handMm);
        return;
      }
      ghost var s1 := S();
      AccessedOnlyKeeps(s0, ptes);
      found, v, key := FindSwapVictim(false);
      SweepAccessedOnly(s1.ptes, ptes, s1.frames, slots, kernelCr3, hm, hp, key, false);
      AccessedOnlyCandidates(s1, ptes, kernelCr3);
      AccessedOnlyTwice(s0.ptes, s1.ptes, ptes);
      AccessedOnlySame(s0, s1.ptes, kernelCr3);
      if found {
        VictimIsCandidate(s1, kernelCr3, v, handMm);
      } else {
        SweepExhausted(s1, ptes, kernelCr3, hm, hp);
      }
    }

    /** Page l of the user space in slot i is in memory, shared with nobody and not copy-on-write. */
    static ghost predicate OwnPage(s: Vm, kernelCr3: nat, l: Loc, i: nat) {
      && l in s.ptes && s.ptes[l].p && !s.ptes[l].cow && PageRefs(s.ptes, s.ptes[l].num) == {l}
      && i < |s.slots| && s.slots[i].used && s.slots[i].cr3 == l.mm && l.mm != kernelCr3
    }

    static ghost predicate Takeable(s: Vm, kernelCr3: nat) { exists l, i :: OwnPage(s, kernelCr3, l, i) }

    static lemma CandidateMeans(s: Vm, kernelCr3: nat)
      requires Inv(s)
      ensures HasCandidate(s, kernelCr3) <==> Takeable(s, kernelCr3)
    {
      hide Inv;
      if l :| Candidate(s, kernelCr3, l) {
        var i :| SweptSlot(s.slots, kernelCr3, i, l.mm);
        SoleOwner(s, l);
        assert OwnPage(s, kernelCr3, l, i);
      }
      if l, i :| OwnPage(s, kernelCr3, l, i) {
        SoleOwner(s, l);
        assert SweptSlot(s.slots, kernelCr3, i, l.mm);
        assert Candidate(s, kernelCr3, l);
      }
    }

    static lemma SoleOwner(s: Vm, l: Loc)
      requires Inv(s) && l in s.ptes && s.ptes[l].p
      ensures Evictable(s.ptes, s.frames, l) <==> !s.ptes[l].cow && PageRefs(s.ptes, s.ptes[l].num) == {l}
    {
      hide SysOk, SlotsOk, TablesOk, SharingOk, SwapOk;
      var f := s.ptes[l].num;
      assert l in PageRefs(s.ptes, f);
      assert s.frames.refs[f] == |PageRefs(s.ptes, f)|;
      if |PageRefs(s.ptes, f)| == 1 { Singleton(PageRefs(s.ptes, f), l); }
    }

    /** Pages one victim out; succeeds exactly when there is a candidate and a free slot. */
    method SwapPageOutOne() returns (ok: bool)
      requires Inv(S()) && HandsOk()
      modifies this`ptes, this`handMm, this`handPage, this`slotRefs, this`slotsUsed, this`swap,
               this`used, this`refs, this`free
      ensures Inv(S()) && HandsOk() && View(S()) == View(old(S()))
      ensures ok <==> CanPageOut(old(S()), kernelCr3)
      ensures ok <==> swapOn && Takeable(old(S()), kernelCr3) && exists k :: 0 <= k < |old(slotRefs)| && old(slotRefs)[k] == 0
      ensures !ok ==> S() == old(S()).(ptes := ptes) && AccessedOnly(old(ptes), ptes)
      ensures ok ==> HasFreeFrame(S()) && free == old(free) + 1
      ensures ptes.Keys == old(ptes).Keys && |swap| == |old(swap)| && |used| == |old(used)|
      ensures forall l :: l in old(ptes) && (!old(ptes)[l].p || old(ptes)[l].cow) ==> ptes[l] == old(ptes)[l]
    {
      hide Inv, HasCandidate, ViewOf, SlotRefAt, UnrefAt, HasFreeFrame, Candidate, Evictable, View, Takeable;
      ghost var s0 := S();
      AccessedOnlyRefl(ptes);
      CandidateMeans(s0, kernelCr3);
      if !swapOn { return false; }
      InvInRange(s0);
      var found, v := PickVictim();
      AccessedOnlyKeeps(s0, ptes);
      if !found { return false; }
      VictimShape(S(), kernelCr3, v);
      ok := PageOutVictim(v);
    }

    /** Gives the victim's page a slot, writes it there and drops its frame. */
    method PageOutVictim(v: Loc) returns (ok: bool)
      requires Inv(S()) && Candidate(S(), kernelCr3, v)
      modifies this`ptes, this`slotRefs, this`slotsUsed, this`swap, this`used, this`refs, this`free
      ensures Inv(S()) && View(S()) == View(old(S()))
      ensures ok <==> HasFreeSlot(old(S()))
      ensures !ok ==> S() == old(S())
      ensures ok ==> HasFreeFrame(S()) && free == old(free) + 1
      ensures v in old(ptes) && v in ptes && ptes == old(ptes)[v := ptes[v]] && (!ok ==> ptes == old(ptes))
      ensures |swap| == |old(swap)| && |used| == |old(used)|
    {
      hide Inv, ViewOf, SlotRefAt, UnrefAt, HasFreeFrame, Candidate, Evictable, View;
      ghost var s1 := S();
      InvInRange(s1);
      VictimShape(s1, kernelCr3, v);
      var k;
      ok, k := SwapAllocSlot();
      if !ok { return false; }
      var e := ptes[v];
      PageOutKeeps(s1, v, k);
      PageOutFrees(s1, kernelCr3, v, k);
      swap := swap[k := mem[e.num]];
      ptes := ptes[v := SwappedPte(e, k)];
      FrameUnref(e.num);
      assert S() == PageOut(s1, v, k);
    }

    /** A frame for a page, if need be by paging another one out; fails exactly when memory is exhausted. */
    method AllocFrameForPaging() returns (f: nat)
      requires Inv(S()) && HandsOk()
      modifies this`ptes, this`handMm, this`handPage, this`slotRefs, this`slotsUsed, this`swap,
               this`used, this`refs, this`free, this`loose
      ensures Inv(S()) && HandsOk() && View(S()) == View(old(S()))
      ensures f == 0 <==> Starved(old(S()), kernelCr3)
      ensures f == 0 ==> S() == old(S()).(ptes := ptes) && AccessedOnly(old(ptes), ptes)
      ensures f != 0 ==> f !in old(loose) && loose == old(loose) + {f}
      ensures f != 0 ==> free == if old(free) > 0 then old(free) - 1 else 0
      ensures ptes.Keys == old(ptes).Keys && |swap| == |old(swap)| && |used| == |old(used)|
      ensures forall l :: l in old(ptes) && (!old(ptes)[l].p || old(ptes)[l].cow) ==> ptes[l] == old(ptes)[l]
    {
      hide Inv, ViewOf, CanPageOut;
      ghost var s0 := S();
      AccessedOnlyRefl(ptes);
      f := AllocFrame();
      AllocatedWasFree(s0, f);
      if f != 0 { return; }
      if !swapOn { SwapOffCannot(s0, kernelCr3); return 0; }
      var ok := SwapPageOutOne();
      if !ok { return 0; }
      ghost var s1 := S();
      f := AllocFrame();
      AllocatedWasFree(s1, f);
    }

    static lemma AllocatedWasFree(s: Vm, f: nat)
      requires Inv(s)
      requires f == 0 <==> forall i :: 0 <= i < |s.frames.used| ==> s.frames.used[i]
      requires f != 0 ==> f < |s.frames.used| && !s.frames.used[f]
      ensures f == 0 <==> !HasFreeFrame(s)
      ensures f == 0 <==> s.frames.free == 0
      ensures f != 0 ==> f !in s.loose && f < |s.mem|
    {
      hide SysOk, SlotsOk, TablesOk, EntriesOk, SharingOk, SwapOk;
      FreeFrameCount(s);
      if f != 0 { FreeFrameUnnamed(s, f); }
    }

    static lemma SwapOffCannot(s: Vm, kernelCr3: nat)
      requires !s.swapOn
      ensures !CanPageOut(s, kernelCr3)
    {
    }

    // ----- page faults ----------------------------------------------------------------------

    /** Brings a swapped page back; works exactly when memory is not exhausted, and nobody notices. */
    method HandleSwapFault(dir: nat, ti: nat, present: bool) returns (r: int)
      requires Inv(S()) && HandsOk()
      modifies this`ptes, this`handMm, this`handPage, this`slotRefs, this`slotsUsed, this`swap, this`mem,
               this`used, this`refs, this`free, this`loose
      ensures Inv(S()) && HandsOk() && View(S()) == View(old(S())) && loose == old(loose)
      ensures var l := Loc(current, dir, ti);
        if !present && l in old(ptes) && IsSwapped(old(ptes)[l]) then
          (r == 1 || r == -1) && (r == -1 <==> Starved(old(S()), kernelCr3))
        else r == 0 && S() == old(S())
      ensures r == 1 ==> var l := Loc(current, dir, ti); l in old(ptes) && MappedPlain(ptes, l, old(ptes)[l].w)
      ensures r == -1 ==> S() == old(S()).(ptes := ptes) && AccessedOnly(old(ptes), ptes)
      ensures ptes.Keys == old(ptes).Keys
    {
      hide Inv, ViewOf, Starved, AccessedOnly, SlotUnrefAt;
      InvInRange(S());
      if present { return 0; }
      var l := Loc(current, dir, ti);
      SwappedMeansOn(S(), l);
      if !swapOn { return 0; }
      if TableId(current, dir) !in tables { return 0; }
      var e := if l in ptes then ptes[l] else ZERO_PTE;
      if !IsSwapped(e) { return 0; }
      var k := e.num;
      if k >= |slotRefs| { return -1; }
      var f := AllocFrameForPaging();
      if f == 0 { return -1; }
      SwapIn(l, f);
      return 1;
    }

    /** Reads l's slot into frame f, installs f at l and gives the slot reference up. */
    method SwapIn(l: Loc, f: nat)
      requires Inv(S()) && l in ptes && !ptes[l].p && f in loose
      modifies this`ptes, this`slotRefs, this`slotsUsed, this`mem, this`loose
      ensures Inv(S()) && View(S()) == View(old(S()))
      ensures loose == old(loose) - {f}
      ensures ptes == old(ptes)[l := Pte(true, old(ptes)[l].w, old(ptes)[l].u, false, old(ptes)[l].cow, false, f)]
    {
      hide Inv, ViewOf, SlotUnrefAt;
      ghost var s1 := S();
      InvInRange(s1);
      LooseFrame(s1, f);
      SwappedMeansOn(s1, l);
      PageInKeeps(s1, l, f);
      var e := ptes[l];
      ptes := ptes[l := Pte(true, true, true, false, false, false, f)];
      mem := mem[f := swap[e.num]];
      ptes := ptes[l := Pte(true, e.w, e.u, false, e.cow, false, f)];
      loose := loose - {f};
      SwapSlotUnref(e.num);
      assert ptes == s1.ptes[l := Pte(true, e.w, e.u, false, e.cow, false, f)];
      assert S() == PageIn(s1, l, f);
    }

    /** Present, not copy-on-write, with write permission w. */
    static predicate MappedPlain(ptes: map<Loc, Pte>, l: Loc, w: bool) {
      l in ptes && ptes[l].p && ptes[l].u && !ptes[l].cow && ptes[l].w == w
    }

    /** A swapped entry names an existing slot of an enabled swap device, in an existing table. */
    static lemma SwappedMeansOn(s: Vm, l: Loc)
      requires Inv(s)
      ensures l in s.ptes ==> TableOf(l) in s.tables
      ensures l in s.ptes && !s.ptes[l].p ==>
        s.swapOn && IsSwapped(s.ptes[l]) && s.ptes[l].num < |s.slotRefs| == |s.swap| && s.ptes[l].u && !s.ptes[l].cow
      ensures |s.mem| == |s.frames.used|
    {
      hide SysOk, SlotsOk, TablesOk, SharingOk;
    }

    /** The table for a directory entry of the current space, made from a zeroed frame if missing. */
    method EnsureTable(dir: nat) returns (ok: bool)
      requires Inv(S()) && current in dirs && dir < DIRS && dir !in kernelDirs
      modifies this`used, this`refs, this`free, this`loose, this`tables
      ensures Inv(S()) && loose == old(loose)
      ensures ok <==> TableId(current, dir) in old(tables) || old(free) > 0
      ensures !ok ==> S() == old(S())
      ensures ok ==> TableId(current, dir) in tables
      ensures TableId(current, dir) in old(tables) ==> S() == old(S())
      ensures ok && TableId(current, dir) !in old(tables) ==> free == old(free) - 1
      ensures CanPageOut(S(), kernelCr3) == CanPageOut(old(S()), kernelCr3)
      ensures forall t :: t in old(tables) ==> t in tables && tables[t] == old(tables)[t]
      ensures |used| == |old(used)|
    {
      hide Inv, HasFreeFrame, CanPageOut;
      var t := TableId(current, dir);
      if t in tables { return true; }
      ghost var s0 := S();
      var f := AllocFrame();
      AllocatedWasFree(s0, f);
      if f == 0 { return false; }
      AddTableKeeps(S(), t, f);
      tables := tables[t := f];
      loose := loose - {f};
      SameCandidates(s0, f, S(), kernelCr3);
      return true;
    }

    /** Handing out a free frame for a table does not change what can be paged out. */
    static lemma SameCandidates(s: Vm, f: nat, s': Vm, kernelCr3: nat)
      requires Inv(s) && f < |s.frames.used| && !s.frames.used[f] && s'.frames == HandOut(s, f).frames
      requires s'.ptes == s.ptes && s'.slots == s.slots && s'.slotRefs == s.slotRefs && s'.swapOn == s.swapOn
      ensures CanPageOut(s', kernelCr3) == CanPageOut(s, kernelCr3)
    {
      hide SysOk, SlotsOk, TablesOk, EntriesOk, SharingOk, SwapOk;
      FreeFrameUnnamed(s, f);
      forall l ensures Candidate(s', kernelCr3, l) == Candidate(s, kernelCr3, l) {
        assert l !in PageRefs(s.ptes, f);
      }
    }

    /** Maps frame f at an empty entry, zeroes it, fills it, and takes the write bit back if the region is read-only. */
    method InstallNew(l: Loc, f: nat, fill: Fill)
      requires Inv(S()) && l !in ptes && TableOf(l) in tables && l.ti < ENTRIES && f in loose && fill.Fill?
      modifies this`ptes, this`mem, this`loose
      ensures Inv(S()) && View(S()) == View(old(S()))[l := PageView(fill.page, fill.writable)]
      ensures loose == old(loose) - {f}
      ensures ptes == old(ptes)[l := Pte(true, fill.writable, true, false, false, false, f)]
    {
      hide Inv, ViewOf;
      ghost var s1 := S();
      InvInRange(s1);
      SwappedMeansOn(s1, l);
      LooseFrame(s1, f);
      InstallKeeps(s1, l, Pte(true, fill.writable, true, false, false, false, f), fill.page);
      ptes := ptes[l := Pte(true, true, true, false, false, false, f)];
      mem := mem[f := ZeroPage()];
      mem := mem[f := fill.page];
      if !fill.writable { ptes := ptes[l := ptes[l].(w := false)]; }
      loose := loose - {f};
      assert ptes == s1.ptes[l := Pte(true, fill.writable, true, false, false, false, f)];
      assert mem == s1.mem[f := fill.page];
    }

    /**
     First touch of a page of a lazily loaded region (ELF segment or mmap region). Works exactly
     when there is room for the page and, if needed, its table.
     */
    method HandleLazyFault(dir: nat, ti: nat, present: bool, fill: Fill) returns (r: int)
      requires Inv(S()) && HandsOk() && current in dirs && dir < DIRS && dir !in kernelDirs && ti < ENTRIES
      requires present <==> Loc(current, dir, ti) in ptes && ptes[Loc(current, dir, ti)].p
      requires fill.Fill? && Loc(current, dir, ti) in ptes ==> present || Starved(S(), kernelCr3)
      modifies this`ptes, this`handMm, this`handPage, this`slotRefs, this`slotsUsed, this`swap, this`mem,
               this`used, this`refs, this`free, this`loose, this`tables
      ensures Inv(S()) && HandsOk() && loose == old(loose)
      ensures present || fill.NoFill? ==> r == 0 && S() == old(S())
      ensures !present && fill.Fill? ==>
        var l := Loc(current, dir, ti);
        (r == 1 || r == -1) && (r == 1 <==> MapRoom(old(S()), kernelCr3, l))
      ensures r == 1 ==>
        && fill.Fill? && Loc(current, dir, ti) !in old(ptes)
        && View(S()) == View(old(S()))[Loc(current, dir, ti) := PageView(fill.page, fill.writable)]
        && MappedPlain(ptes, Loc(current, dir, ti), fill.writable)
      ensures r != 1 ==> View(S()) == View(old(S())) && tables == old(tables) && ptes.Keys == old(ptes).Keys
      ensures r == -1 ==> !MapRoom(S(), kernelCr3, Loc(current, dir, ti))
      ensures r == -1 && Loc(current, dir, ti) in old(ptes) ==>
        S() == old(S()).(ptes := ptes) && AccessedOnly(old(ptes), ptes) && Starved(S(), kernelCr3)
    {
      hide Inv, ViewOf, Starved, AccessedOnly;
      if present { return 0; }
      if fill.NoFill? { return 0; }
      var l := Loc(current, dir, ti);
      ghost var s0 := S();
      RoomLess(s0, kernelCr3, l);
      SwappedMeansOn(s0, l);
      var f := AllocFrameForPaging();
      if f == 0 {
        AccessedOnlyStarved(s0, ptes, kernelCr3);
        RoomLess(S(), kernelCr3, l);
        return -1;
      }
      var ok := MapFilled(dir, ti, f, fill);
      return if ok then 1 else -1;
    }

    /** Maps frame f at an empty page, making the table first; without a frame for the table, f goes back. */
    method MapFilled(dir: nat, ti: nat, f: nat, fill: Fill) returns (ok: bool)
      requires Inv(S()) && current in dirs && dir < DIRS && dir !in kernelDirs && ti < ENTRIES
      requires Loc(current, dir, ti) !in ptes && f in loose && fill.Fill?
      modifies this`ptes, this`mem, this`used, this`refs, this`free, this`loose, this`tables
      ensures Inv(S()) && loose == old(loose) - {f}
      ensures ok <==> TableId(current, dir) in old(tables) || old(free) > 0
      ensures ok ==> View(S()) == View(old(S()))[Loc(current, dir, ti) := PageView(fill.page, fill.writable)]
      ensures ok ==> MappedPlain(ptes, Loc(current, dir, ti), fill.writable)
      ensures !ok ==> ptes == old(ptes) && mem == old(mem) && tables == old(tables) && free == old(free) + 1
    {
      hide Inv, ViewOf;
      ok := EnsureTable(dir);
      if ok {
        InstallNew(Loc(current, dir, ti), f, fill);
      } else {
        GiveBack(f);
      }
    }

    /** phys_free_frame on a frame that was not used after all. */
    method GiveBack(f: nat)
      requires Inv(S()) && f in loose
      modifies this`used, this`refs, this`free, this`loose
      ensures Inv(S()) && loose == old(loose) - {f} && free == old(free) + 1 && |used| == |old(used)|
    {
      hide Inv, FreeAt;
      InvInRange(S());
      HandBackKeeps(S(), f);
      FreeLoose(S(), f);
      PhysFree(f);
      loose := loose - {f};
    }

    static lemma FreeLoose(s: Vm, f: nat)
      requires Inv(s) && f in s.loose
      ensures |s.frames.used| == |s.frames.refs|
      ensures FreeAt(s.frames, f).free == s.frames.free + 1 && |FreeAt(s.frames, f).used| == |s.frames.used|
    {
      hide SysOk, SlotsOk, TablesOk, EntriesOk, SharingOk, SwapOk;
      assert f in SysFrames(s);
      SysUnnamed(s.ptes, SysFrames(s), s.frames, f);
    }

    /** A starved system has no room for anything. */
    static lemma RoomLess(s: Vm, kernelCr3: nat, l: Loc)
      requires Inv(s)
      ensures Starved(s, kernelCr3) ==> !MapRoom(s, kernelCr3, l) && s.frames.free == 0
      ensures s.frames.free > 0 ==> !Starved(s, kernelCr3)
    {
      hide Inv, CanPageOut;
      FreeFrameCount(s);
    }

    /** A write to a copy-on-write page: the last owner gets it back, any other gets a copy. */
    method HandleCowFault(dir: nat, ti: nat, present: bool, write: bool) returns (r: int)
      requires Inv(S()) && HandsOk()
      requires present <==> Loc(current, dir, ti) in ptes && ptes[Loc(current, dir, ti)].p
      modifies this`ptes, this`handMm, this`handPage, this`slotRefs, this`slotsUsed, this`swap, this`mem,
               this`used, this`refs, this`free, this`loose
      ensures Inv(S()) && HandsOk() && View(S()) == View(old(S())) && loose == old(loose)
      ensures var l := Loc(current, dir, ti);
        if present && write && old(ptes)[l].cow then
          (r == 1 || r == -1) && (r == 1 <==> CowRoom(old(S()), kernelCr3, l))
        else r == 0 && S() == old(S())
      ensures r == 1 ==> MappedPlain(ptes, Loc(current, dir, ti), true)
      ensures var l := Loc(current, dir, ti);
        r == 1 ==>
          && l in old(ptes) && l in ptes
          && if PageRefs(old(ptes), old(ptes)[l].num) == {l} then ptes == old(ptes)[l := old(ptes)[l].(w := true, cow := false)] && refs == old(refs)
             else ptes[l].num != old(ptes)[l].num
      ensures r == -1 ==> S() == old(S()).(ptes := ptes) && AccessedOnly(old(ptes), ptes)
      ensures ptes.Keys == old(ptes).Keys
    {
      hide Inv, ViewOf, Starved, AccessedOnly, UnrefAt;
      if !present || !write { return 0; }
      var l := Loc(current, dir, ti);
      InvInRange(S());
      PresentInRange(S(), l);
      if TableId(current, dir) !in tables { return 0; }
      var e := ptes[l];
      if !e.cow { return 0; }
      SoleRef(S(), l);
      if refs[e.num] <= 1 {
        CowReclaimKeeps(S(), l);
        ptes := ptes[l := e.(w := true, cow := false)];
        return 1;
      }
      var f := AllocFrameForPaging();
      if f == 0 { return -1; }
      LooseFrame(S(), f);
      assert l !in PageRefs(ptes, f);
      CopyPage(l, f);
      return 1;
    }

    static lemma SoleRef(s: Vm, l: Loc)
      requires Inv(s) && l in s.ptes && s.ptes[l].p
      ensures s.ptes[l].num < |s.frames.refs| && (s.frames.refs[s.ptes[l].num] <= 1 <==> PageRefs(s.ptes, s.ptes[l].num) == {l})
    {
      hide SysOk, SlotsOk, TablesOk, SharingOk, SwapOk;
      var f := s.ptes[l].num;
      assert l in PageRefs(s.ptes, f);
      assert s.frames.refs[f] == |PageRefs(s.ptes, f)|;
      if |PageRefs(s.ptes, f)| == 1 { Singleton(PageRefs(s.ptes, f), l); }
    }

    /** A copy-on-write fault can be served. */
    static ghost predicate CowRoom(s: Vm, kernelCr3: nat, l: Loc) {
      l in s.ptes && ((s.ptes[l].num < |s.frames.refs| && s.frames.refs[s.ptes[l].num] <= 1) || !Starved(s, kernelCr3))
    }

    static lemma PresentInRange(s: Vm, l: Loc)
      requires Inv(s) && l in s.ptes && s.ptes[l].p
      ensures TableOf(l) in s.tables && s.ptes[l].num < |s.frames.refs| == |s.frames.used| == |s.mem| && s.ptes[l].u
    {
      hide SysOk, SlotsOk, TablesOk, SharingOk, SwapOk;
    }

    /** Copies the shared page into frame f, maps f writable at l and drops the shared frame. */
    method CopyPage(l: Loc, f: nat)
      requires Inv(S()) && l in ptes && ptes[l].p && ptes[l].cow && f in loose
      modifies this`ptes, this`mem, this`used, this`refs, this`free, this`loose
      ensures Inv(S()) && View(S()) == View(old(S())) && loose == old(loose) - {f}
      ensures ptes == old(ptes)[l := Pte(true, true, old(ptes)[l].u, false, false, false, f)]
    {
      hide Inv, ViewOf, UnrefAt;
      ghost var s1 := S();
      InvInRange(s1);
      LooseFrame(s1, f);
      PresentInRange(s1, l);
      CowCopyKeeps(s1, l, f);
      var e := ptes[l];
      var scratch := mem[e.num];
      ptes := ptes[l := Pte(true, true, e.u, false, false, false, f)];
      mem := mem[f := scratch];
      FrameUnref(e.num);
      loose := loose - {f};
      assert S() == CowCopy(s1, l, f);
    }

    /** When the fault handler can serve an access to page l. */
    static ghost predicate Servable(s: Vm, kernelCr3: nat, l: Loc, write: bool, elf: Fill, mmap: Fill) {
      if l in s.ptes then
        if s.ptes[l].p then write && s.ptes[l].cow && CowRoom(s, kernelCr3, l) else !Starved(s, kernelCr3)
      else (elf.Fill? || mmap.Fill?) && MapRoom(s, kernelCr3, l)
    }

    /** The view once the fault on l is served: unchanged, unless l was empty and a region filled it. */
    static ghost function Served(v: map<Loc, PageView>, l: Loc, elf: Fill, mmap: Fill): map<Loc, PageView> {
      if l in v then v
      else if elf.Fill? then v[l := PageView(elf.page, elf.writable)]
      else if mmap.Fill? then v[l := PageView(mmap.page, mmap.writable)]
      else v
    }

    /**
     page_fault_handler: tries swap, ELF, mmap and COW in this order. In particular a swapped
     page whose swap-in failed is not overwritten by the lazy handlers that run after it.
     */
    method PageFault(dir: nat, ti: nat, write: bool, elf: Fill, mmap: Fill) returns (handled: bool)
      requires Inv(S()) && HandsOk() && current in dirs && dir < DIRS && dir !in kernelDirs && ti < ENTRIES
      modifies this`ptes, this`handMm, this`handPage, this`slotRefs, this`slotsUsed, this`swap, this`mem,
               this`used, this`refs, this`free, this`loose, this`tables
      ensures Inv(S()) && HandsOk() && loose == old(loose)
      ensures handled <==> Servable(old(S()), kernelCr3, Loc(current, dir, ti), write, elf, mmap)
      ensures View(S()) == if handled then Served(View(old(S())), Loc(current, dir, ti), elf, mmap) else View(old(S()))
      ensures var l := Loc(current, dir, ti);
        handled && l !in old(ptes) ==>
          && l in View(S()) && (elf.Fill? || mmap.Fill?)
          && View(S())[l] == if elf.Fill? then PageView(elf.page, elf.writable) else PageView(mmap.page, mmap.writable)
      ensures forall k :: k in old(ptes) ==> k in View(S()) && k in View(old(S())) && View(S())[k] == View(old(S()))[k]
      ensures var l := Loc(current, dir, ti);
        handled ==> exists w :: MappedPlain(ptes, l, w) && (l in old(ptes) && old(ptes)[l].p ==> w)
    {
      hide Inv, Starved, AccessedOnly, ViewOf, MapRoom;
      var l := Loc(current, dir, ti);
      ghost var s0 := S();
      ViewKeys(s0);
      SwappedMeansOn(s0, l);
      RoomLess(s0, kernelCr3, l);
      var present := l in ptes && ptes[l].p;
      var r := HandleSwapFault(dir, ti, present);
      if r > 0 { return true; }
      ghost var s1 := S();
      if r == -1 { StillStarved(s0, ptes, kernelCr3); }
      RoomLess(s1, kernelCr3, l);
      r := HandleLazyFault(dir, ti, present, elf);
      if r > 0 { return true; }
      if r == -1 && l in s1.ptes { StillStarved(s1, ptes, kernelCr3); }
      ghost var s2 := S();
      RoomLess(s2, kernelCr3, l);
      r := HandleLazyFault(dir, ti, present, mmap);
      if r > 0 { return true; }
      if r == -1 && l in s2.ptes { StillStarved(s2, ptes, kernelCr3); }
      r := HandleCowFault(dir, ti, present, write);
      return r > 0;
    }

    static lemma ViewKeys(s: Vm)
      ensures View(s).Keys == s.ptes.Keys
    {
    }

    static lemma StillStarved(s: Vm, ptes': map<Loc, Pte>, kernelCr3: nat)
      requires AccessedOnly(s.ptes, ptes')
      ensures Starved(s.(ptes := ptes'), kernelCr3) == Starved(s, kernelCr3)
      ensures forall l :: l in s.ptes && !s.ptes[l].p ==> l in ptes' && ptes'[l] == s.ptes[l]
    {
      AccessedOnlyStarved(s, ptes', kernelCr3);
    }

    // ----- what a program does ---------------------------------------------------------------

    /** The store succeeds: the page is, or the fault handler can make it, writable. */
    static ghost predicate Storable(s: Vm, kernelCr3: nat, l: Loc, elf: Fill, mmap: Fill) {
      if l in s.ptes then
        if s.ptes[l].p then s.ptes[l].w || (s.ptes[l].cow && CowRoom(s, kernelCr3, l))
        else s.ptes[l].w && !Starved(s, kernelCr3)
      else
        && (if elf.Fill? then elf.writable else mmap.Fill? && mmap.writable)
        && MapRoom(s, kernelCr3, l)
    }

    /**
     A store to a page that the space has succeeds only if the page is writable, and then always,
     unless memory is exhausted; one to an empty page takes the permission of its region.
     */
    static lemma StorableMeans(s: Vm, kernelCr3: nat, l: Loc, elf: Fill, mmap: Fill)
      requires Inv(s)
      ensures l in View(s) && Storable(s, kernelCr3, l, elf, mmap) ==> View(s)[l].writable
      ensures l in View(s) && View(s)[l].writable && !Starved(s, kernelCr3) ==> Storable(s, kernelCr3, l, elf, mmap)
      ensures l !in View(s) && Storable(s, kernelCr3, l, elf, mmap) ==> if elf.Fill? then elf.writable else mmap.Fill? && mmap.writable
      ensures l !in View(s) && (if elf.Fill? then elf.writable else mmap.Fill? && mmap.writable) && s.frames.free >= 2 ==>
        Storable(s, kernelCr3, l, elf, mmap)
    {
      hide Inv, ViewOf, CanPageOut;
      ViewEntry(s, l);
      SwappedMeansOn(s, l);
      RoomLess(s, kernelCr3, l);
    }

    /** The faults a store takes until the page is writable, or cannot be made so. */
    method MakeWritable(dir: nat, ti: nat, elf: Fill, mmap: Fill) returns (ok: bool)
      requires Inv(S()) && HandsOk() && current in dirs && dir < DIRS && dir !in kernelDirs && ti < ENTRIES
      modifies this`ptes, this`handMm, this`handPage, this`slotRefs, this`slotsUsed, this`swap, this`mem,
               this`used, this`refs, this`free, this`loose, this`tables
      ensures Inv(S()) && HandsOk() && loose == old(loose)
      ensures ok <==> Storable(old(S()), kernelCr3, Loc(current, dir, ti), elf, mmap)
      ensures ok ==> View(S()) == Served(View(old(S())), Loc(current, dir, ti), elf, mmap)
      ensures ok ==> Loc(current, dir, ti) in ptes && ptes[Loc(current, dir, ti)].p && ptes[Loc(current, dir, ti)].w
      ensures !ok ==> View(S()) == if Servable(old(S()), kernelCr3, Loc(current, dir, ti), true, elf, mmap)
                                   then Served(View(old(S())), Loc(current, dir, ti), elf, mmap) else View(old(S()))
    {
      hide Inv, Starved, ViewOf, MapRoom, CowRoom, Quiet;
      var l := Loc(current, dir, ti);
      ghost var s0 := S();
      SwappedMeansOn(s0, l);
      ViewEntry(s0, l);
      if l in ptes && ptes[l].p && ptes[l].w { return true; }
      var handled := PageFault(dir, ti, true, elf, mmap);
      if !handled { return false; }
      ViewEntry(S(), l);
      if ptes[l].w { return true; }
      handled := PageFault(dir, ti, true, elf, mmap);
      return false;
    }

    /**
     One byte stored by the running program, with the faults it takes on the way. If it goes
     through, that byte of that page of this address space changes, and no other page of any
     address space, whatever was copied, paged out or paged in meanwhile.
     */
    method UserStore(dir: nat, ti: nat, off: nat, b: Byte, elf: Fill, mmap: Fill) returns (ok: bool)
      requires Inv(S()) && HandsOk() && current in dirs && dir < DIRS && dir !in kernelDirs && ti < ENTRIES
      modifies this`ptes, this`handMm, this`handPage, this`slotRefs, this`slotsUsed, this`swap, this`mem,
               this`used, this`refs, this`free, this`loose, this`tables
      ensures Inv(S()) && HandsOk() && loose == old(loose)
      ensures ok <==> Storable(old(S()), kernelCr3, Loc(current, dir, ti), elf, mmap)
      ensures var l, v := Loc(current, dir, ti), Served(View(old(S())), Loc(current, dir, ti), elf, mmap);
        ok ==>
          && l in v && l in View(S()) && View(S()) == v[l := View(S())[l]] && View(S())[l].writable
          && |View(S())[l].contents| == |v[l].contents|
          && forall k :: 0 <= k < |v[l].contents| ==> View(S())[l].contents[k] == if k == off then b else v[l].contents[k]
      ensures var l, v := Loc(current, dir, ti), Served(View(old(S())), Loc(current, dir, ti), elf, mmap);
        ok ==> l in v && View(S()) == v[l := PageView(PutByte(v[l].contents, off, b), true)]
      ensures var l := Loc(current, dir, ti);
        ok && l in View(old(S())) ==> View(old(S()))[l].writable
      ensures !ok ==> View(S()) == if Servable(old(S()), kernelCr3, Loc(current, dir, ti), true, elf, mmap)
                                   then Served(View(old(S())), Loc(current, dir, ti), elf, mmap) else View(old(S()))
    {
      hide Inv, Storable, ViewOf, Served;
      var l := Loc(current, dir, ti);
      StorableMeans(S(), kernelCr3, l, elf, mmap);
      ok := MakeWritable(dir, ti, elf, mmap);
      if !ok { return false; }
      ghost var s1 := S();
      ViewEntry(s1, l);
      PresentInRange(s1, l);
      var e := ptes[l];
      StorePageKeeps(s1, l, PutByte(mem[e.num], off, b));
      mem := mem[e.num := PutByte(mem[e.num], off, b)];
      ptes := ptes[l := e.(a := true)];
    }

    static lemma ViewEntry(s: Vm, l: Loc)
      requires Inv(s)
      ensures l in View(s) <==> l in s.ptes
      ensures l in s.ptes ==> View(s)[l].writable == (s.ptes[l].w || s.ptes[l].cow)
      ensures l in s.ptes && s.ptes[l].p ==> s.ptes[l].num < |s.mem| && View(s)[l].contents == s.mem[s.ptes[l].num]
      ensures l in s.ptes && s.ptes[l].p ==> s.ptes[l].u && !(s.ptes[l].w && s.ptes[l].cow)
    {
      hide SysOk, SlotsOk, TablesOk, CountsOk, SharingOk, SwapOk;
    }

    // ----- address spaces ----------------------------------------------------------------------

    /** Clears one entry and gives back the frame or slot reference it held. */
    method DropEntry(l: Loc) returns (was: bool)
      requires Inv(S())
      modifies this`ptes, this`used, this`refs, this`free, this`slotRefs, this`slotsUsed
      ensures Inv(S()) && View(S()) == View(old(S())) - {l}
      ensures ptes == old(ptes) - {l} && (was <==> l in old(ptes))
      ensures |used| == |old(used)| && |slotRefs| == |old(slotRefs)|
    {
      hide Inv, ViewOf, UnrefAt, SlotUnrefAt;
      ghost var s0 := S();
      InvInRange(s0);
      AccountSizes(s0, l);
      if l !in ptes {
        DropNothing(s0, l);
        return false;
      }
      var e := ptes[l];
      ptes := ptes - {l};
      if e.p {
        DropPageKeeps(s0, l);
        FrameUnref(e.num);
      } else {
        DropSwappedKeeps(s0, l);
        SwapSlotUnref(e.num);
      }
      return true;
    }

    static lemma AccountSizes(s: Vm, l: Loc)
      requires |s.frames.used| == |s.frames.refs|
      ensures l in s.ptes ==> |UnrefAt(s.frames, s.ptes[l].num).used| == |s.frames.used|
      ensures l in s.ptes ==> |SlotUnrefAt(Counts(s), s.ptes[l].num).refs| == |s.slotRefs|
    {
    }

    static lemma DropNothing(s: Vm, l: Loc)
      requires l !in s.ptes
      ensures s.ptes - {l} == s.ptes && View(s) - {l} == View(s)
    {
    }

    /** munmap's part: pages first .. first+count-1 of the current space disappear, nothing else. */
    method UnmapRange(first: nat, count: nat) returns (changed: bool)
      requires Inv(S()) && first + count <= PAGES_PER_PD
      modifies this`ptes, this`used, this`refs, this`free, this`slotRefs, this`slotsUsed
      ensures Inv(S()) && View(S()) == Minus(View(old(S())), current, first, first + count)
      ensures changed <==> exists l :: l in old(ptes) && l.mm == current && first <= PageIndex(l) < first + count
    {
      hide Inv, ViewOf, Minus;
      ghost var v0 := View(S());
      MinusNone(v0, current, first);
      MinusNone(ptes, current, first);
      ViewInRange(S());
      changed := false;
      var n := first;
      while n < first + count
        invariant first <= n <= first + count && Inv(S())
        invariant View(S()) == Minus(v0, current, first, n) && ptes == Minus(old(ptes), current, first, n)
        invariant changed <==> exists l :: l in old(ptes) && l.mm == current && first <= PageIndex(l) < n
      {
        MinusStep(v0, current, first, n);
        MinusStep(old(ptes), current, first, n);
        MinusHas(old(ptes), current, first, n);
        var was := DropEntry(LocOf(current, n));
        if was { changed := true; }
        n := n + 1;
      }
    }

    /** The first page after the bytes start .. start+size-1, rounded up in 32-bit arithmetic. */
    static function EndPage(start: nat, size: nat): nat { (start + size + PAGE_SIZE - 1) % U32 / PAGE_SIZE }

    /**
     paging_unmap_user_range: the pages from the first byte's to the rounded end. Refused
     when the range is empty; UnmapSpan says which ranges those are.
     */
    method UnmapUserRange(start: nat, size: nat) returns (rc: int)
      requires Inv(S()) && start < U32 && size < U32
      modifies this`ptes, this`used, this`refs, this`free, this`slotRefs, this`slotsUsed
      ensures Inv(S())
      ensures rc == -1 <==> size == 0 || EndPage(start, size) <= start / PAGE_SIZE
      ensures rc == -1 ==> S() == old(S())
      ensures var first, end := start / PAGE_SIZE, EndPage(start, size);
        rc != -1 ==>
          && View(S()) == Minus(View(old(S())), current, first, end)
          && rc == if exists l :: l in old(ptes) && l.mm == current && first <= PageIndex(l) < end then 1 else 0
    {
      hide Inv, ViewOf, Minus;
      if size == 0 { return -1; }
      var s := start - start % PAGE_SIZE;
      var e := (start + size + PAGE_SIZE - 1) % U32;
      e := e - e % PAGE_SIZE;
      if e <= s { return -1; }
      var changed := UnmapRange(s / PAGE_SIZE, e / PAGE_SIZE - s / PAGE_SIZE);
      return if changed then 1 else 0;
    }

    /**
     A range that ends below the last page of memory is unmapped whole. One that reaches
     further wraps: it is refused, or, if it is almost all of memory, cut to its first page.
     */
    static lemma UnmapSpan(start: nat, size: nat)
      requires start < U32 && 0 < size < U32
      ensures var first, end := start / PAGE_SIZE, EndPage(start, size);
        if start + size <= U32 - PAGE_SIZE then first * PAGE_SIZE <= start && end * PAGE_SIZE - PAGE_SIZE < start + size <= end * PAGE_SIZE
        else if start % PAGE_SIZE + size > U32 && first + 1 < PAGES_PER_PD then end == first + 1
        else end <= first
    {
    }

    static lemma MinusHas(ptes: map<Loc, Pte>, m: nat, a: nat, n: nat)
      requires AllInRange(ptes) && a <= n < PAGES_PER_PD
      ensures LocOf(m, n) in Minus(ptes, m, a, n) <==> LocOf(m, n) in ptes
      ensures (exists l :: l in ptes && l.mm == m && a <= PageIndex(l) < n + 1) <==>
              (LocOf(m, n) in ptes || exists l :: l in ptes && l.mm == m && a <= PageIndex(l) < n)
    {
      assert PageIndex(LocOf(m, n)) == n;
      forall l | l in ptes && l.mm == m && PageIndex(l) == n ensures l == LocOf(m, n) { LocOfIndex(l); }
    }

    static lemma ViewInRange(s: Vm)
      requires Inv(s)
      ensures AllInRange(View(s)) && AllInRange(s.ptes)
    {
      hide SysOk, SlotsOk, CountsOk, SharingOk, SwapOk;
    }

    /** The tables that are left once the first i directory entries of m are gone. */
    static ghost function TablesLeft(tables: map<TableId, nat>, m: nat, i: nat): map<TableId, nat> {
      map t | t in tables && !(t.mm == m && t.dir < i) :: tables[t]
    }

    /** Gives back every page, slot and table of a directory that no slot lists, then the directory. */
    method DestroyMm(m: nat)
      requires Inv(S()) && m in dirs && m !in SlotCr3s(slots)
      modifies this`ptes, this`used, this`refs, this`free, this`slotRefs, this`slotsUsed, this`tables, this`dirs
      ensures Inv(S()) && dirs == old(dirs) - {m} && View(S()) == WithoutMm(View(old(S())), m)
      ensures ptes == WithoutMm(old(ptes), m) && tables == TablesLeft(old(tables), m, DIRS)
      ensures |used| == |old(used)| && |slotRefs| == |old(slotRefs)|
    {
      hide Inv, ViewOf, Minus, TablesLeft, WithoutMm;
      ghost var v0, t0 := View(S()), tables;
      MinusNone(v0, m, 0);
      MinusNone(ptes, m, 0);
      TablesLeftNone(tables, m);
      ViewInRange(S());
      var i := 0;
      while i < DIRS
        invariant 0 <= i <= DIRS && Inv(S())
        invariant View(S()) == Minus(v0, m, 0, i * ENTRIES) && ptes == Minus(old(ptes), m, 0, i * ENTRIES)
        invariant tables == TablesLeft(t0, m, i) && dirs == old(dirs)
        invariant |used| == |old(used)| && |slotRefs| == |old(slotRefs)|
      {
        DestroyTable(m, i, v0, old(ptes));
        TablesLeftStep(t0, m, i);
        i := i + 1;
      }
      MinusAll(v0, m);
      MinusAll(old(ptes), m);
      TablesGone(S(), t0, m);
      InvInRange(S());
      FreeSizes(S().frames, m);
      DropDirKeeps(S(), m);
      PhysFree(m);
      dirs := dirs - {m};
    }

    /** One directory entry: drops the 1024 entries of its table, if there is one, then the table. */
    method DestroyTable(m: nat, i: nat, ghost v0: map<Loc, PageView>, ghost p0: map<Loc, Pte>)
      requires Inv(S()) && i < DIRS && AllInRange(v0) && AllInRange(p0)
      requires View(S()) == Minus(v0, m, 0, i * ENTRIES) && ptes == Minus(p0, m, 0, i * ENTRIES)
      modifies this`ptes, this`used, this`refs, this`free, this`slotRefs, this`slotsUsed, this`tables
      ensures Inv(S())
      ensures View(S()) == Minus(v0, m, 0, (i + 1) * ENTRIES) && ptes == Minus(p0, m, 0, (i + 1) * ENTRIES)
      ensures tables == old(tables) - {TableId(m, i)}
      ensures |used| == |old(used)| && |slotRefs| == |old(slotRefs)|
    {
      hide Inv, ViewOf, Minus, FreeAt;
      var t := TableId(m, i);
      if t !in tables {
        assert tables - {t} == tables;
        NoTableNoEntries(S(), v0, p0, m, i);
        return;
      }
      var j := 0;
      while j < ENTRIES
        invariant 0 <= j <= ENTRIES && Inv(S()) && tables == old(tables)
        invariant View(S()) == Minus(v0, m, 0, i * ENTRIES + j) && ptes == Minus(p0, m, 0, i * ENTRIES + j)
        invariant |used| == |old(used)| && |slotRefs| == |old(slotRefs)|
      {
        var n := i * ENTRIES + j;
        assert LocOf(m, n) == Loc(m, i, j);
        MinusStep(v0, m, 0, n);
        MinusStep(p0, m, 0, n);
        var _ := DropEntry(Loc(m, i, j));
        j := j + 1;
      }
      TableEmpty(S(), p0, m, i);
      DropTableKeeps(S(), t);
      InvInRange(S());
      FreeSizes(S().frames, tables[t]);
      PhysFree(tables[t]);
      tables := tables - {t};
    }

    static lemma FreeSizes(p: Frames, f: nat)
      requires |p.used| == |p.refs|
      ensures |FreeAt(p, f).used| == |p.used|
    {
    }

    static lemma TableEmpty(s: Vm, p0: map<Loc, Pte>, m: nat, i: nat)
      requires Inv(s) && s.ptes == Minus(p0, m, 0, (i + 1) * ENTRIES)
      ensures forall l :: l in s.ptes ==> TableOf(l) != TableId(m, i)
    {
      hide SysOk, SlotsOk, TablesOk, CountsOk, SharingOk, SwapOk;
    }

    static lemma NoTableNoEntries(s: Vm, v0: map<Loc, PageView>, p0: map<Loc, Pte>, m: nat, i: nat)
      requires Inv(s) && TableId(m, i) !in s.tables && i < DIRS && AllInRange(v0) && AllInRange(p0)
      requires View(s) == Minus(v0, m, 0, i * ENTRIES) && s.ptes == Minus(p0, m, 0, i * ENTRIES)
      ensures View(s) == Minus(v0, m, 0, (i + 1) * ENTRIES) && s.ptes == Minus(p0, m, 0, (i + 1) * ENTRIES)
    {
      hide SysOk, SlotsOk, TablesOk, CountsOk, SharingOk, SwapOk;
      ViewKeys(s);
      forall l: Loc | InRange(l) && l.mm == m && i * ENTRIES <= PageIndex(l) < (i + 1) * ENTRIES
        ensures l !in p0 && l !in v0
      {
        assert TableOf(l) == TableId(m, i);
        assert l !in s.ptes && l !in View(s);
      }
    }

    static lemma TablesLeftNone(tables: map<TableId, nat>, m: nat)
      ensures TablesLeft(tables, m, 0) == tables
    {
    }

    static lemma TablesLeftStep(tables: map<TableId, nat>, m: nat, i: nat)
      ensures TablesLeft(tables, m, i + 1) == TablesLeft(tables, m, i) - {TableId(m, i)}
    {
    }

    static lemma TablesGone(s: Vm, t0: map<TableId, nat>, m: nat)
      requires Inv(s) && s.tables == TablesLeft(t0, m, DIRS)
      ensures forall t :: t in s.tables ==> t.mm != m
    {
      hide SysOk, SlotsOk, EntriesOk, CountsOk, SharingOk, SwapOk;
    }

    method FindSlot(m: nat) returns (found: bool, i: nat)
      ensures found ==> i < |slots| && slots[i].used && slots[i].cr3 == m
      ensures !found ==> m !in SlotCr3s(slots)
    {
      i := 0;
      while i < |slots|
        invariant 0 <= i <= |slots|
        invariant forall j :: 0 <= j < i ==> !(slots[j].used && slots[j].cr3 == m)
      {
        if slots[i].used && slots[i].cr3 == m { return true, i; }
        i := i + 1;
      }
      return false, 0;
    }

    static ghost predicate HasUnusedSlot(slots: seq<MmSlot>) { exists i :: 0 <= i < |slots| && !slots[i].used }

    /** A fresh directory without user pages, listed with one reference. */
    method CreateMm() returns (rc: int, m: nat)
      requires Quiet(S())
      modifies this`used, this`refs, this`free, this`loose, this`slots, this`dirs
      ensures Quiet(S()) && |slots| == |old(slots)|
      ensures rc == if old(free) == 0 then -3 else if !HasUnusedSlot(old(slots)) then -4 else 0
      ensures rc == 0 <==> m != 0
      ensures m == 0 ==> S() == old(S())
      ensures m != 0 ==> m !in old(dirs) && dirs == old(dirs) + {m} && free == old(free) - 1
      ensures m != 0 ==> forall i :: 0 <= i < |slots| && slots[i].used && slots[i].cr3 == m ==> slots[i].refs == 1
      ensures m != 0 ==> forall i :: 0 <= i < |slots| ==> slots[i] == old(slots)[i] || slots[i] == MmSlot(true, m, 1)
      ensures |used| == |old(used)|
    {
      hide Inv, HasFreeFrame;
      ghost var s0 := S();
      var f := AllocFrame();
      AllocatedWasFree(s0, f);
      if f == 0 { return -3, 0; }
      ghost var s1 := S();
      FreshDir(s0, f);
      var i := 0;
      while i < |slots|
        invariant 0 <= i <= |slots| && S() == s1
        invariant forall j :: 0 <= j < i ==> slots[j].used
      {
        if !slots[i].used {
          AddMmKeeps(s1, i, f);
          slots := slots[i := MmSlot(true, f, 1)];
          dirs := dirs + {f};
          loose := loose - {f};
          assert S() == AddMm(s1, i, f);
          return 0, f;
        }
        i := i + 1;
      }
      GiveBack(f);
      InvInRange(s0);
      InvInRange(S());
      AccountsDetermined(s0, S());
      return -4, 0;
    }

    /** A frame that was free is not a directory, and the slot table does not list it. */
    static lemma FreshDir(s: Vm, f: nat)
      requires Quiet(s) && f < |s.frames.used| && !s.frames.used[f]
      ensures f !in s.dirs
      ensures forall i :: 0 <= i < |s.slots| && s.slots[i].used ==> s.slots[i].cr3 != f
    {
      hide SysOk, TablesOk, EntriesOk, CountsOk, SharingOk, SwapOk;
      FrameUnlisted(s, f);
    }

    static lemma FrameUnlisted(s: Vm, f: nat)
      requires Inv(s) && f < |s.frames.used| && !s.frames.used[f]
      ensures f !in s.dirs
    {
      hide SysOk, SlotsOk, TablesOk, EntriesOk, SharingOk, SwapOk;
      FreeFrameUnnamed(s, f);
    }

    /**
     Another task uses address space m: one more reference, or, for a directory that no slot
     lists, a slot of its own if there is one.
     */
    method RetainMm(m: nat)
      requires Inv(S()) && (m == 0 || m in dirs)
      modifies this`slots
      ensures Inv(S()) && |slots| == |old(slots)| && (old(Quiet(S())) ==> Quiet(S()))
      ensures m == 0 ==> slots == old(slots)
      ensures m != 0 && m in SlotCr3s(old(slots)) ==> forall i :: 0 <= i < |slots| ==>
        slots[i] == if old(slots)[i].used && old(slots)[i].cr3 == m then old(slots)[i].(refs := old(slots)[i].refs + 1) else old(slots)[i]
      ensures m != 0 && m !in SlotCr3s(old(slots)) ==>
        if HasUnusedSlot(old(slots)) then
          exists i :: 0 <= i < |slots| && !old(slots)[i].used && slots == old(slots)[i := MmSlot(true, m, 1)]
        else slots == old(slots)
    {
      hide Inv, SlotCr3s;
      if m == 0 { return; }
      ghost var s0 := S();
      InvInRange(s0);
      SlotListed(slots, m);
      var found, i := FindSlot(m);
      if found {
        OneSlot(s0, i);
        OnlySlot(s0, i);
        RecountKeeps(s0, i, slots[i].refs + 1);
        slots := slots[i := slots[i].(refs := slots[i].refs + 1)];
        return;
      }
      i := 0;
      while i < |slots|
        invariant 0 <= i <= |slots| && slots == s0.slots && forall j :: 0 <= j < i ==> slots[j].used
      {
        if !slots[i].used {
          RelistKeeps(s0, i, m);
          slots := slots[i := MmSlot(true, m, 1)];
          return;
        }
        i := i + 1;
      }
    }

    static lemma OnlySlot(s: Vm, i: nat)
      requires Inv(s) && i < |s.slots| && s.slots[i].used
      ensures forall j :: 0 <= j < |s.slots| && s.slots[j].used && s.slots[j].cr3 == s.slots[i].cr3 ==> j == i
    {
      hide SysOk, TablesOk, EntriesOk, CountsOk, SharingOk, SwapOk;
    }

    /** Some slot lists m with a single reference. */
    static ghost predicate LastRef(slots: seq<MmSlot>, m: nat) {
      exists i :: 0 <= i < |slots| && slots[i].used && slots[i].cr3 == m && slots[i].refs == 1
    }

    /**
     A task stops using address space m. The last release removes exactly m's pages from the
     world and gives back its references, tables and directory. Only the last release of the
     kernel's own space leaves a directory that no slot lists: it is never destroyed.
     */
    method ReleaseMm(m: nat)
      requires Quiet(S())
      modifies this`ptes, this`used, this`refs, this`free, this`slotRefs, this`slotsUsed, this`tables, this`dirs, this`slots
      ensures Inv(S()) && |slots| == |old(slots)| && |used| == |old(used)| && |slotRefs| == |old(slotRefs)|
      ensures Quiet(S()) <==> !(m == kernelCr3 && LastRef(old(slots), m))
      ensures m !in old(dirs) ==> S() == old(S())
      ensures forall i :: 0 <= i < |slots| && old(slots)[i].used && old(slots)[i].cr3 == m ==>
        if old(slots)[i].refs > 1 then
          S() == old(S()).(slots := old(slots)[i := old(slots)[i].(refs := old(slots)[i].refs - 1)])
        else if m == kernelCr3 then
          S() == old(S()).(slots := old(slots)[i := MmSlot(false, 0, 0)])
        else
          && slots == old(slots)[i := MmSlot(false, 0, 0)] && dirs == old(dirs) - {m}
          && ptes == WithoutMm(old(ptes), m) && tables == TablesLeft(old(tables), m, DIRS)
          && View(S()) == WithoutMm(View(old(S())), m)
    {
      hide Inv, ViewOf, WithoutMm, TablesLeft, SlotCr3s;
      ghost var s0 := S();
      InvInRange(s0);
      var found, i := FindSlot(m);
      SlotListed(slots, m);
      if !found { return; }
      OneSlot(s0, i);
      if slots[i].refs > 1 {
        RecountKeeps(s0, i, slots[i].refs - 1);
        slots := slots[i := slots[i].(refs := slots[i].refs - 1)];
        return;
      }
      ClearSlotKeeps(s0, i);
      slots := slots[i := MmSlot(false, 0, 0)];
      if m == kernelCr3 { return; }
      DestroyMm(m);
    }

    /** A listed space has one slot, whose count is positive. */
    static lemma OneSlot(s: Vm, i: nat)
      requires Inv(s) && i < |s.slots| && s.slots[i].used
      ensures s.slots[i].refs > 0 && s.slots[i].cr3 in s.dirs
      ensures LastRef(s.slots, s.slots[i].cr3) <==> s.slots[i].refs == 1
    {
      hide SysOk, TablesOk, EntriesOk, CountsOk, SharingOk, SwapOk;
    }

    static lemma SlotListed(slots: seq<MmSlot>, m: nat)
      ensures m in SlotCr3s(slots) <==> exists i :: 0 <= i < |slots| && slots[i].used && slots[i].cr3 == m
    {
    }

    /** One entry of a fork: the child gets the parent's page or slot, and both lose the write bit. */
    method ForkEntry(l: Loc, child: nat)
      requires Inv(S()) && l in ptes && child in dirs && TableId(child, l.dir) in tables && Loc(child, l.dir, l.ti) !in ptes
      modifies this`ptes, this`refs, this`slotRefs, this`slotsUsed
      ensures Inv(S())
      ensures l in View(old(S())) && View(S()) == View(old(S()))[Loc(child, l.dir, l.ti) := View(old(S()))[l]]
      ensures var e := if old(ptes)[l].p then ForkPte(old(ptes)[l]) else old(ptes)[l];
              ptes == old(ptes)[l := e][Loc(child, l.dir, l.ti) := e]
      ensures |refs| == |old(refs)| && |slotRefs| == |old(slotRefs)|
    {
      hide Inv, ViewOf, RefAt, SlotRefAt;
      ghost var s0 := S();
      InvInRange(s0);
      ViewKeys(s0);
      ForkSizes(s0, ptes[l].num);
      var c := Loc(child, l.dir, l.ti);
      var e := ptes[l];
      if !e.p {
        ShareSwappedKeeps(s0, l, child);
        ptes := ptes[c := e];
        SwapSlotRef(e.num);
        assert ptes == s0.ptes[l := e][c := e];
        assert S() == ShareSwapped(s0, l, child);
      } else {
        SharePageKeeps(s0, l, child);
        if e.w || e.cow {
          e := e.(cow := true, w := false);
          ptes := ptes[l := e];
        }
        ptes := ptes[c := e];
        FrameRef(e.num);
        assert ptes == s0.ptes[l := e][c := e];
        assert S() == SharePage(s0, l, child);
      }
    }

    static lemma ForkSizes(s: Vm, f: nat)
      requires |s.frames.used| == |s.frames.refs|
      ensures |RefAt(s.frames, f).refs| == |s.frames.refs| && |SlotRefAt(Counts(s), f).refs| == |s.slotRefs|
      ensures RefAt(s.frames, f).used == s.frames.used && RefAt(s.frames, f).free == s.frames.free
    {
    }

    /** One row of a fork: the 1024 entries of the parent's table i. */
    method ForkRow(i: nat, child: nat, ghost v0: map<Loc, PageView>, ghost p0: map<Loc, Pte>)
      requires Inv(S()) && i < DIRS && child in dirs && child != current
      requires TableId(child, i) in tables && TableId(current, i) in tables
      requires AllInRange(v0) && (forall l :: l in v0 ==> l.mm != child)
      requires View(S()) == CopyTo(v0, current, child, i * ENTRIES) && NamesKept(p0, ptes, child)
      modifies this`ptes, this`refs, this`slotRefs, this`slotsUsed
      ensures Inv(S())
      ensures View(S()) == CopyTo(v0, current, child, (i + 1) * ENTRIES) && NamesKept(p0, ptes, child)
      ensures |refs| == |old(refs)| && |slotRefs| == |old(slotRefs)|
    {
      hide Inv, ViewOf, CopyTo, NamesKept;
      var j := 0;
      while j < ENTRIES
        invariant 0 <= j <= ENTRIES && Inv(S())
        invariant View(S()) == CopyTo(v0, current, child, i * ENTRIES + j) && NamesKept(p0, ptes, child)
        invariant |refs| == |old(refs)| && |slotRefs| == |old(slotRefs)|
      {
        ghost var n := i * ENTRIES + j;
        assert LocOf(current, n) == Loc(current, i, j) && LocOf(child, n) == Loc(child, i, j);
        CopyFrontier(v0, current, child, n);
        CopyStep(v0, current, child, n);
        ViewKeys(S());
        var l := Loc(current, i, j);
        if l in ptes {
          ghost var q := ptes;
          ForkEntry(l, child);
          NamesKeptShare(p0, q, child, l, Loc(child, i, j), ptes[l], ptes[l]);
        }
        j := j + 1;
      }
    }

    /** How far a fork has come: rows below i are copied, each into a table of its own. */
    ghost predicate ForkedTo(s0: Vm, child: nat, i: nat)
      reads this
    {
      && Inv(S()) && loose == {} && child in dirs && child != current
      && View(S()) == CopyTo(View(s0), current, child, i * ENTRIES) && NamesKept(s0.ptes, ptes, child)
      && TablesLeft(tables, child, DIRS) == s0.tables && (forall t :: t in tables && t.mm == child ==> t.dir < i)
      && |used| == |s0.frames.used| && |slotRefs| == |s0.slotRefs|
    }

    /** Copies the parent's rows to the child, as long as there are frames for the child's tables. */
    method ForkRows(child: nat, ghost s0: Vm) returns (ok: bool)
      requires ForkedTo(s0, child, 0) && Inv(s0) && child !in s0.dirs && current in s0.dirs
      modifies this`ptes, this`used, this`refs, this`free, this`loose, this`slotRefs, this`slotsUsed, this`tables
      ensures exists i :: 0 <= i <= DIRS && ForkedTo(s0, child, i) && (ok ==> i == DIRS)
      ensures ok <==> old(free) >= |RowsOf(s0.tables, current, DIRS)|
      ensures ok ==> free == old(free) - |RowsOf(s0.tables, current, DIRS)|
    {
      hide ForkedTo, Inv, RowsOf;
      RowsStart(s0.tables, current);
      var i := 0;
      while i < DIRS
        invariant 0 <= i <= DIRS && ForkedTo(s0, child, i)
        invariant free == old(free) - |RowsOf(s0.tables, current, i)|
      {
        RowsStep(s0.tables, current, i);
        RowsMono(s0.tables, current, i + 1, DIRS);
        ForkedTables(s0, child, i);
        var made := ForkOneRow(i, child, s0);
        if !made { return false; }
        i := i + 1;
      }
      return true;
    }

    static lemma RowsStart(tables: map<TableId, nat>, m: nat)
      ensures |RowsOf(tables, m, 0)| == 0
    {
      assert RowsOf(tables, m, 0) == {};
    }

    lemma ForkedTables(s0: Vm, child: nat, i: nat)
      requires ForkedTo(s0, child, i)
      ensures TableId(current, i) in tables <==> TableId(current, i) in s0.tables
      ensures child in dirs && child != current
    {
      hide Inv, ViewOf, CopyTo, NamesKept;
    }

    method ForkOneRow(i: nat, child: nat, ghost s0: Vm) returns (ok: bool)
      requires ForkedTo(s0, child, i) && Inv(s0) && child !in s0.dirs && current in s0.dirs && i < DIRS
      modifies this`ptes, this`used, this`refs, this`free, this`loose, this`slotRefs, this`slotsUsed, this`tables
      ensures ok <==> TableId(current, i) !in old(tables) || old(free) > 0
      ensures ok ==> ForkedTo(s0, child, i + 1)
      ensures ok ==> free == old(free) - (if TableId(current, i) in old(tables) then 1 else 0)
      ensures !ok ==> ForkedTo(s0, child, i)
    {
      hide Inv, ViewOf, CopyTo, NamesKept, TablesLeft, HasFreeFrame;
      ViewInRange(s0);
      NoChildPages(s0, child);
      if TableId(current, i) !in tables {
        TablesKept(s0, tables, child, TableId(current, i));
        EmptyRow(s0, current, i);
        CopyEmptyRow(View(s0), current, child, i);
        return true;
      }
      ghost var s1 := S();
      var f := AllocFrame();
      AllocatedWasFree(s1, f);
      if f == 0 { return false; }
      var t := TableId(child, i);
      UserRow(s1, TableId(current, i));
      AddTableKeeps(S(), t, f);
      TablesLeftAdd(tables, child, t, f);
      tables := tables[t := f];
      loose := loose - {f};
      assert loose == {};
      InvInRange(S());
      ForkRow(i, child, View(s0), s0.ptes);
      InvInRange(S());
      return true;
    }

    static lemma UserRow(s: Vm, t: TableId)
      requires Inv(s) && t in s.tables
      ensures t.mm in s.dirs && t.dir < DIRS && t.dir !in s.kernelDirs
    {
      hide SysOk, SlotsOk, EntriesOk, CountsOk, SharingOk, SwapOk;
    }

    static lemma TablesLeftAdd(tables: map<TableId, nat>, child: nat, t: TableId, f: nat)
      requires t.mm == child && t.dir < DIRS
      ensures TablesLeft(tables[t := f], child, DIRS) == TablesLeft(tables, child, DIRS)
    {
    }

    static lemma TablesKept(s0: Vm, tables: map<TableId, nat>, child: nat, t: TableId)
      requires TablesLeft(tables, child, DIRS) == s0.tables && t.mm != child
      ensures t in tables <==> t in s0.tables
    {
    }

    static lemma NoChildPages(s: Vm, child: nat)
      requires Inv(s) && child !in s.dirs
      ensures (forall l :: l in View(s) ==> l.mm != child) && (forall l :: l in s.ptes ==> l.mm != child)
    {
      hide SysOk, SlotsOk, CountsOk, SharingOk, SwapOk;
      forall l | l in s.ptes ensures l.mm != child { assert TableOf(l) in s.tables; }
    }

    static lemma EmptyRow(s: Vm, m: nat, i: nat)
      requires Inv(s) && TableId(m, i) !in s.tables
      ensures forall l :: l in View(s) && l.mm == m ==> l.dir != i
    {
      hide SysOk, SlotsOk, TablesOk, CountsOk, SharingOk, SwapOk;
      ViewKeys(s);
      forall l | l in s.ptes && l.mm == m ensures l.dir != i { assert TableOf(l) in s.tables; }
    }

    /** fork can succeed: a slot, a frame for the directory and one for each table of the parent. */
    static ghost predicate ForkRoom(s: Vm, parent: nat) {
      HasUnusedSlot(s.slots) && s.frames.free >= 1 + |RowsOf(s.tables, parent, DIRS)|
    }

    /**
     paging_fork_current_cow. A successful fork adds a child whose pages are copies of the
     parent's and changes no page of any other space. A fork that runs out of frames half way
     gives back exactly what it took: every account and every view is as before.
     */
    method Fork() returns (rc: int, child: nat)
      requires Quiet(S()) && kernelCr3 in dirs && current in dirs
      modifies this`ptes, this`used, this`refs, this`free, this`loose, this`slotRefs, this`slotsUsed, this`tables,
               this`dirs, this`slots
      ensures Quiet(S()) && kernelCr3 in dirs && |slots| == |old(slots)|
      ensures child != 0 <==> ForkRoom(old(S()), current)
      ensures rc == if child != 0 then 0 else if old(free) > 0 && !HasUnusedSlot(old(slots)) then -4 else -3
      ensures child != 0 ==>
        && child !in old(dirs) && dirs == old(dirs) + {child}
        && View(S()) == ForkView(View(old(S())), current, child)
        && free == old(free) - 1 - |RowsOf(old(tables), current, DIRS)|
      ensures child == 0 ==>
        && View(S()) == View(old(S())) && dirs == old(dirs) && tables == old(tables) && SameNames(old(ptes), ptes)
        && used == old(used) && refs == old(refs) && free == old(free)
        && slotRefs == old(slotRefs) && slotsUsed == old(slotsUsed)
    {
      hide Inv, ViewOf, CopyTo, ForkedTo, RowsOf, SameNames, SlotCr3s, HasUnusedSlot;
      ghost var s0 := S();
      SameNamesRefl(ptes);
      rc, child := CreateMm();
      if rc < 0 { return rc, 0; }
      ForkStart(s0, child);
      var ok := ForkRows(child, s0);
      if ok {
        ForkEnd(s0, child, DIRS);
        return 0, child;
      }
      ghost var i :| 0 <= i <= DIRS && ForkedTo(s0, child, i);
      UndoFork(child, s0, i);
      return -3, 0;
    }

    lemma ForkStart(s0: Vm, child: nat)
      requires Inv(s0) && child !in s0.dirs && current in s0.dirs
      requires Inv(S()) && loose == {} && child in dirs
      requires ptes == s0.ptes && tables == s0.tables && mem == s0.mem && swap == s0.swap
      requires |used| == |s0.frames.used| && |slotRefs| == |s0.slotRefs|
      ensures ForkedTo(s0, child, 0)
    {
      hide Inv, ViewOf, CopyTo, NamesKept;
      NoChildPages(s0, child);
      CopyNone(View(s0), current, child);
      NamesKeptStart(ptes, child);
      NoChildTables(s0, child);
    }

    static lemma NoChildTables(s: Vm, child: nat)
      requires Inv(s) && child !in s.dirs
      ensures TablesLeft(s.tables, child, DIRS) == s.tables && forall t :: t in s.tables ==> t.mm != child
    {
      hide SysOk, SlotsOk, EntriesOk, CountsOk, SharingOk, SwapOk;
    }

    static lemma SameNamesRefl(ptes: map<Loc, Pte>)
      ensures SameNames(ptes, ptes)
    {
    }

    lemma ForkEnd(s0: Vm, child: nat, i: nat)
      requires ForkedTo(s0, child, i)
      ensures Inv(S()) && loose == {} && (i == DIRS ==> View(S()) == ForkView(View(s0), current, child))
    {
      hide Inv, ViewOf, CopyTo, NamesKept, TablesLeft;
    }

    /** Releases a half-made child; the accounts come back because the structure determines them. */
    method UndoFork(child: nat, ghost s0: Vm, ghost i: nat)
      requires ForkedTo(s0, child, i) && Quiet(s0) && child !in s0.dirs && dirs == s0.dirs + {child} && child != kernelCr3
      requires dirs == SlotCr3s(slots)
      requires forall j :: 0 <= j < |slots| && slots[j].used && slots[j].cr3 == child ==> slots[j].refs == 1
      requires s0.reserved == reserved && s0.swapOn == swapOn
      modifies this`ptes, this`used, this`refs, this`free, this`slotRefs, this`slotsUsed, this`tables, this`dirs, this`slots
      ensures Quiet(S()) && View(S()) == View(s0) && dirs == s0.dirs && tables == s0.tables && SameNames(s0.ptes, ptes)
      ensures |slots| == |old(slots)|
      ensures Frames(used, refs, free) == s0.frames && slotRefs == s0.slotRefs && slotsUsed == s0.slotsUsed
    {
      hide Inv, ViewOf, CopyTo, SameNames, TablesLeft, SlotCr3s, WithoutMm;
      NoChildPages(s0, child);
      PartialCopyUndone(View(s0), current, child, i * ENTRIES);
      SlotListed(slots, child);
      ReleaseMm(child);
      assert dirs == s0.dirs;
      InvInRange(S());
      InvInRange(s0);
      AccountsDetermined(s0, S());
    }

    /** Loads another address space. */
    method SwitchMm(m: nat)
      modifies this`current
      ensures current == if m == 0 then old(current) else m
    {
      if m == 0 || m == current { return; }
      current := m;
    }

    /** There is a frame for a page at l, by paging out if need be, after one for its table if that is missing. */
    static ghost predicate MapUserRoom(s: Vm, kernelCr3: nat, l: Loc) {
      if TableOf(l) in s.tables then !Starved(s, kernelCr3) else s.frames.free >= 2 || (s.frames.free == 1 && CanPageOut(s, kernelCr3))
    }

    /**
     paging_map_user: a zeroed writable page at a page that is not present. The entry is
     overwritten even if it is a swapped one; if there is room for the page the accounts are then
     lost, because its swap slot is still counted (see OverwriteExact and LostSlot).
     */
    method MapUser(dir: nat, ti: nat) returns (r: int)
      requires Inv(S()) && HandsOk() && current in dirs && dir < DIRS && dir !in kernelDirs && ti < ENTRIES
      modifies this`ptes, this`handMm, this`handPage, this`slotRefs, this`slotsUsed, this`swap, this`mem,
               this`used, this`refs, this`free, this`loose, this`tables
      ensures HandsOk() && loose == old(loose)
      ensures var l := Loc(current, dir, ti);
        r == if TableOf(l) !in old(tables) && old(free) == 0 then -1
             else if l in old(ptes) && old(ptes)[l].p then 0
             else if MapUserRoom(old(S()), kernelCr3, l) then 0 else -2
      ensures var l := Loc(current, dir, ti);
        Inv(S()) <==> !(l in old(ptes) && !old(ptes)[l].p && MapUserRoom(old(S()), kernelCr3, l))
      ensures View(S()) == if r == 0 && !(Loc(current, dir, ti) in old(ptes) && old(ptes)[Loc(current, dir, ti)].p)
                           then View(old(S()))[Loc(current, dir, ti) := PageView(ZeroPage(), true)] else View(old(S()))
      ensures var l := Loc(current, dir, ti);
        r == 0 && !(l in old(ptes) && old(ptes)[l].p) ==>
          && l in View(S()) && |View(S())[l].contents| == 4096 && (forall i :: 0 <= i < 4096 ==> View(S())[l].contents[i] == 0)
          && MappedPlain(ptes, l, true) && !ptes[l].a
    {
      hide Inv, ViewOf, CanPageOut, HasFreeFrame, ZeroPage, MappedPlain;
      var l := Loc(current, dir, ti);
      ghost var s0 := S();
      SwappedMeansOn(s0, l);
      FreeFrameCount(s0);
      var ok := EnsureTable(dir);
      if !ok { return -1; }
      FreeFrameCount(S());
      if l in ptes && ptes[l].p { return 0; }
      ok := FillEntry(l);
      return if ok then 0 else -2;
    }

    /** A frame for page l, which has its table and is not present; without one nothing changes. */
    method FillEntry(l: Loc) returns (ok: bool)
      requires Inv(S()) && HandsOk() && TableOf(l) in tables && l.ti < ENTRIES && (l in ptes ==> !ptes[l].p)
      modifies this`ptes, this`handMm, this`handPage, this`slotRefs, this`slotsUsed, this`swap, this`mem,
               this`used, this`refs, this`free, this`loose
      ensures HandsOk() && loose == old(loose) && (ok <==> !Starved(old(S()), kernelCr3)) && (Inv(S()) <==> !(l in old(ptes) && ok))
      ensures View(S()) == if ok then View(old(S()))[l := PageView(ZeroPage(), true)] else View(old(S()))
      ensures ok ==> MappedPlain(ptes, l, true) && !ptes[l].a
      ensures |ZeroPage()| == 4096 && forall i :: 0 <= i < 4096 ==> ZeroPage()[i] == 0
    {
      hide Inv, ViewOf, CanPageOut, HasFreeFrame, AccessedOnly;
      var f := AllocFrameForPaging();
      if f == 0 { return false; }
      MapOver(l, f);
      return true;
    }

    /** A zeroed writable page in frame f at l, whatever entry l holds. */
    method MapOver(l: Loc, f: nat)
      requires Inv(S()) && f in loose && TableOf(l) in tables && l.ti < ENTRIES && (l in ptes ==> !ptes[l].p)
      modifies this`ptes, this`mem, this`loose
      ensures loose == old(loose) - {f} && (Inv(S()) <==> l !in old(ptes))
      ensures View(S()) == View(old(S()))[l := PageView(ZeroPage(), true)]
      ensures ptes == old(ptes)[l := Pte(true, true, true, false, false, false, f)]
      ensures |ZeroPage()| == 4096 && forall i :: 0 <= i < 4096 ==> ZeroPage()[i] == 0
    {
      hide Inv, ViewOf;
      ghost var s := S();
      LooseFrame(s, f);
      SwappedMeansOn(s, l);
      InvInRange(s);
      var e := Pte(true, true, true, false, false, false, f);
      OverwriteExact(s, l, e);
      ptes := ptes[l := e];
      mem := mem[f := ZeroPage()];
      loose := loose - {f};
      assert S() == Install(s, l, e, ZeroPage());
    }

    /** Writing a fresh entry over page l shows a zeroed page, and keeps the accounts if and only if l held no entry. */
    static lemma OverwriteExact(s: Vm, l: Loc, e: Pte)
      requires Inv(s) && TableOf(l) in s.tables && l.ti < ENTRIES && PresentShape(e, |s.mem|) && e.num in s.loose
      requires l in s.ptes ==> !s.ptes[l].p
      ensures Inv(Install(s, l, e, ZeroPage())) <==> l !in s.ptes
      ensures View(Install(s, l, e, ZeroPage())) == View(s)[l := PageView(ZeroPage(), e.w || e.cow)]
    {
      hide SysOk, SlotsOk, TablesOk, EntriesOk, CountsOk, SharingOk, ViewOf;
      LooseFrame(s, e.num);
      if l !in s.ptes {
        InstallKeeps(s, l, e, ZeroPage());
      } else {
        var k := s.ptes[l].num;
        var ptes' := s.ptes[l := e];
        SwappedSlot(s, l);
        PageRefsSet(s.ptes, l, e, k);
        SwappedMeansOn(s, l);
        assert l in SlotLocs(s.ptes, k);
        assert |SlotLocs(ptes', k)| == |SlotLocs(s.ptes, k)| - 1;
        OverwriteView(s, l, e);
      }
    }

    static lemma OverwriteView(s: Vm, l: Loc, e: Pte)
      requires Inv(s) && PresentShape(e, |s.mem|) && e.num in s.loose
      ensures View(Install(s, l, e, ZeroPage())) == View(s)[l := PageView(ZeroPage(), e.w || e.cow)]
    {
      hide SlotsOk, TablesOk, SharingOk, SwapOk;
      assert e.num in SysFrames(s);
    }

    /** A small machine: directory in frame 1, its table in frame 2, frame 3 just allocated, and the first page in swap slot 0. */
    static ghost function OneSwapped(): Vm {
      Vm(Frames([true, true, true, true], [1, 1, 1, 1], 0), ZeroPages(4), [MmSlot(true, 1, 1)], {1},
         map[TableId(1, 0) := 2], map[Loc(1, 0, 0) := Pte(false, true, true, false, false, true, 0)], {3}, {0}, {},
         true, [1], 1, ZeroPages(1))
    }

    /** Mapping over the swapped page loses its slot: the count stays 1 and no entry names the slot. */
    static lemma LostSlot()
      ensures var s, l, e := OneSwapped(), Loc(1, 0, 0), Pte(true, true, true, false, false, false, 3);
        && Inv(s) && !Inv(Install(s, l, e, ZeroPage()))
        && Install(s, l, e, ZeroPage()).slotRefs[0] == 1 && SlotLocs(Install(s, l, e, ZeroPage()).ptes, 0) == {}
    {
      hide ZeroPages;
      var s, l, e := OneSwapped(), Loc(1, 0, 0), Pte(true, true, true, false, false, false, 3);
      OneSwappedInv();
      assert TableOf(l) == TableId(1, 0);
      OverwriteExact(s, l, e);
      assert SlotLocs(s.ptes[l := e], 0) == {};
    }

    static lemma OneSwappedInv()
      ensures Inv(OneSwapped())
    {
      hide CountsOk, SwapOk, SysOk, SlotsOk, EntriesOk, TablesOk, SharingOk, ZeroPages;
      var s := OneSwapped();
      SmallCounts(s);
      SmallSwap(s);
      SmallTables(s);
      SmallEntries(s);
    }

    static lemma SmallTables(s: Vm)
      requires s == OneSwapped()
      ensures SysOk(s.reserved, s.dirs, s.loose, s.tables) && SlotsOk(s.slots, s.dirs) && TablesOk(s.tables, s.dirs, s.kernelDirs)
    {
      hide ZeroPages;
    }

    static lemma SmallEntries(s: Vm)
      requires s == OneSwapped()
      ensures EntriesOk(s.ptes, s.tables, |s.frames.refs|, |s.slotRefs|) && SharingOk(s.ptes)
    {
      hide ZeroPages;
    }

    static lemma SmallSwap(s: Vm)
      requires s == OneSwapped()
      ensures SwapOk(s.ptes, s.swapOn, s.slotRefs, s.slotsUsed)
    {
      hide ZeroPages;
      assert SlotLocs(s.ptes, 0) == {Loc(1, 0, 0)};
      assert s.slotRefs[..0] == [];
    }

    static lemma SmallCounts(s: Vm)
      requires s == OneSwapped()
      ensures CountsOk(s.ptes, SysFrames(s), s.frames)
    {
      hide ZeroPages;
      assert forall f :: PageRefs(s.ptes, f) == {};
      assert s.tables[TableId(1, 0)] == 2;
      assert SysFrames(s) == {0, 1, 2, 3};
      AllTrue(s.frames.used);
    }
  }
}
