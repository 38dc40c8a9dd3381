/** What a sweep of the clock means for the whole memory state, and when memory is exhausted. */
module VmSweep {
  import opened FrameTable
  import opened VmState
  import opened VmOps
  import opened Clock

  /** The entry maps differ in accessed bits of present pages that are not copy-on-write. */
  ghost predicate AccessedOnly(ptes: map<Loc, Pte>, ptes': map<Loc, Pte>) {
    && ptes'.Keys == ptes.Keys
    && (forall l :: l in ptes ==> ptes'[l].(a := ptes[l].a) == ptes[l])
    && (forall l :: l in ptes && (!ptes[l].p || ptes[l].cow) ==> ptes'[l] == ptes[l])
  }

  ghost predicate HasCandidate(s: Vm, kernelCr3: nat) { exists l :: Candidate(s, kernelCr3, l) }

  ghost predicate HasFreeSlot(s: Vm) { exists k :: 0 <= k < |s.slotRefs| && s.slotRefs[k] == 0 }

  ghost predicate HasFreeFrame(s: Vm) { exists f :: 0 <= f < |s.frames.used| && !s.frames.used[f] }

  /** swap_page_out_one can free a frame. */
  ghost predicate CanPageOut(s: Vm, kernelCr3: nat) {
    s.swapOn && HasCandidate(s, kernelCr3) && HasFreeSlot(s)
  }

  /** There is no frame to be had, not even by paging out. */
  ghost predicate Starved(s: Vm, kernelCr3: nat) {
    !HasFreeFrame(s) && !CanPageOut(s, kernelCr3)
  }

  lemma AccessedOnlyKeeps(s: Vm, ptes': map<Loc, Pte>)
    requires Inv(s) && AccessedOnly(s.ptes, ptes')
    ensures Inv(s.(ptes := ptes')) && View(s.(ptes := ptes')) == View(s)
  {
    hide SysOk, SlotsOk, TablesOk, CountsOk, SharingOk, SwapOk, ViewOf;
    ReflagKeeps(s, ptes');
  }

  lemma AccessedOnlyCandidates(s: Vm, ptes': map<Loc, Pte>, kernelCr3: nat)
    requires AccessedOnly(s.ptes, ptes')
    ensures forall l :: Candidate(s.(ptes := ptes'), kernelCr3, l) == Candidate(s, kernelCr3, l)
  {
  }

  lemma AccessedOnlyStarved(s: Vm, ptes': map<Loc, Pte>, kernelCr3: nat)
    requires AccessedOnly(s.ptes, ptes')
    ensures Starved(s.(ptes := ptes'), kernelCr3) == Starved(s, kernelCr3)
    ensures CanPageOut(s.(ptes := ptes'), kernelCr3) == CanPageOut(s, kernelCr3)
  {
    var s' := s.(ptes := ptes');
    AccessedOnlyCandidates(s, ptes', kernelCr3);
    assert HasCandidate(s', kernelCr3) == HasCandidate(s, kernelCr3) by {
      hide Candidate;
      if l :| Candidate(s', kernelCr3, l) { assert Candidate(s, kernelCr3, l); }
      if l :| Candidate(s, kernelCr3, l) { assert Candidate(s', kernelCr3, l); }
    }
    assert HasFreeFrame(s') == HasFreeFrame(s);
  }

  lemma AccessedOnlyTwice(a: map<Loc, Pte>, b: map<Loc, Pte>, c: map<Loc, Pte>)
    requires AccessedOnly(a, b) && AccessedOnly(b, c)
    ensures AccessedOnly(a, c)
  {
  }

  /** A sweep touches nothing but accessed bits. */
  lemma SweepAccessedOnly(was: map<Loc, Pte>, ptes: map<Loc, Pte>, frames: Frames, slots: seq<MmSlot>, kernelCr3: nat,
                          handMm: nat, handPage: nat, key: nat, second: bool)
    requires handMm < |slots| && handPage < PAGES_PER_PD
    requires SweptTo(was, ptes, frames, slots, kernelCr3, handMm, handPage, key, second)
    ensures AccessedOnly(was, ptes)
  {
    var seen := Swept(was, frames, slots, kernelCr3, handMm, handPage, key);
    forall l | l in was && (!was[l].p || was[l].cow) ensures ptes[l] == was[l] {
      assert l !in seen;
    }
  }

  lemma InvInRange(s: Vm)
    requires Inv(s)
    ensures forall l :: l in s.ptes ==> InRange(l)
    ensures |s.frames.used| == |s.frames.refs| && (!s.swapOn ==> |s.slotRefs| == 0)
    ensures DistinctMms(s.slots)
  {
    hide SysOk, SharingOk;
  }

  /** A sweep without second chances that comes back empty-handed proves there was no candidate. */
  lemma SweepExhausted(s: Vm, ptes': map<Loc, Pte>, kernelCr3: nat, handMm: nat, handPage: nat)
    requires Inv(s) && handMm < |s.slots| && handPage < PAGES_PER_PD
    requires SweptTo(s.ptes, ptes', s.frames, s.slots, kernelCr3, handMm, handPage, |s.slots| * PAGES_PER_PD, false)
    ensures !HasCandidate(s, kernelCr3)
  {
    hide Inv, Swept, Candidate, Aged;
    InvInRange(s);
    SweptAll(s, kernelCr3, handMm, handPage);
  }

  lemma VictimIsCandidate(s: Vm, kernelCr3: nat, v: Loc, i: nat)
    requires Evictable(s.ptes, s.frames, v) && SweptSlot(s.slots, kernelCr3, i, v.mm)
    ensures Candidate(s, kernelCr3, v) && HasCandidate(s, kernelCr3)
  {
    assert Candidate(s, kernelCr3, v);
  }

  lemma AccessedOnlySame(s: Vm, ptes': map<Loc, Pte>, kernelCr3: nat)
    requires AccessedOnly(s.ptes, ptes')
    ensures HasCandidate(s.(ptes := ptes'), kernelCr3) == HasCandidate(s, kernelCr3)
  {
    hide Candidate;
    AccessedOnlyCandidates(s, ptes', kernelCr3);
    var s' := s.(ptes := ptes');
    if l :| Candidate(s', kernelCr3, l) { assert Candidate(s, kernelCr3, l); }
    if l :| Candidate(s, kernelCr3, l) { assert Candidate(s', kernelCr3, l); }
  }

  lemma AccessedOnlyRefl(ptes: map<Loc, Pte>)
    ensures AccessedOnly(ptes, ptes)
  {
  }

  lemma VictimShape(s: Vm, kernelCr3: nat, v: Loc)
    requires Inv(s) && Candidate(s, kernelCr3, v)
    ensures v in s.ptes && s.ptes[v].p && !s.ptes[v].cow && |s.frames.used| == |s.frames.refs|
    ensures s.ptes[v].num < |s.mem| && s.frames.refs[s.ptes[v].num] == 1 && |s.swap| == |s.slotRefs|
  {
    hide SysOk, SlotsOk, TablesOk, SharingOk, SwapOk;
  }

  /** Paging out returns exactly one frame to the allocator. */
  lemma PageOutFrees(s: Vm, kernelCr3: nat, l: Loc, k: nat)
    requires Inv(s) && Candidate(s, kernelCr3, l) && k < |s.swap|
    ensures s.ptes[l].num < |s.mem| && |s.frames.used| == |s.frames.refs|
    ensures var s' := PageOut(s, l, k);
            HasFreeFrame(s') && s'.frames.free == s.frames.free + 1 && |s'.frames.used| == |s.frames.used|
  {
    hide SysOk, SlotsOk, TablesOk, SharingOk, SwapOk;
    var s' := PageOut(s, l, k);
    assert !s'.frames.used[s.ptes[l].num];
  }

  lemma FreeFrameCount(s: Vm)
    requires Inv(s)
    ensures HasFreeFrame(s) <==> s.frames.free > 0
  {
    hide SysOk, SlotsOk, TablesOk, EntriesOk, SharingOk, SwapOk;
    CountFalsePositive(s.frames.used);
  }

  /** A new page can be mapped at l: a frame for it and, if its table is missing, one more without paging out. */
  ghost predicate MapRoom(s: Vm, kernelCr3: nat, l: Loc) {
    if TableOf(l) in s.tables then !Starved(s, kernelCr3) else s.frames.free >= 2
  }
}
