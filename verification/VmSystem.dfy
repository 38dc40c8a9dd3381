/** Arbitrary sequences of kernel entries, and the isolation theorem for all of them. */
module VmSystem {
  import opened FrameTable
  import opened VmState
  import opened VmSpaces
  import opened VmSweep
  import opened Clock
  import opened VmKernel
  import opened VmRuns

  datatype Op =
    | Store(dir: nat, ti: nat, off: nat, b: Byte, elf: Fill, mmap: Fill)
    | Touch(dir: nat, ti: nat, elf: Fill, mmap: Fill)
    | MapPage(dir: nat, ti: nat)
    | MakeSpace
    | ForkCurrent
    | Unmap(start: nat, size: nat)
    | Retain(m: nat)
    | Release(m: nat)
    | Switch(m: nat)
    | PageOutOne

  predicate UserSpot(kernelDirs: set<nat>, dir: nat, ti: nat) {
    dir < DIRS && dir !in kernelDirs && ti < ENTRIES
  }

  /** A fault at l that is served puts the region's page there if l was empty, and is invisible otherwise. */
  ghost predicate Faults(s: Vm, kernelCr3: nat, l: Loc, write: bool, elf: Fill, mmap: Fill, e: Event) {
    var v := Kernel.Served(View(s), l, elf, mmap);
    if l !in s.ptes && Kernel.Servable(s, kernelCr3, l, write, elf, mmap) then l in v && e == Wrote(l, v[l]) else e == Internal
  }

  /** The one event that an entry of space `current` is, in state s. */
  ghost predicate Does(op: Op, s: Vm, kernelCr3: nat, current: nat, e: Event) {
    match op
    case Store(dir, ti, off, b, elf, mmap) =>
      var l := Loc(current, dir, ti);
      var v := Kernel.Served(View(s), l, elf, mmap);
      if current !in s.dirs || !UserSpot(s.kernelDirs, dir, ti) then e == Internal
      else if Kernel.Storable(s, kernelCr3, l, elf, mmap) then
        l in v && e == Wrote(l, PageView(PutByte(v[l].contents, off, b), true))
      else Faults(s, kernelCr3, l, true, elf, mmap, e)
    case Touch(dir, ti, elf, mmap) =>
      if current !in s.dirs || !UserSpot(s.kernelDirs, dir, ti) then e == Internal
      else Faults(s, kernelCr3, Loc(current, dir, ti), false, elf, mmap, e)
    case MapPage(dir, ti) =>
      var l := Loc(current, dir, ti);
      e == if current in s.dirs && UserSpot(s.kernelDirs, dir, ti) && l !in s.ptes && Kernel.MapUserRoom(s, kernelCr3, l)
           then Wrote(l, PageView(ZeroPage(), true)) else Internal
    case MakeSpace =>
      if s.frames.free > 0 && Kernel.HasUnusedSlot(s.slots) then e.Made? && e.m !in s.dirs else e == Internal
    case ForkCurrent =>
      if current in s.dirs && Kernel.ForkRoom(s, current) then e.Forked? && e.parent == current && e.child !in s.dirs
      else e == Internal
    case Unmap(start, size) =>
      var first, end := start / PAGE_SIZE, Kernel.EndPage(start, size);
      e == if start < U32 && 0 < size < U32 && first < end then Unmapped(current, first, end) else Internal
    case Release(m) => e == if m != kernelCr3 && Kernel.LastRef(s.slots, m) then Exited(m) else Internal
    case _ => e == Internal
  }

  /** The spaces that exist after an event. */
  function SpacesAfter(e: Event, dirs: set<nat>): set<nat> {
    match e
    case Made(m) => dirs + {m}
    case Forked(_, child) => dirs + {child}
    case Exited(m) => dirs - {m}
    case _ => dirs
  }

  /** The space that runs after an entry of space `current`. */
  function RunsNext(op: Op, current: nat): nat {
    if op.Switch? && op.m != 0 then op.m else current
  }

  ghost predicate Ready(k: Kernel)
    reads k
  {
    k.Valid() && k.kernelCr3 in k.dirs
  }

  /** A store by the running program, as an event. */
  method DoStore(k: Kernel, op: Op) returns (ghost e: Event)
    requires Ready(k) && k.current in k.dirs && op.Store? && UserSpot(k.kernelDirs, op.dir, op.ti)
    modifies k
    ensures Ready(k) && k.current == old(k.current) && k.dirs == SpacesAfter(e, old(k.dirs))
    ensures Step(View(old(k.S())), e, View(k.S())) && Does(op, old(k.S()), k.kernelCr3, k.current, e)
  {
    hide Inv, ViewOf, k.Storable, k.Servable;
    ghost var s, v := k.S(), View(k.S());
    ghost var l := Loc(k.current, op.dir, op.ti);
    var ok := k.UserStore(op.dir, op.ti, op.off, op.b, op.elf, op.mmap);
    ghost var w := Kernel.Served(v, l, op.elf, op.mmap);
    if ok {
      e := Wrote(l, PageView(PutByte(w[l].contents, op.off, op.b), true));
      assert View(k.S()) == v[l := e.page];
    } else {
      e := FaultEvent(s, k.kernelCr3, l, true, op.elf, op.mmap);
    }
  }

  /** Whether and how a fault shows in the view. */
  ghost method FaultEvent(s: Vm, kernelCr3: nat, l: Loc, write: bool, elf: Fill, mmap: Fill) returns (e: Event)
    requires InRange(l)
    ensures Faults(s, kernelCr3, l, write, elf, mmap, e)
    ensures Step(View(s), e, if Kernel.Servable(s, kernelCr3, l, write, elf, mmap) then Kernel.Served(View(s), l, elf, mmap) else View(s))
  {
    hide ViewOf;
    Kernel.ViewKeys(s);
    var v := Kernel.Served(View(s), l, elf, mmap);
    if l !in s.ptes && Kernel.Servable(s, kernelCr3, l, write, elf, mmap) {
      assert View(s)[l := v[l]] == v;
      e := Wrote(l, v[l]);
    } else {
      e := Internal;
    }
  }

  method DoTouch(k: Kernel, op: Op) returns (ghost e: Event)
    requires Ready(k) && k.current in k.dirs && op.Touch? && UserSpot(k.kernelDirs, op.dir, op.ti)
    modifies k
    ensures Ready(k) && k.current == old(k.current) && k.dirs == SpacesAfter(e, old(k.dirs))
    ensures Step(View(old(k.S())), e, View(k.S())) && Does(op, old(k.S()), k.kernelCr3, k.current, e)
  {
    hide Inv, ViewOf, k.Servable;
    ghost var s := k.S();
    var handled := k.PageFault(op.dir, op.ti, false, op.elf, op.mmap);
    e := FaultEvent(s, k.kernelCr3, Loc(k.current, op.dir, op.ti), false, op.elf, op.mmap);
  }

  /** A page of the program's stack or image, made by the loader in the running space; not at a page that is in swap. */
  method DoMap(k: Kernel, op: Op) returns (ghost e: Event)
    requires Ready(k) && k.current in k.dirs && op.MapPage? && UserSpot(k.kernelDirs, op.dir, op.ti)
    modifies k
    ensures Ready(k) && k.current == old(k.current) && k.dirs == SpacesAfter(e, old(k.dirs))
    ensures Step(View(old(k.S())), e, View(k.S())) && Does(op, old(k.S()), k.kernelCr3, k.current, e)
  {
    hide Inv, ViewOf, Starved, CanPageOut;
    var l := Loc(k.current, op.dir, op.ti);
    ghost var s := k.S();
    Kernel.SwappedMeansOn(s, l);
    if l in k.ptes && !k.ptes[l].p { return Internal; }
    var r := k.MapUser(op.dir, op.ti);
    e := if r == 0 && l !in s.ptes then Wrote(l, PageView(ZeroPage(), true)) else Internal;
  }

  method DoMake(k: Kernel) returns (ghost e: Event)
    requires Ready(k)
    modifies k
    ensures Ready(k) && k.current == old(k.current) && k.dirs == SpacesAfter(e, old(k.dirs))
    ensures Step(View(old(k.S())), e, View(k.S())) && Does(MakeSpace, old(k.S()), k.kernelCr3, k.current, e)
  {
    hide Inv, ViewOf, k.HasUnusedSlot;
    ghost var s := k.S();
    var rc, m := k.CreateMm();
    if rc == 0 {
      Kernel.NoChildPages(s, m);
      e := Made(m);
    } else {
      e := Internal;
    }
  }

  method DoFork(k: Kernel) returns (ghost e: Event)
    requires Ready(k) && k.current in k.dirs
    modifies k
    ensures Ready(k) && k.current == old(k.current) && k.dirs == SpacesAfter(e, old(k.dirs))
    ensures Step(View(old(k.S())), e, View(k.S())) && Does(ForkCurrent, old(k.S()), k.kernelCr3, k.current, e)
  {
    hide Inv, ViewOf, k.ForkRoom, CopyTo, RowsOf, SameNames;
    ghost var s0 := k.S();
    var _, child := k.Fork();
    if child == 0 {
      e := Internal;
    } else {
      Kernel.NoChildPages(s0, child);
      e := Forked(k.current, child);
    }
  }

  method DoRelease(k: Kernel, m: nat) returns (ghost e: Event)
    requires Ready(k)
    modifies k
    ensures Ready(k) && k.current == old(k.current) && k.dirs == SpacesAfter(e, old(k.dirs))
    ensures Step(View(old(k.S())), e, View(k.S())) && Does(Release(m), old(k.S()), k.kernelCr3, k.current, e)
  {
    hide Inv, ViewOf, SlotCr3s, WithoutMm, k.TablesLeft, k.LastRef;
    ghost var s := k.S();
    Kernel.SlotListed(k.slots, m);
    var found, i := k.FindSlot(m);
    if !found { NotLast(k.slots, m); return Internal; }
    InvInRange(s);
    Kernel.OneSlot(s, i);
    if m == k.kernelCr3 && k.slots[i].refs == 1 { return Internal; }
    k.ReleaseMm(m);
    if s.slots[i].refs == 1 { e := Exited(m); } else { e := Internal; }
  }

  lemma NotLast(slots: seq<MmSlot>, m: nat)
    requires m !in SlotCr3s(slots)
    ensures !Kernel.LastRef(slots, m)
  {
    Kernel.SlotListed(slots, m);
  }

  /**
   One kernel entry. Entries whose callers' obligations are not met are not issued: those of a
   space that is gone, and giving up the kernel's own last reference to its space.
   */
  method Do(k: Kernel, op: Op) returns (ghost e: Event)
    requires Ready(k)
    modifies k
    ensures Ready(k) && k.current == RunsNext(op, old(k.current))
    ensures k.dirs == SpacesAfter(e, old(k.dirs))
    ensures Step(View(old(k.S())), e, View(k.S())) && Does(op, old(k.S()), k.kernelCr3, old(k.current), e)
  {
    hide Inv, ViewOf, SlotCr3s, AccessedOnly, CanPageOut, HasFreeFrame, Minus, Faults, k.Storable, k.Served, k.ForkRoom, k.LastRef;
    e := Internal;
    var live, _ := k.FindSlot(k.current);
    Kernel.SlotListed(k.slots, k.current);
    match op
    case Store(dir, ti, _, _, _, _) => if live && UserSpot(k.kernelDirs, dir, ti) { e := DoStore(k, op); }
    case Touch(dir, ti, _, _) => if live && UserSpot(k.kernelDirs, dir, ti) { e := DoTouch(k, op); }
    case MapPage(dir, ti) => if live && UserSpot(k.kernelDirs, dir, ti) { e := DoMap(k, op); }
    case MakeSpace => e := DoMake(k);
    case ForkCurrent => if live { e := DoFork(k); }
    case Unmap(start, size) =>
      if start < U32 && size < U32 {
        var rc := k.UnmapUserRange(start, size);
        if rc != -1 { e := Unmapped(k.current, start / PAGE_SIZE, Kernel.EndPage(start, size)); }
      }
    case Retain(m) =>
      var known, _ := k.FindSlot(m);
      Kernel.SlotListed(k.slots, m);
      if known { k.RetainMm(m); }
    case Release(m) => e := DoRelease(k, m);
    case Switch(m) => k.SwitchMm(m);
    case PageOutOne => var _ := k.SwapPageOutOne();
  }

  /**
   What a run of entries is: in states[i], whose accounts are exact, the space who[i] makes entry
   ops[i], which is the event events[i].
   */
  ghost predicate Trace(ops: seq<Op>, kernelCr3: nat, states: seq<Vm>, who: seq<nat>, events: seq<Event>) {
    && |states| == |who| == |ops| + 1 && |events| == |ops|
    && AllInRange(View(states[0])) && (forall i :: 0 <= i < |states| ==> Quiet(states[i]))
    && forall i :: 0 <= i < |ops| ==> Entry(ops[i], kernelCr3, states[i], who[i], events[i], states[i + 1], who[i + 1])
  }

  ghost predicate Entry(op: Op, kernelCr3: nat, s: Vm, current: nat, e: Event, s': Vm, current': nat) {
    && Does(op, s, kernelCr3, current, e) && Step(View(s), e, View(s')) && current' == RunsNext(op, current)
    && s'.dirs == SpacesAfter(e, s.dirs)
  }

  ghost function ViewsOf(states: seq<Vm>): seq<Views> {
    seq(|states|, i requires 0 <= i < |states| => View(states[i]))
  }

  lemma TraceRuns(ops: seq<Op>, kernelCr3: nat, states: seq<Vm>, who: seq<nat>, events: seq<Event>)
    requires Trace(ops, kernelCr3, states, who, events)
    ensures Run(ViewsOf(states), events)
  {
    hide Step, ViewOf, Does;
    forall i | 0 <= i < |events| ensures Step(ViewsOf(states)[i], events[i], ViewsOf(states)[i + 1]) {
      assert Entry(ops[i], kernelCr3, states[i], who[i], events[i], states[i + 1], who[i + 1]);
    }
  }

  /** An entry acts for the space that made it, for a child that did not exist, or for a space being released. */
  lemma ActsForOwner(op: Op, s: Vm, kernelCr3: nat, current: nat, e: Event, m: nat)
    requires Does(op, s, kernelCr3, current, e) && ActsFor(e, m)
    ensures m == current || op == Release(m) || ((op.ForkCurrent? || op.MakeSpace?) && m !in s.dirs)
  {
    hide ViewOf, Kernel.Served, Kernel.Servable, Kernel.Storable, Kernel.ForkRoom, Kernel.LastRef, Kernel.MapUserRoom, Kernel.HasUnusedSlot;
  }

  /** A space exists until it is released. */
  lemma StaysListed(op: Op, s: Vm, kernelCr3: nat, current: nat, e: Event, m: nat)
    requires Does(op, s, kernelCr3, current, e) && m in s.dirs && op != Release(m)
    ensures m in SpacesAfter(e, s.dirs)
  {
    hide ViewOf, Kernel.Served, Kernel.Servable, Kernel.Storable, Kernel.ForkRoom, Kernel.LastRef, Kernel.MapUserRoom, Kernel.HasUnusedSlot;
  }

  /**
   Nothing that happens while space m is not running changes what m holds: over every stretch of
   every run in which m makes no entry and is not released, its pages stay as they were.
   */
  lemma {:induction false} Undisturbed(
    ops: seq<Op>, kernelCr3: nat, states: seq<Vm>, who: seq<nat>, events: seq<Event>, i: nat, j: nat, m: nat)
    requires Trace(ops, kernelCr3, states, who, events) && i <= j <= |ops| && m in states[i].dirs
    requires forall n :: i <= n < j ==> who[n] != m && ops[n] != Release(m)
    ensures Space(View(states[j]), m) == Space(View(states[i]), m) && m in states[j].dirs
    decreases j - i
  {
    hide ViewOf, Space, Step, Does, Quiet, SpacesAfter;
    if i < j {
      Undisturbed(ops, kernelCr3, states, who, events, i, j - 1, m);
      TraceRuns(ops, kernelCr3, states, who, events);
      RunInRange(ViewsOf(states), events, j - 1);
      assert Entry(ops[j - 1], kernelCr3, states[j - 1], who[j - 1], events[j - 1], states[j], who[j]);
      StaysListed(ops[j - 1], states[j - 1], kernelCr3, who[j - 1], events[j - 1], m);
      if ActsFor(events[j - 1], m) { ActsForOwner(ops[j - 1], states[j - 1], kernelCr3, who[j - 1], events[j - 1], m); }
      OthersUntouched(View(states[j - 1]), events[j - 1], View(states[j]), m);
    }
  }

  // ----- single bytes over runs -------------------------------------------------------------------------

  /** The entry, made by space `current`, stores into byte off of page l, or takes the page away. */
  predicate Disturbs(op: Op, current: nat, l: Loc, off: nat) {
    match op
    case Store(dir, ti, o, _, _, _) => Loc(current, dir, ti) == l && o == off
    case Unmap(start, size) =>
      current == l.mm && start < U32 && 0 < size < U32 && start / PAGE_SIZE <= PageIndex(l) < Kernel.EndPage(start, size)
    case Release(m) => m == l.mm
    case _ => false
  }

  /** Any other entry of anybody leaves the byte alone. */
  lemma ByteStep(op: Op, s: Vm, kernelCr3: nat, current: nat, e: Event, v': Views, l: Loc, off: nat)
    requires Inv(s) && Does(op, s, kernelCr3, current, e) && Step(View(s), e, v') && !Disturbs(op, current, l, off)
    requires l in View(s) && l.mm in s.dirs && off < |View(s)[l].contents|
    ensures l in v' && |v'[l].contents| == |View(s)[l].contents| && v'[l].contents[off] == View(s)[l].contents[off]
  {
    hide Inv, ViewOf, Kernel.Servable, Kernel.Storable, Kernel.ForkRoom, Kernel.LastRef, Kernel.MapUserRoom, Kernel.HasUnusedSlot;
    Kernel.ViewKeys(s);
    Kernel.ViewInRange(s);
    if e.Forked? { ForkIsCopy(View(s), e.parent, e.child); }
  }

  /** Over every stretch of every run in which nobody disturbs it, the byte stays. */
  lemma {:induction false} ByteKept(
    ops: seq<Op>, kernelCr3: nat, states: seq<Vm>, who: seq<nat>, events: seq<Event>, i: nat, j: nat, l: Loc, off: nat)
    requires Trace(ops, kernelCr3, states, who, events) && i <= j <= |ops|
    requires l in View(states[i]) && l.mm in states[i].dirs && off < |View(states[i])[l].contents|
    requires forall n :: i <= n < j ==> !Disturbs(ops[n], who[n], l, off)
    ensures l in View(states[j]) && l.mm in states[j].dirs && |View(states[j])[l].contents| == |View(states[i])[l].contents|
    ensures View(states[j])[l].contents[off] == View(states[i])[l].contents[off]
    decreases j - i
  {
    hide ViewOf, Step, Does, Inv, SpacesAfter, Disturbs;
    if i < j {
      ByteKept(ops, kernelCr3, states, who, events, i, j - 1, l, off);
      assert Entry(ops[j - 1], kernelCr3, states[j - 1], who[j - 1], events[j - 1], states[j], who[j]);
      ByteStep(ops[j - 1], states[j - 1], kernelCr3, who[j - 1], events[j - 1], View(states[j]), l, off);
      assert ops[j - 1] != Release(l.mm) by { ReleaseDisturbs(ops[j - 1], who[j - 1], l, off); }
      StaysListed(ops[j - 1], states[j - 1], kernelCr3, who[j - 1], events[j - 1], l.mm);
    }
  }

  lemma ReleaseDisturbs(op: Op, current: nat, l: Loc, off: nat)
    ensures op == Release(l.mm) ==> Disturbs(op, current, l, off)
  {
  }

  /** Entry n mapped a fresh page at l. */
  ghost predicate MapsFresh(ops: seq<Op>, states: seq<Vm>, who: seq<nat>, n: nat, l: Loc)
    requires n < |ops| && |states| == |who| == |ops| + 1
  {
    ops[n] == MapPage(l.dir, l.ti) && who[n] == l.mm && l !in View(states[n]) && l in View(states[n + 1])
  }

  /** No process sees another's old bytes: each byte of a fresh page reads 0 until its own space stores into it. */
  lemma ZeroUntilStored(
    ops: seq<Op>, kernelCr3: nat, states: seq<Vm>, who: seq<nat>, events: seq<Event>, n: nat, j: nat, l: Loc, off: nat)
    requires Trace(ops, kernelCr3, states, who, events) && n < j <= |ops| && off < 4096
    requires MapsFresh(ops, states, who, n, l) && forall m :: n < m < j ==> !Disturbs(ops[m], who[m], l, off)
    ensures l in View(states[j]) && |View(states[j])[l].contents| == 4096 && View(states[j])[l].contents[off] == 0
  {
    hide ViewOf, Inv, Disturbs, Kernel.MapUserRoom;
    assert Entry(ops[n], kernelCr3, states[n], who[n], events[n], states[n + 1], who[n + 1]);
    Kernel.ViewKeys(states[n]);
    ByteKept(ops, kernelCr3, states, who, events, n + 1, j, l, off);
  }

  /** Programs read what they wrote: a byte stored reads so until the next store into it. */
  lemma StoredReads(
    ops: seq<Op>, kernelCr3: nat, states: seq<Vm>, who: seq<nat>, events: seq<Event>, n: nat, j: nat, l: Loc)
    requires Trace(ops, kernelCr3, states, who, events) && n < j <= |ops| && ops[n].Store? && l == Loc(who[n], ops[n].dir, ops[n].ti)
    requires l.mm in states[n].dirs && UserSpot(states[n].kernelDirs, l.dir, l.ti)
    requires Kernel.Storable(states[n], kernelCr3, l, ops[n].elf, ops[n].mmap)
    requires forall m :: n < m < j ==> !Disturbs(ops[m], who[m], l, ops[n].off)
    ensures l in View(states[j])
    ensures ops[n].off < |View(states[j])[l].contents| ==> View(states[j])[l].contents[ops[n].off] == ops[n].b
  {
    hide ViewOf, Inv, Disturbs, Kernel.Storable, Kernel.Served;
    assert Entry(ops[n], kernelCr3, states[n], who[n], events[n], states[n + 1], who[n + 1]);
    if ops[n].off < |View(states[n + 1])[l].contents| {
      ByteKept(ops, kernelCr3, states, who, events, n + 1, j, l, ops[n].off);
    } else {
      PageKept(ops, kernelCr3, states, who, events, n + 1, j, l, ops[n].off);
    }
  }

  /** The page itself stays, with its size. */
  lemma {:induction false} PageKept(
    ops: seq<Op>, kernelCr3: nat, states: seq<Vm>, who: seq<nat>, events: seq<Event>, i: nat, j: nat, l: Loc, off: nat)
    requires Trace(ops, kernelCr3, states, who, events) && i <= j <= |ops| && l in View(states[i]) && l.mm in states[i].dirs
    requires forall n :: i <= n < j ==> !Disturbs(ops[n], who[n], l, off)
    ensures l in View(states[j]) && l.mm in states[j].dirs && |View(states[j])[l].contents| == |View(states[i])[l].contents|
    decreases j - i
  {
    hide ViewOf, Step, Does, Inv, SpacesAfter, Disturbs;
    if i < j {
      PageKept(ops, kernelCr3, states, who, events, i, j - 1, l, off);
      assert Entry(ops[j - 1], kernelCr3, states[j - 1], who[j - 1], events[j - 1], states[j], who[j]);
      PageStep(ops[j - 1], states[j - 1], kernelCr3, who[j - 1], events[j - 1], View(states[j]), l, off);
      assert ops[j - 1] != Release(l.mm) by { ReleaseDisturbs(ops[j - 1], who[j - 1], l, off); }
      StaysListed(ops[j - 1], states[j - 1], kernelCr3, who[j - 1], events[j - 1], l.mm);
    }
  }

  lemma PageStep(op: Op, s: Vm, kernelCr3: nat, current: nat, e: Event, v': Views, l: Loc, off: nat)
    requires Inv(s) && Does(op, s, kernelCr3, current, e) && Step(View(s), e, v') && !Disturbs(op, current, l, off)
    requires l in View(s) && l.mm in s.dirs
    ensures l in v' && |v'[l].contents| == |View(s)[l].contents|
  {
    hide Inv, ViewOf, Kernel.Servable, Kernel.Storable, Kernel.ForkRoom, Kernel.LastRef, Kernel.MapUserRoom, Kernel.HasUnusedSlot;
    Kernel.ViewKeys(s);
    Kernel.ViewInRange(s);
    if e.Forked? { ForkIsCopy(View(s), e.parent, e.child); }
  }

  /**
   Every run of any entries in any order keeps every account exact. Each entry has exactly the
   effect that the state it was made in determines, on the space that made it; and at the end
   each address space holds exactly what its own lineage of events put there.
   */
  method Exec(k: Kernel, ops: seq<Op>) returns (ghost states: seq<Vm>, ghost who: seq<nat>, ghost events: seq<Event>)
    requires Ready(k)
    modifies k
    ensures Ready(k) && Trace(ops, k.kernelCr3, states, who, events) && Run(ViewsOf(states), events)
    ensures states[0] == old(k.S()) && states[|ops|] == k.S() && who[0] == old(k.current) && who[|ops|] == k.current
    ensures forall m :: Space(View(k.S()), m) == Lineage(View(old(k.S())), events, |ops|, m)
    ensures forall i, m :: 0 <= i < |ops| && m in states[i].dirs && m != who[i] && ops[i] != Release(m) ==>
              Space(View(states[i + 1]), m) == Space(View(states[i]), m)
  {
    hide Inv, ViewOf, Step, Space, Lineage, Does, ViewsOf;
    states, who, events := [k.S()], [k.current], [];
    Kernel.ViewInRange(k.S());
    var i := 0;
    while i < |ops|
      invariant 0 <= i <= |ops| && Ready(k) && Trace(ops[..i], k.kernelCr3, states, who, events)
      invariant states[0] == old(k.S()) && states[i] == k.S() && who[0] == old(k.current) && who[i] == k.current
    {
      ghost var e := Do(k, ops[i]);
      TraceSnoc(ops[..i], k.kernelCr3, states, who, events, ops[i], e, k.S(), k.current);
      assert ops[..i] + [ops[i]] == ops[..i + 1];
      states, who, events := states + [k.S()], who + [k.current], events + [e];
      i := i + 1;
    }
    assert ops[..i] == ops;
    EachStep(ops, k.kernelCr3, states, who, events);
  }

  lemma EachStep(ops: seq<Op>, kernelCr3: nat, states: seq<Vm>, who: seq<nat>, events: seq<Event>)
    requires Trace(ops, kernelCr3, states, who, events)
    ensures Run(ViewsOf(states), events)
    ensures forall m :: Space(View(states[|ops|]), m) == Lineage(View(states[0]), events, |ops|, m)
    ensures forall i, m :: 0 <= i < |ops| && m in states[i].dirs && m != who[i] && ops[i] != Release(m) ==>
              Space(View(states[i + 1]), m) == Space(View(states[i]), m)
  {
    hide ViewOf, Step, Space, Lineage, Does, Trace;
    TraceRuns(ops, kernelCr3, states, who, events);
    assert |states| == |who| == |ops| + 1 && |events| == |ops| by { TraceSizes(ops, kernelCr3, states, who, events); }
    forall m ensures Space(View(states[|ops|]), m) == Lineage(View(states[0]), events, |ops|, m) {
      Isolation(ViewsOf(states), events, |ops|, m);
    }
    forall i, m | 0 <= i < |ops| && m in states[i].dirs && m != who[i] && ops[i] != Release(m)
      ensures Space(View(states[i + 1]), m) == Space(View(states[i]), m)
    {
      Undisturbed(ops, kernelCr3, states, who, events, i, i + 1, m);
    }
  }

  lemma TraceSizes(ops: seq<Op>, kernelCr3: nat, states: seq<Vm>, who: seq<nat>, events: seq<Event>)
    requires Trace(ops, kernelCr3, states, who, events)
    ensures |states| == |who| == |ops| + 1 && |events| == |ops|
  {
  }

  lemma TraceSnoc(ops: seq<Op>, kernelCr3: nat, states: seq<Vm>, who: seq<nat>, events: seq<Event>,
                  op: Op, e: Event, s: Vm, current: nat)
    requires Trace(ops, kernelCr3, states, who, events) && Entry(op, kernelCr3, states[|ops|], who[|ops|], e, s, current) && Quiet(s)
    ensures Trace(ops + [op], kernelCr3, states + [s], who + [current], events + [e])
  {
    hide Entry, ViewOf, Quiet;
    var ops', states', who', events' := ops + [op], states + [s], who + [current], events + [e];
    forall i | 0 <= i < |ops'| ensures Entry(ops'[i], kernelCr3, states'[i], who'[i], events'[i], states'[i + 1], who'[i + 1]) {
      if i < |ops| { assert Entry(ops[i], kernelCr3, states[i], who[i], events[i], states[i + 1], who[i + 1]); }
    }
  }

  /** A machine from power-on: boot leads into every run, and at the start nobody has a page. */
  method BootAndRun(nframes: nat, kernelFrames: nat, nslots: nat, nswap: nat, kdirs: set<nat>, ops: seq<Op>)
    returns (k: Kernel, ghost states: seq<Vm>, ghost who: seq<nat>, ghost events: seq<Event>)
    requires 0 < kernelFrames < nframes && 0 < nslots <= REF_MAX && nswap <= SLOT_LIMIT
    ensures fresh(k) && Ready(k) && Trace(ops, k.kernelCr3, states, who, events)
    ensures View(states[0]) == map[] && states[|ops|] == k.S() && who[0] == k.kernelCr3
    ensures forall m :: Space(View(k.S()), m) == Lineage(map[], events, |ops|, m)
  {
    hide Inv, ViewOf, Space, Lineage, Trace;
    k := Kernel.Boot(nframes, kernelFrames, nslots, nswap, kdirs);
    states, who, events := Exec(k, ops);
    TraceSizes(ops, k.kernelCr3, states, who, events);
  }
}
