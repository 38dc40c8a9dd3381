/**
 The order in which the second-chance clock visits pages (kernel/paging.c:292-348): from the
 slot under the hand round the slot table, and inside a slot's directory round its 2^20 pages.
 */
module Clock {
  import opened FrameTable
  import opened VmState

  /** How many steps after `hand` index i comes up when going round n places. */
  function StepsTo(i: nat, hand: nat, n: nat): nat
    requires i < n && hand < n
  {
    if i >= hand then i - hand else i + n - hand
  }

  lemma RoundTrip(hand: nat, step: nat, n: nat)
    requires hand < n && step < n
    ensures (hand + step) % n < n && StepsTo((hand + step) % n, hand, n) == step
  {
    if hand + step < n {
      assert (hand + step) % n == hand + step;
    } else {
      assert (hand + step) % n == hand + step - n by { ModOnce(hand + step, n); }
    }
  }

  lemma ModOnce(x: nat, n: nat)
    requires n <= x < 2 * n
    ensures x % n == x - n
  {
    assert x == n * 1 + (x - n);
    assert x / n == 1;
  }

  lemma StepInjective(i: nat, j: nat, hand: nat, n: nat)
    requires i < n && j < n && hand < n && StepsTo(i, hand, n) == StepsTo(j, hand, n)
    ensures i == j
  {
  }

  function PageIndex(l: Loc): nat { l.dir * ENTRIES + l.ti }

  predicate InRange(l: Loc) { l.dir < DIRS && l.ti < ENTRIES }

  /** What find_swap_victim may take: a present user page, not COW, whose frame has one owner. */
  predicate Evictable(ptes: map<Loc, Pte>, frames: Frames, l: Loc) {
    && l in ptes && ptes[l].p && ptes[l].u && !ptes[l].cow
    && ptes[l].num < |frames.used| == |frames.refs| && frames.used[ptes[l].num] && frames.refs[ptes[l].num] == 1
  }

  /** The slot table lists directory m at index i, and it is not the kernel's own. */
  predicate SweptSlot(slots: seq<MmSlot>, kernelCr3: nat, i: nat, m: nat) {
    i < |slots| && slots[i].used && slots[i].cr3 == m && m != kernelCr3
  }

  ghost predicate Candidate(s: Vm, kernelCr3: nat, l: Loc) {
    Evictable(s.ptes, s.frames, l) && exists i :: SweptSlot(s.slots, kernelCr3, i, l.mm)
  }

  /** Position of page l, listed at slot i, in the order of a sweep that starts at the hands. */
  function SweepKey(i: nat, l: Loc, handMm: nat, handPage: nat, n: nat): (k: nat)
    requires i < n && handMm < n && handPage < PAGES_PER_PD && InRange(l)
  {
    var step := StepsTo(i, handMm, n);
    step * PAGES_PER_PD + StepsTo(PageIndex(l), if step == 0 then handPage else 0, PAGES_PER_PD)
  }

  /** Entry map after a sweep cleared the accessed bit of the pages in `seen`. */
  ghost function Aged(ptes: map<Loc, Pte>, seen: set<Loc>): map<Loc, Pte> {
    map l | l in ptes :: if l in seen then ptes[l].(a := false) else ptes[l]
  }

  /** Every page in `seen` was passed over because a second chance was on offer and it had been accessed. */
  ghost predicate Saved(ptes: map<Loc, Pte>, seen: set<Loc>, second: bool) {
    forall l :: l in seen ==> l in ptes && second && ptes[l].a
  }

  lemma AgedNothing(ptes: map<Loc, Pte>)
    ensures Aged(ptes, {}) == ptes
  {
  }

  lemma AgedEvictable(ptes: map<Loc, Pte>, seen: set<Loc>, frames: Frames, l: Loc)
    ensures Evictable(Aged(ptes, seen), frames, l) == Evictable(ptes, frames, l)
    ensures l in ptes && l !in seen ==> Aged(ptes, seen)[l] == ptes[l]
  {
  }

  lemma AgedTwice(ptes: map<Loc, Pte>, a: set<Loc>, b: set<Loc>)
    ensures Aged(Aged(ptes, a), b) == Aged(ptes, a + b)
  {
  }

  /** The evictable pages of directory m that come before `stop` in a round starting at `start`. */
  ghost function Before(ptes: map<Loc, Pte>, frames: Frames, m: nat, start: nat, stop: nat): set<Loc>
    requires start < PAGES_PER_PD
  {
    set l | l in ptes && l.mm == m && InRange(l) && Evictable(ptes, frames, l)
            && StepsTo(PageIndex(l), start, PAGES_PER_PD) < stop
  }

  lemma AgedBefore(ptes: map<Loc, Pte>, seen: set<Loc>, frames: Frames, m: nat, start: nat, stop: nat)
    requires start < PAGES_PER_PD
    ensures Before(Aged(ptes, seen), frames, m, start, stop) == Before(ptes, frames, m, start, stop)
  {
    forall l ensures Evictable(Aged(ptes, seen), frames, l) == Evictable(ptes, frames, l) {
      AgedEvictable(ptes, seen, frames, l);
    }
  }

  lemma NextBefore(ptes: map<Loc, Pte>, frames: Frames, m: nat, start: nat, step: nat, l: Loc)
    requires start < PAGES_PER_PD && step < PAGES_PER_PD && l.mm == m && InRange(l)
    requires StepsTo(PageIndex(l), start, PAGES_PER_PD) == step
    ensures l !in Before(ptes, frames, m, start, step)
    ensures Before(ptes, frames, m, start, step + 1) ==
            Before(ptes, frames, m, start, step) + (if Evictable(ptes, frames, l) then {l} else {})
  {
    forall k | k in Before(ptes, frames, m, start, step + 1) ensures k in Before(ptes, frames, m, start, step) || k == l {
      if StepsTo(PageIndex(k), start, PAGES_PER_PD) == step {
        StepInjective(PageIndex(k), PageIndex(l), start, PAGES_PER_PD);
      }
    }
  }

  /** The candidates that a sweep from the hands reaches before position `key`. */
  ghost function Swept(ptes: map<Loc, Pte>, frames: Frames, slots: seq<MmSlot>, kernelCr3: nat,
                       handMm: nat, handPage: nat, key: nat): set<Loc>
    requires handMm < |slots| && handPage < PAGES_PER_PD
  {
    set l | l in ptes && InRange(l) && Evictable(ptes, frames, l)
            && ReachedBy(slots, kernelCr3, l, handMm, handPage, key)
  }

  ghost predicate ReachedBy(slots: seq<MmSlot>, kernelCr3: nat, l: Loc, handMm: nat, handPage: nat, key: nat)
    requires handMm < |slots| && handPage < PAGES_PER_PD && InRange(l)
  {
    exists i :: SweptSlot(slots, kernelCr3, i, l.mm) && SweepKey(i, l, handMm, handPage, |slots|) < key
  }

  ghost predicate DistinctMms(slots: seq<MmSlot>) {
    forall i, j | 0 <= i < |slots| && 0 <= j < |slots| && slots[i].used && slots[j].used ::
      slots[i].cr3 == slots[j].cr3 ==> i == j
  }

  /** Slot i's turn adds nothing if it is skipped, and its directory's first `stop` pages otherwise. */
  lemma NextMm(ptes: map<Loc, Pte>, frames: Frames, slots: seq<MmSlot>, kernelCr3: nat,
               handMm: nat, handPage: nat, step: nat, stop: nat)
    requires handMm < |slots| && handPage < PAGES_PER_PD && step < |slots| && stop <= PAGES_PER_PD && DistinctMms(slots)
    ensures var i := (handMm + step) % |slots|;
            i < |slots| &&
            Swept(ptes, frames, slots, kernelCr3, handMm, handPage, step * PAGES_PER_PD + stop) ==
            Swept(ptes, frames, slots, kernelCr3, handMm, handPage, step * PAGES_PER_PD) +
            (if SweptSlot(slots, kernelCr3, i, slots[i].cr3)
             then Before(ptes, frames, slots[i].cr3, if step == 0 then handPage else 0, stop) else {})
  {
    RoundTrip(handMm, step, |slots|);
    var i := (handMm + step) % |slots|;
    forall l | InRange(l)
      ensures ReachedBy(slots, kernelCr3, l, handMm, handPage, step * PAGES_PER_PD + stop) <==>
              (ReachedBy(slots, kernelCr3, l, handMm, handPage, step * PAGES_PER_PD) ||
               (SweptSlot(slots, kernelCr3, i, l.mm) &&
                StepsTo(PageIndex(l), if step == 0 then handPage else 0, PAGES_PER_PD) < stop))
    {
      NextMmAt(slots, kernelCr3, l, handMm, handPage, step, stop);
    }
  }

  lemma SweptNothing(ptes: map<Loc, Pte>, frames: Frames, slots: seq<MmSlot>, kernelCr3: nat, handMm: nat, handPage: nat)
    requires handMm < |slots| && handPage < PAGES_PER_PD
    ensures Swept(ptes, frames, slots, kernelCr3, handMm, handPage, 0) == {}
  {
  }

  lemma NextMmAt(slots: seq<MmSlot>, kernelCr3: nat, l: Loc, handMm: nat, handPage: nat, step: nat, stop: nat)
    requires handMm < |slots| && handPage < PAGES_PER_PD && step < |slots| && stop <= PAGES_PER_PD && DistinctMms(slots)
    requires InRange(l)
    ensures ReachedBy(slots, kernelCr3, l, handMm, handPage, step * PAGES_PER_PD + stop) <==>
            (ReachedBy(slots, kernelCr3, l, handMm, handPage, step * PAGES_PER_PD) ||
             (SweptSlot(slots, kernelCr3, (handMm + step) % |slots|, l.mm) &&
              StepsTo(PageIndex(l), if step == 0 then handPage else 0, PAGES_PER_PD) < stop))
  {
    RoundTrip(handMm, step, |slots|);
    var i := (handMm + step) % |slots|;
    if j :| SweptSlot(slots, kernelCr3, j, l.mm) {
      if StepsTo(j, handMm, |slots|) == step { StepInjective(i, j, handMm, |slots|); }
    }
  }

  /** Past the last position the sweep has reached every candidate. */
  lemma SweptAll(s: Vm, kernelCr3: nat, handMm: nat, handPage: nat)
    requires handMm < |s.slots| && handPage < PAGES_PER_PD
    requires forall l :: l in s.ptes ==> InRange(l)
    ensures forall l :: l in Swept(s.ptes, s.frames, s.slots, kernelCr3, handMm, handPage, |s.slots| * PAGES_PER_PD)
                        <==> Candidate(s, kernelCr3, l)
  {
    forall l | Candidate(s, kernelCr3, l)
      ensures ReachedBy(s.slots, kernelCr3, l, handMm, handPage, |s.slots| * PAGES_PER_PD)
    {
      var i :| SweptSlot(s.slots, kernelCr3, i, l.mm);
      assert SweepKey(i, l, handMm, handPage, |s.slots|) < |s.slots| * PAGES_PER_PD;
    }
  }

  /** A page of slot i is not reached before slot i's own turn. */
  lemma NotYetSeen(ptes: map<Loc, Pte>, frames: Frames, slots: seq<MmSlot>, kernelCr3: nat,
                   handMm: nat, handPage: nat, step: nat, l: Loc, i: nat)
    requires handMm < |slots| && handPage < PAGES_PER_PD && step < |slots| && DistinctMms(slots) && InRange(l)
    requires SweptSlot(slots, kernelCr3, i, l.mm) && StepsTo(i, handMm, |slots|) == step
    ensures l !in Swept(ptes, frames, slots, kernelCr3, handMm, handPage, step * PAGES_PER_PD)
  {
  }

  lemma MoreSeen(ptes: map<Loc, Pte>, seen: set<Loc>, more: set<Loc>, second: bool)
    requires Saved(ptes, seen, second) && Saved(Aged(ptes, seen), more, second)
    ensures Saved(ptes, seen + more, second)
  {
  }

  /** The sweep so far: the candidates before `key` were all saved, and lost their accessed bits. */
  ghost predicate SweptTo(was: map<Loc, Pte>, ptes: map<Loc, Pte>, frames: Frames, slots: seq<MmSlot>, kernelCr3: nat,
                          handMm: nat, handPage: nat, key: nat, second: bool)
    requires handMm < |slots| && handPage < PAGES_PER_PD
  {
    var seen := Swept(was, frames, slots, kernelCr3, handMm, handPage, key);
    Saved(was, seen, second) && ptes == Aged(was, seen)
  }

  lemma SweptToStart(was: map<Loc, Pte>, frames: Frames, slots: seq<MmSlot>, kernelCr3: nat,
                     handMm: nat, handPage: nat, second: bool)
    requires handMm < |slots| && handPage < PAGES_PER_PD
    ensures SweptTo(was, was, frames, slots, kernelCr3, handMm, handPage, 0, second)
  {
    SweptNothing(was, frames, slots, kernelCr3, handMm, handPage);
    AgedNothing(was);
  }

  lemma SlotSkipped(was: map<Loc, Pte>, ptes: map<Loc, Pte>, frames: Frames, slots: seq<MmSlot>, kernelCr3: nat,
                    handMm: nat, handPage: nat, step: nat, second: bool)
    requires handMm < |slots| && handPage < PAGES_PER_PD && step < |slots| && DistinctMms(slots)
    requires (handMm + step) % |slots| < |slots|
    requires var i := (handMm + step) % |slots|; !SweptSlot(slots, kernelCr3, i, slots[i].cr3)
    requires SweptTo(was, ptes, frames, slots, kernelCr3, handMm, handPage, step * PAGES_PER_PD, second)
    ensures SweptTo(was, ptes, frames, slots, kernelCr3, handMm, handPage, (step + 1) * PAGES_PER_PD, second)
  {
    hide Swept, Aged, Saved, DistinctMms;
    NextMm(was, frames, slots, kernelCr3, handMm, handPage, step, PAGES_PER_PD);
    var seen := Swept(was, frames, slots, kernelCr3, handMm, handPage, step * PAGES_PER_PD);
    assert seen + {} == seen;
  }

  lemma SlotSwept(was: map<Loc, Pte>, mid: map<Loc, Pte>, ptes: map<Loc, Pte>, frames: Frames, slots: seq<MmSlot>,
                  kernelCr3: nat, handMm: nat, handPage: nat, step: nat, stop: nat, second: bool)
    requires handMm < |slots| && handPage < PAGES_PER_PD && step < |slots| && stop <= PAGES_PER_PD && DistinctMms(slots)
    requires (handMm + step) % |slots| < |slots|
    requires SweptTo(was, mid, frames, slots, kernelCr3, handMm, handPage, step * PAGES_PER_PD, second)
    requires var i := (handMm + step) % |slots|;
             SweptSlot(slots, kernelCr3, i, slots[i].cr3) &&
             var more := Before(mid, frames, slots[i].cr3, if step == 0 then handPage else 0, stop);
             Saved(mid, more, second) && ptes == Aged(mid, more)
    ensures SweptTo(was, ptes, frames, slots, kernelCr3, handMm, handPage, step * PAGES_PER_PD + stop, second)
  {
    hide Swept, Aged, Saved, DistinctMms, Before;
    var i := (handMm + step) % |slots|;
    var start := if step == 0 then handPage else 0;
    var seen := Swept(was, frames, slots, kernelCr3, handMm, handPage, step * PAGES_PER_PD);
    var more := Before(mid, frames, slots[i].cr3, start, stop);
    AgedBefore(was, seen, frames, slots[i].cr3, start, stop);
    AgedTwice(was, seen, more);
    NextMm(was, frames, slots, kernelCr3, handMm, handPage, step, stop);
    MoreSeen(was, seen, more, second);
  }

  /** The page a slot's round stopped at had not been touched by the sweep before. */
  lemma VictimUntouched(was: map<Loc, Pte>, mid: map<Loc, Pte>, frames: Frames, slots: seq<MmSlot>, kernelCr3: nat,
                        handMm: nat, handPage: nat, step: nat, second: bool, i: nat, v: Loc)
    requires handMm < |slots| && handPage < PAGES_PER_PD && step < |slots| && DistinctMms(slots) && InRange(v)
    requires SweptSlot(slots, kernelCr3, i, v.mm) && StepsTo(i, handMm, |slots|) == step
    requires SweptTo(was, mid, frames, slots, kernelCr3, handMm, handPage, step * PAGES_PER_PD, second)
    requires Evictable(mid, frames, v)
    ensures Evictable(was, frames, v) && was[v] == mid[v]
  {
    hide Swept, Aged, DistinctMms;
    var seen := Swept(was, frames, slots, kernelCr3, handMm, handPage, step * PAGES_PER_PD);
    AgedEvictable(was, seen, frames, v);
    NotYetSeen(was, frames, slots, kernelCr3, handMm, handPage, step, v, i);
  }
}
