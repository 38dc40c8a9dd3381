/**
 How the invariant of VmState moves when one thing changes: a frame is handed out or back,
 an entry is dropped from the page tables, an entry is added.
 */
module VmSteps {
  import opened FrameTable
  import opened VmState

  // ----- swap slot counts (kernel/paging.c:143-162) ------------------------------------

  datatype SlotCounts = SlotCounts(refs: seq<nat>, used: nat)

  function SlotRefAt(c: SlotCounts, k: nat): SlotCounts {
    if k >= |c.refs| then c
    else if c.refs[k] == 0 then SlotCounts(c.refs[k := 1], c.used + 1)
    else if c.refs[k] != REF_MAX then SlotCounts(c.refs[k := c.refs[k] + 1], c.used)
    else c
  }

  function SlotUnrefAt(c: SlotCounts, k: nat): SlotCounts {
    if k >= |c.refs| || c.refs[k] == 0 then c
    else if c.refs[k] > 1 then SlotCounts(c.refs[k := c.refs[k] - 1], c.used)
    else SlotCounts(c.refs[k := 0], if c.used > 0 then c.used - 1 else 0)
  }

  // ----- frame counts -------------------------------------------------------------------

  lemma CountsAlloc(ptes: map<Loc, Pte>, sys: set<nat>, p: Frames, f: nat)
    requires CountsOk(ptes, sys, p) && f < |p.refs| && !p.used[f]
    ensures CountsOk(ptes, sys + {f}, AllocAt(p, f)) && f !in sys && PageRefs(ptes, f) == {}
  {
    var q, sys' := AllocAt(p, f), sys + {f};
    CallsKeepFramesOk(p, f);
    assert p.refs[f] == Owners(ptes, sys, f) == 0;
    forall g | 0 <= g < |q.refs| ensures q.refs[g] == Owners(ptes, sys', g) {
      assert p.refs[g] == Owners(ptes, sys, g);
    }
    forall l | l in ptes && ptes[l].p ensures ptes[l].num !in sys' {
      assert l in PageRefs(ptes, ptes[l].num);
    }
  }

  lemma CountsFree(ptes: map<Loc, Pte>, sys: set<nat>, p: Frames, f: nat)
    requires CountsOk(ptes, sys, p) && f in sys
    ensures CountsOk(ptes, sys - {f}, FreeAt(p, f)) && FreeAt(p, f).refs == p.refs[f := 0]
  {
    var q, sys' := FreeAt(p, f), sys - {f};
    CallsKeepFramesOk(p, f);
    SysUnnamed(ptes, sys, p, f);
    forall g | 0 <= g < |q.refs| ensures q.refs[g] == Owners(ptes, sys', g) {
      assert p.refs[g] == Owners(ptes, sys, g);
    }
  }

  lemma SysUnnamed(ptes: map<Loc, Pte>, sys: set<nat>, p: Frames, f: nat)
    requires CountsOk(ptes, sys, p) && f in sys
    ensures PageRefs(ptes, f) == {} && p.refs[f] == 1 && p.used[f]
  {
    assert p.refs[f] == Owners(ptes, sys, f);
  }

  lemma CountsSame(ptes: map<Loc, Pte>, ptes': map<Loc, Pte>, sys: set<nat>, p: Frames)
    requires CountsOk(ptes, sys, p) && SameNames(ptes, ptes')
    ensures CountsOk(ptes', sys, p)
  {
    forall f | 0 <= f < |p.refs| ensures p.refs[f] == Owners(ptes', sys, f) {
      SameNamesSameRefs(ptes, ptes', f);
      assert p.refs[f] == Owners(ptes, sys, f);
    }
  }

  /** Dropping a present entry gives its reference back. */
  lemma CountsDrop(ptes: map<Loc, Pte>, sys: set<nat>, p: Frames, l: Loc)
    requires CountsOk(ptes, sys, p) && l in ptes && ptes[l].p && ptes[l].num < |p.refs|
    ensures CountsOk(ptes - {l}, sys, UnrefAt(p, ptes[l].num))
  {
    var f := ptes[l].num;
    var q := UnrefAt(p, f);
    CallsKeepFramesOk(p, f);
    assert l in PageRefs(ptes, f);
    forall g | 0 <= g < |q.refs| ensures q.refs[g] == Owners(ptes - {l}, sys, g) {
      RefsDrop(ptes, l, g);
      assert p.refs[g] == Owners(ptes, sys, g);
    }
  }

  lemma CountsDropAbsent(ptes: map<Loc, Pte>, sys: set<nat>, p: Frames, l: Loc)
    requires CountsOk(ptes, sys, p) && l in ptes && !ptes[l].p
    ensures CountsOk(ptes - {l}, sys, p)
  {
    forall g | 0 <= g < |p.refs| ensures p.refs[g] == Owners(ptes - {l}, sys, g) {
      RefsDrop(ptes, l, g);
      assert p.refs[g] == Owners(ptes, sys, g);
    }
  }

  lemma CountsAddAbsent(ptes: map<Loc, Pte>, sys: set<nat>, p: Frames, l: Loc, e: Pte)
    requires CountsOk(ptes, sys, p) && l !in ptes && !e.p
    ensures CountsOk(ptes[l := e], sys, p)
  {
    forall g | 0 <= g < |p.refs| ensures p.refs[g] == Owners(ptes[l := e], sys, g) {
      RefsAdd(ptes, l, e, g);
      assert p.refs[g] == Owners(ptes, sys, g);
    }
  }

  /** A frame in transit becomes a page: its single count changes hands. */
  lemma CountsInstall(ptes: map<Loc, Pte>, sys: set<nat>, p: Frames, l: Loc, e: Pte)
    requires CountsOk(ptes, sys, p) && l !in ptes && e.p && e.num in sys
    ensures CountsOk(ptes[l := e], sys - {e.num}, p) && PageRefs(ptes, e.num) == {}
  {
    SysUnnamed(ptes, sys, p, e.num);
    var sys' := sys - {e.num};
    forall g | 0 <= g < |p.refs| ensures p.refs[g] == Owners(ptes[l := e], sys', g) {
      RefsAdd(ptes, l, e, g);
      assert p.refs[g] == Owners(ptes, sys, g);
    }
  }

  /** One more entry for a frame that has one: the count goes up, unless it is saturated. */
  lemma CountsShare(ptes: map<Loc, Pte>, sys: set<nat>, p: Frames, l: Loc, c: Loc, e: Pte)
    requires CountsOk(ptes, sys, p) && l in ptes && ptes[l].p && c !in ptes
    requires e.p && e.num == ptes[l].num < |p.refs| && p.refs[e.num] < REF_MAX
    ensures CountsOk(ptes[c := e], sys, RefAt(p, e.num))
  {
    var f := e.num;
    var q := RefAt(p, f);
    CallsKeepFramesOk(p, f);
    assert l in PageRefs(ptes, f);
    assert p.refs[f] == Owners(ptes, sys, f) > 0;
    forall g | 0 <= g < |q.refs| ensures q.refs[g] == Owners(ptes[c := e], sys, g) {
      RefsAdd(ptes, c, e, g);
      assert p.refs[g] == Owners(ptes, sys, g);
    }
  }

  // ----- swap slot counts under entry changes -------------------------------------------

  lemma SwapDropPresent(ptes: map<Loc, Pte>, on: bool, c: SlotCounts, l: Loc)
    requires SwapOk(ptes, on, c.refs, c.used) && l in ptes && ptes[l].p
    ensures SwapOk(ptes - {l}, on, c.refs, c.used)
  {
    forall k | 0 <= k < |c.refs| ensures c.refs[k] == |SlotLocs(ptes - {l}, k)| {
      RefsDrop(ptes, l, k);
    }
  }

  lemma SwapDrop(ptes: map<Loc, Pte>, on: bool, c: SlotCounts, l: Loc)
    requires SwapOk(ptes, on, c.refs, c.used) && l in ptes && SwappedShape(ptes[l], |c.refs|)
    ensures var d := SlotUnrefAt(c, ptes[l].num); SwapOk(ptes - {l}, on, d.refs, d.used) && |d.refs| == |c.refs|
  {
    var j := ptes[l].num;
    var d := SlotUnrefAt(c, j);
    assert l in SlotLocs(ptes, j);
    forall k | 0 <= k < |c.refs| ensures d.refs[k] == |SlotLocs(ptes - {l}, k)| {
      RefsDrop(ptes, l, k);
    }
    CountNonZeroUpdate(c.refs, j, d.refs[j]);
  }

  lemma SwapAddPresent(ptes: map<Loc, Pte>, on: bool, c: SlotCounts, l: Loc, e: Pte)
    requires SwapOk(ptes, on, c.refs, c.used) && l !in ptes && e.p
    ensures SwapOk(ptes[l := e], on, c.refs, c.used)
  {
    forall k | 0 <= k < |c.refs| ensures c.refs[k] == |SlotLocs(ptes[l := e], k)| {
      RefsAdd(ptes, l, e, k);
    }
  }

  lemma SwapAdd(ptes: map<Loc, Pte>, on: bool, c: SlotCounts, l: Loc, e: Pte)
    requires SwapOk(ptes, on, c.refs, c.used) && l !in ptes && SwappedShape(e, |c.refs|)
    requires c.refs[e.num] < REF_MAX
    ensures var d := SlotRefAt(c, e.num); SwapOk(ptes[l := e], on, d.refs, d.used) && |d.refs| == |c.refs|
  {
    var j := e.num;
    var d := SlotRefAt(c, j);
    forall k | 0 <= k < |c.refs| ensures d.refs[k] == |SlotLocs(ptes[l := e], k)| {
      RefsAdd(ptes, l, e, k);
    }
    CountNonZeroUpdate(c.refs, j, d.refs[j]);
  }

  lemma SwapSame(ptes: map<Loc, Pte>, ptes': map<Loc, Pte>, on: bool, c: SlotCounts)
    requires SwapOk(ptes, on, c.refs, c.used) && SameNames(ptes, ptes')
    ensures SwapOk(ptes', on, c.refs, c.used)
  {
    forall k | 0 <= k < |c.refs| ensures c.refs[k] == |SlotLocs(ptes', k)| {
      SameNamesSameRefs(ptes, ptes', k);
    }
  }

  // ----- sharing ------------------------------------------------------------------------

  lemma SharingDrop(ptes: map<Loc, Pte>, l: Loc)
    requires SharingOk(ptes)
    ensures SharingOk(ptes - {l})
  {
  }

  /** A new entry keeps the sharing rule if everything it shares with is read-only and at its own page. */
  lemma SharingAdd(ptes: map<Loc, Pte>, c: Loc, e: Pte)
    requires SharingOk(ptes) && c !in ptes
    requires e.p ==> forall l :: l in PageRefs(ptes, e.num) ==>
                       l.dir == c.dir && l.ti == c.ti && !ptes[l].w && !e.w
    requires !e.p ==> forall l :: l in ptes && !ptes[l].p && ptes[l].num == e.num ==> l.dir == c.dir && l.ti == c.ti
    ensures SharingOk(ptes[c := e])
  {
    var ptes' := ptes[c := e];
    forall l, l' | l in ptes' && l' in ptes' && ptes'[l].p && ptes'[l'].p && ptes'[l].num == ptes'[l'].num
      ensures l.dir == l'.dir && l.ti == l'.ti && (ptes'[l].w ==> l == l')
    {
      if l == c && l' != c { assert l' in PageRefs(ptes, e.num); }
      if l' == c && l != c { assert l in PageRefs(ptes, e.num); }
    }
  }

  lemma SharingUnmarked(ptes: map<Loc, Pte>, ptes': map<Loc, Pte>)
    requires SharingOk(ptes) && SameNames(ptes, ptes')
    requires forall l :: l in ptes && ptes'[l].w && ptes'[l].p ==> ptes[l].w || PageRefs(ptes, ptes[l].num) == {l}
    ensures SharingOk(ptes')
  {
    forall l, l' | l in ptes' && l' in ptes' && ptes'[l].p && ptes'[l'].p && ptes'[l].num == ptes'[l'].num
      ensures l.dir == l'.dir && l.ti == l'.ti && (ptes'[l].w ==> l == l')
    {
      assert l' in PageRefs(ptes, ptes[l].num);
    }
  }
}
