/**
 Whole runs of the memory code. Every kernel step is one of a few events on the view; over any
 run, what an address space holds is determined by its own events and those of its ancestors.
 */
module VmRuns {
  import opened VmState
  import opened VmSpaces
  import opened Clock

  type Views = map<Loc, PageView>

  datatype Event =
    | Internal                                       // paging, copying, reference counts, switching
    | Wrote(l: Loc, page: PageView)                  // a store, or the first touch of a lazy page
    | Made(m: nat)                                   // a new, empty space
    | Forked(parent: nat, child: nat)
    | Unmapped(m: nat, first: nat, end: nat)
    | Exited(m: nat)

  /** The address space an event acts for. */
  predicate ActsFor(e: Event, m: nat) {
    match e
    case Internal => false
    case Wrote(l, _) => l.mm == m
    case Made(k) => k == m
    case Forked(_, child) => child == m
    case Unmapped(k, _, _) => k == m
    case Exited(k) => k == m
  }

  ghost predicate Step(v: Views, e: Event, v': Views) {
    match e
    case Internal => v' == v
    case Wrote(l, page) => InRange(l) && v' == v[l := page]
    case Made(m) => v' == v && forall l :: l in v ==> l.mm != m
    case Forked(p, c) => p != c && (forall l :: l in v ==> l.mm != c) && v' == ForkView(v, p, c)
    case Unmapped(m, a, b) => v' == Minus(v, m, a, b)
    case Exited(m) => v' == WithoutMm(v, m)
  }

  /** views[i] is the view before event i. */
  ghost predicate Run(views: seq<Views>, events: seq<Event>) {
    && |views| == |events| + 1 && AllInRange(views[0])
    && forall i :: 0 <= i < |events| ==> Step(views[i], events[i], views[i + 1])
  }

  datatype Spot = Spot(dir: nat, ti: nat)

  /** One address space as its program sees it. */
  ghost function Space(v: Views, m: nat): map<Spot, PageView> {
    map s | s in (set l | l in v && l.mm == m :: Spot(l.dir, l.ti)) :: v[Loc(m, s.dir, s.ti)]
  }

  /**
   The contents of space m after n events, computed from the events of m alone and, before m was
   forked, those of its parent. Events of all other spaces and all internal steps are ignored.
   */
  ghost function Lineage(v0: Views, events: seq<Event>, n: nat, m: nat): map<Spot, PageView>
    requires n <= |events|
  {
    if n == 0 then Space(v0, m)
    else if !ActsFor(events[n - 1], m) then Lineage(v0, events, n - 1, m)
    else match events[n - 1]
      case Internal => map[]
      case Wrote(l, page) => Lineage(v0, events, n - 1, m)[Spot(l.dir, l.ti) := page]
      case Made(_) => map[]
      case Forked(p, _) => Lineage(v0, events, n - 1, p)
      case Unmapped(_, a, b) =>
        var w := Lineage(v0, events, n - 1, m);
        map s | s in w && !(a <= s.dir * ENTRIES + s.ti < b) :: w[s]
      case Exited(_) => map[]
  }

  lemma SpaceAt(v: Views, m: nat, s: Spot)
    ensures s in Space(v, m) <==> Loc(m, s.dir, s.ti) in v
    ensures s in Space(v, m) ==> Space(v, m)[s] == v[Loc(m, s.dir, s.ti)]
  {
    if Loc(m, s.dir, s.ti) in v { assert s == Spot(Loc(m, s.dir, s.ti).dir, Loc(m, s.dir, s.ti).ti); }
  }

  lemma StepInRange(v: Views, e: Event, v': Views)
    requires AllInRange(v) && Step(v, e, v')
    ensures AllInRange(v')
  {
    if e.Forked? { ForkIsCopy(v, e.parent, e.child); }
  }

  /** A step that does not act for m leaves m alone, whatever it does elsewhere. */
  lemma OthersUntouched(v: Views, e: Event, v': Views, m: nat)
    requires AllInRange(v) && Step(v, e, v') && !ActsFor(e, m)
    ensures Space(v', m) == Space(v, m)
  {
    if e.Forked? { ForkIsCopy(v, e.parent, e.child); }
    forall s ensures s in Space(v', m) <==> s in Space(v, m)
      ensures s in Space(v, m) ==> s in Space(v', m) && Space(v', m)[s] == Space(v, m)[s]
    {
      SpaceAt(v, m, s);
      SpaceAt(v', m, s);
    }
  }

  lemma OwnStep(v: Views, e: Event, v': Views, m: nat)
    requires AllInRange(v) && Step(v, e, v') && ActsFor(e, m)
    ensures e.Wrote? ==> Space(v', m) == Space(v, m)[Spot(e.l.dir, e.l.ti) := e.page]
    ensures e.Forked? ==> Space(v', m) == Space(v, e.parent)
    ensures e.Unmapped? ==>
              Space(v', m) == map s | s in Space(v, m) && !(e.first <= s.dir * ENTRIES + s.ti < e.end) :: Space(v, m)[s]
    ensures e.Exited? || e.Made? ==> Space(v', m) == map[]
  {
    hide Space;
    if e.Forked? {
      OwnFork(v, e, v', m);
    } else {
      AllSpots(v, m);
      AllSpots(v', m);
    }
  }

  lemma OwnFork(v: Views, e: Event, v': Views, m: nat)
    requires AllInRange(v) && Step(v, e, v') && ActsFor(e, m) && e.Forked?
    ensures Space(v', m) == Space(v, e.parent)
  {
    hide Space;
    ForkIsCopy(v, e.parent, e.child);
    AllSpots(v', m);
    AllSpots(v, e.parent);
    assert Space(v', m).Keys == Space(v, e.parent).Keys;
  }

  lemma AllSpots(v: Views, m: nat)
    ensures forall s :: s in Space(v, m) <==> Loc(m, s.dir, s.ti) in v
    ensures forall s :: s in Space(v, m) ==> Space(v, m)[s] == v[Loc(m, s.dir, s.ti)]
  {
    forall s
      ensures s in Space(v, m) <==> Loc(m, s.dir, s.ti) in v
      ensures s in Space(v, m) ==> Space(v, m)[s] == v[Loc(m, s.dir, s.ti)]
    {
      SpaceAt(v, m, s);
    }
  }

  lemma {:induction false} RunInRange(views: seq<Views>, events: seq<Event>, n: nat)
    requires Run(views, events) && n <= |events|
    ensures AllInRange(views[n])
  {
    if n > 0 {
      RunInRange(views, events, n - 1);
      StepInRange(views[n - 1], events[n - 1], views[n]);
    }
  }

  /** Isolation over every run: at any moment each space holds exactly what its own lineage put there. */
  lemma {:induction false} Isolation(views: seq<Views>, events: seq<Event>, n: nat, m: nat)
    requires Run(views, events) && n <= |events|
    ensures Space(views[n], m) == Lineage(views[0], events, n, m)
  {
    hide Space, Step, ForkView, Minus, WithoutMm;
    if n > 0 {
      RunInRange(views, events, n - 1);
      assert Step(views[n - 1], events[n - 1], views[n]);
      var e := events[n - 1];
      Isolation(views, events, n - 1, m);
      if !ActsFor(e, m) {
        OthersUntouched(views[n - 1], e, views[n], m);
      } else {
        OwnStep(views[n - 1], e, views[n], m);
        if e.Forked? { Isolation(views, events, n - 1, e.parent); }
      }
    }
  }

  /** After a fork the child keeps the parent's pages of that moment until it acts itself, whatever the parent does. */
  lemma {:induction false} SnapshotFork(views: seq<Views>, events: seq<Event>, k: nat, n: nat)
    requires Run(views, events) && k < n <= |events| && events[k].Forked?
    requires forall i :: k < i < n ==> !ActsFor(events[i], events[k].child)
    ensures Space(views[n], events[k].child) == Space(views[k], events[k].parent)
    decreases n
  {
    RunInRange(views, events, n - 1);
    assert Step(views[n - 1], events[n - 1], views[n]);
    if n == k + 1 {
      OwnStep(views[k], events[k], views[n], events[k].child);
    } else {
      SnapshotFork(views, events, k, n - 1);
      OthersUntouched(views[n - 1], events[n - 1], views[n], events[k].child);
    }
  }
}
