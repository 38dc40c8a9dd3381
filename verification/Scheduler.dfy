/**
 The round-robin scheduler (kernel/task.c): picking the next task, the timer tick, and how
 long a ready task can have to wait whatever the other tasks do.
 */
module Scheduler {
  datatype State = Ready | Running | Blocked | Dead

  /** `wake` is the tick at which a sleeping task is to wake, 0 for none. */
  datatype Task = Task(state: State, quantum: nat, left: nat, wake: nat)

  /** A table of tasks and the index of the current one, -1 before the first. Task 0 is the idle task. */
  datatype Sched = Sched(tasks: seq<Task>, current: int)

  predicate IsReady(s: Sched, i: int) { 0 <= i < |s.tasks| && s.tasks[i].state.Ready? }

  /** At most the current task is running; slices are within their quantum, and no quantum is 0 or above q. */
  ghost predicate Ok(s: Sched, q: nat) {
    && -1 <= s.current < |s.tasks|
    && (forall i :: 0 <= i < |s.tasks| && s.tasks[i].state.Running? ==> i == s.current)
    && (forall i :: 0 <= i < |s.tasks| ==> s.tasks[i].left <= s.tasks[i].quantum && 0 < s.tasks[i].quantum <= q)
  }

  // ----- picking -------------------------------------------------------------------------------------

  function Start(current: int): int { if current < 0 then 0 else current }

  /** After how many others the scan that starts behind the current task reaches i. */
  function Pos(current: int, i: int, n: int): int {
    if i > Start(current) then i - Start(current) - 1 else i - Start(current) - 1 + n
  }

  /** r is the first ready task in scan order, the idle task only if there is no other, -1 if there is none. */
  ghost predicate IsPick(s: Sched, r: int) {
    if r < 0 then r == -1 && forall i :: !IsReady(s, i)
    else if r == 0 then IsReady(s, 0) && forall i :: i != 0 ==> !IsReady(s, i)
    else IsReady(s, r) && forall i :: i != 0 && IsReady(s, i) ==> Pos(s.current, r, |s.tasks|) <= Pos(s.current, i, |s.tasks|)
  }

  lemma PickUnique(s: Sched, a: int, b: int)
    requires -1 <= s.current < |s.tasks| && IsPick(s, a) && IsPick(s, b)
    ensures a == b
  {
  }

  // ----- waking --------------------------------------------------------------------------------------

  /** The blocked tasks that wake at tick `now`: those whose time has come, and those in `due`, whose child or event is there. */
  function Woken(s: Sched, now: nat, due: set<nat>): (t: Sched)
    ensures t.current == s.current && |t.tasks| == |s.tasks|
    ensures forall i :: 0 <= i < |s.tasks| ==> t.tasks[i] == WokenTask(s.tasks[i], now, i in due)
  {
    s.(tasks := seq(|s.tasks|, i requires 0 <= i < |s.tasks| => WokenTask(s.tasks[i], now, i in due)))
  }

  function WokenTask(t: Task, now: nat, due: bool): Task {
    if !t.state.Blocked? then t
    else if due then t.(state := Ready)
    else if t.wake != 0 && now >= t.wake then t.(state := Ready, wake := 0)
    else t
  }

  /** Waking changes nothing for a task that waits its turn, and a sleeper whose time has come waits its turn. */
  lemma WokenBetween(s: Sched, now: nat, due: set<nat>, w: int)
    requires 0 <= w < |s.tasks| && (IsReady(s, w) || (s.tasks[w].state.Blocked? && 0 < s.tasks[w].wake <= now))
    ensures IsReady(Woken(s, now, due), w) && Between(s, Woken(s, now, due), w)
  {
  }

  // ----- ticks ---------------------------------------------------------------------------------------

  /** The current task goes on without a decision. */
  predicate GoesOn(s: Sched) { 0 <= s.current < |s.tasks| && s.tasks[s.current].state.Running? && s.tasks[s.current].left > 1 }

  /** The running task's slice one tick shorter. */
  function Counted(s: Sched): Sched {
    if 0 <= s.current < |s.tasks| && s.tasks[s.current].state.Running? && s.tasks[s.current].left > 0
    then s.(tasks := s.tasks[s.current := s.tasks[s.current].(left := s.tasks[s.current].left - 1)])
    else s
  }

  function Refill(s: Sched, i: int): Sched
    requires 0 <= i < |s.tasks|
  {
    s.(tasks := s.tasks[i := s.tasks[i].(left := s.tasks[i].quantum)])
  }

  /** do_switch. */
  function Switched(s: Sched, next: int): Sched
    requires 0 <= next < |s.tasks| && s.current < |s.tasks|
  {
    var t := if s.current >= 0 && s.tasks[s.current].state.Running?
             then s.tasks[s.current := s.tasks[s.current].(state := Ready)] else s.tasks;
    Sched(t[next := t[next].(state := Running, left := t[next].quantum)], next)
  }

  /** A tick that decides for r. */
  function Decided(s: Sched, r: int): Sched
    requires r < |s.tasks| && s.current < |s.tasks|
  {
    if r < 0 then Counted(s) else if r == s.current then Refill(Counted(s), r) else Switched(Counted(s), r)
  }

  /** scheduler_tick from s to t; r is the decision, if there is one. */
  ghost predicate TickStep(s: Sched, t: Sched, r: int) {
    if GoesOn(s) then t == Counted(s)
    else s.current < |s.tasks| && IsPick(Counted(s), r) && r < |s.tasks| && t == Decided(s, r)
  }

  lemma TickOk(s: Sched, t: Sched, r: int, q: nat)
    requires Ok(s, q) && TickStep(s, t, r)
    ensures Ok(t, q) && |t.tasks| == |s.tasks|
  {
  }

  /** The task with the processor has a slice of more than one tick left. */
  ghost predicate HasTime(s: Sched) {
    0 <= s.current < |s.tasks| && s.tasks[s.current].state.Running? && s.tasks[s.current].left > 1
  }

  /**
   A tick loses nobody: who could run still can, who could not still cannot, and a task that is
   given the processor has a full slice.
   */
  lemma TickLosesNobody(s: Sched, t: Sched, r: int, q: nat)
    requires Ok(s, q) && TickStep(s, t, r)
    ensures |t.tasks| == |s.tasks|
    ensures forall i :: 0 <= i < |s.tasks| ==>
      && (s.tasks[i].state.Ready? || s.tasks[i].state.Running? ==> t.tasks[i].state.Ready? || (t.tasks[i].state.Running? && i == t.current))
      && (s.tasks[i].state.Blocked? || s.tasks[i].state.Dead? ==> t.tasks[i] == s.tasks[i])
      && t.tasks[i].quantum == s.tasks[i].quantum && t.tasks[i].wake == s.tasks[i].wake
    ensures HasTime(s) ==>
      t.current == s.current && t.tasks == s.tasks[s.current := s.tasks[s.current].(left := s.tasks[s.current].left - 1)]
    ensures !HasTime(s) && (exists i :: 0 <= i < |s.tasks| && s.tasks[i].state.Ready?) ==>
      && 0 <= t.current < |t.tasks| && s.tasks[t.current].state.Ready?
      && (t.current != s.current ==> t.tasks[t.current].state.Running?) && t.tasks[t.current].left == t.tasks[t.current].quantum
  {
    if i :| 0 <= i < |s.tasks| && s.tasks[i].state.Ready? { assert IsReady(Counted(s), i); }
  }

  class Cpu {
    var s: Sched
    var ticks: nat

    /** pick_next_ready. */
    method PickNext() returns (best: int)
      requires -1 <= s.current < |s.tasks|
      ensures IsPick(s, best)
    {
      best := -1;
      if |s.tasks| == 0 { return; }
      var start := if s.current < 0 then 0 else s.current;
      for n := 0 to |s.tasks|
        invariant best == -1 || (best == 0 && IsReady(s, 0))
        invariant forall i :: IsReady(s, i) && Pos(s.current, i, |s.tasks|) < n ==> i == 0 && best == 0
      {
        var i := (start + 1 + n) % |s.tasks|;
        ScanPos(s.current, n, |s.tasks|);
        if !s.tasks[i].state.Ready? { continue; }
        if i == 0 {
          if best < 0 { best := 0; }
        } else {
          return i;
        }
      }
      forall i | IsReady(s, i) ensures i == 0 && best == 0 { PosBound(s.current, i, |s.tasks|); }
    }

    static lemma ScanPos(current: int, n: int, size: int)
      requires -1 <= current < size && 0 <= n < size
      ensures var i := (Start(current) + 1 + n) % size;
        0 <= i < size && Pos(current, i, size) == n && forall j :: 0 <= j < size && Pos(current, j, size) == n ==> j == i
    {
      Wrap(Start(current) + 1 + n, size);
    }

    static lemma Wrap(x: int, size: int)
      requires 0 <= x < 2 * size
      ensures x % size == if x < size then x else x - size
    {
      if x >= size {
        var y := x - size;
        assert x == 1 * size + y;
        assert x / size == 1;
      }
    }

    static lemma PosBound(current: int, i: int, size: int)
      requires -1 <= current < size && 0 <= i < size
      ensures 0 <= Pos(current, i, size) < size
    {
    }

    /** wake_blocked_tasks. */
    method WakeBlocked(due: set<nat>)
      modifies this`s
      ensures s == Woken(old(s), ticks, due)
    {
      for i := 0 to |s.tasks|
        invariant |s.tasks| == |old(s).tasks| && s.current == old(s).current
        invariant forall j :: 0 <= j < |s.tasks| ==>
          s.tasks[j] == if j < i then WokenTask(old(s).tasks[j], ticks, j in due) else old(s).tasks[j]
      {
        var t := s.tasks[i];
        if !t.state.Blocked? { continue; }
        if i in due {
          s := s.(tasks := s.tasks[i := t.(state := Ready)]);
          continue;
        }
        if t.wake != 0 && ticks >= t.wake { s := s.(tasks := s.tasks[i := t.(state := Ready, wake := 0)]); }
      }
      assert s.tasks == Woken(old(s), ticks, due).tasks;
    }

    /** scheduler_tick: time goes on, tasks wake, and the running one goes on or there is a decision. */
    method Tick(due: set<nat>, ghost q: nat) returns (ghost r: int)
      requires Ok(s, q)
      modifies this
      ensures ticks == old(ticks) + 1 && TickStep(Woken(old(s), ticks, due), s, r) && Ok(s, q)
      ensures |s.tasks| == |old(s).tasks| && forall i :: 0 <= i < |s.tasks| ==>
        var was, now := old(s).tasks[i], s.tasks[i];
        var wakes := was.state.Blocked? && (i in due || 0 < was.wake <= ticks);
        && (wakes || was.state.Ready? || was.state.Running? <==> now.state.Ready? || (now.state.Running? && i == s.current))
        && (!wakes && (was.state.Blocked? || was.state.Dead?) ==> now == was)
    {
      ticks := ticks + 1;
      WakeBlocked(due);
      WokenOk(old(s), ticks, due, q);
      ghost var awake := s;
      r := Schedule(q);
      TickLosesNobody(awake, s, r, q);
    }

    /** The rest of the tick, once tasks are awake. */
    method Schedule(ghost q: nat) returns (ghost r: int)
      requires Ok(s, q)
      modifies this`s
      ensures TickStep(old(s), s, r) && Ok(s, q)
    {
      ghost var s0 := s;
      var c := s.current;
      r := -1;
      if c >= 0 && s.tasks[c].state.Running? {
        if s.tasks[c].left > 0 {
          s := s.(tasks := s.tasks[c := s.tasks[c].(left := s.tasks[c].left - 1)]);
        }
        if s.tasks[c].left > 0 { TickOk(s0, s, r, q); return; }
      }
      var next := PickNext();
      r := next;
      if next >= 0 {
        if next == s.current {
          s := s.(tasks := s.tasks[c := s.tasks[c].(left := s.tasks[c].quantum)]);
        } else {
          DoSwitch(c, next);
        }
      }
      TickOk(s0, s, r, q);
    }

    static lemma WokenOk(s: Sched, now: nat, due: set<nat>, q: nat)
      requires Ok(s, q)
      ensures Ok(Woken(s, now, due), q)
    {
    }

    /** task_sleep_ticks by the current task, up to its yield: it wakes `n` ticks from now. */
    method Sleep(n: nat)
      requires s.current < |s.tasks|
      modifies this`s
      ensures n == 0 || old(s).current <= 0 ==> s == old(s)
      ensures n > 0 && old(s).current > 0 ==>
        var c := old(s).current;
        s == old(s).(tasks := old(s).tasks[c := old(s).tasks[c].(state := Blocked, wake := ticks + n)])
    {
      if n == 0 || s.current <= 0 { return; }
      s := s.(tasks := s.tasks[s.current := s.tasks[s.current].(wake := ticks + n, state := Blocked)]);
    }

    method DoSwitch(prev: int, next: int)
      requires prev == s.current < |s.tasks| && 0 <= next < |s.tasks|
      modifies this`s
      ensures s == Switched(old(s), next)
      ensures s.current == next && |s.tasks| == |old(s).tasks|
      ensures s.tasks[next] == old(s).tasks[next].(state := Running, left := old(s).tasks[next].quantum)
      ensures forall i :: 0 <= i < |s.tasks| && i != next ==>
        s.tasks[i] == if i == prev && old(s).tasks[i].state.Running? then old(s).tasks[i].(state := Ready) else old(s).tasks[i]
    {
      if prev >= 0 && s.tasks[prev].state.Running? {
        s := s.(tasks := s.tasks[prev := s.tasks[prev].(state := Ready)]);
      }
      s := s.(tasks := s.tasks[next := s.tasks[next].(state := Running, left := s.tasks[next].quantum)]);
      s := s.(current := next);
    }
  }

  // ----- bounded waiting -------------------------------------------------------------------------------

  /** What may happen between ticks: any task may block, wake or die, but w is not taken from the ready ones; none starts running. */
  ghost predicate Between(s: Sched, t: Sched, w: int) {
    && |t.tasks| == |s.tasks| && t.current == s.current && (IsReady(s, w) ==> IsReady(t, w))
    && forall i :: 0 <= i < |s.tasks| ==>
         t.tasks[i].quantum == s.tasks[i].quantum && t.tasks[i].left == s.tasks[i].left && (t.tasks[i].state.Running? ==> s.tasks[i].state.Running?)
  }

  predicate RunsIn(s: Sched, w: int) { 0 <= w < |s.tasks| && s.current == w && s.tasks[w].state.Running? }

  /** Ticks until the next decision. */
  function Slice(s: Sched): nat { if GoesOn(s) then s.tasks[s.current].left else 1 }

  /** A bound on the ticks until waiting task w runs. */
  function Rank(s: Sched, w: int, q: nat): int { Pos(s.current, w, |s.tasks|) * q + Slice(s) }

  /** A decision runs w or brings the scan strictly closer to it. */
  lemma DecisionCloser(s: Sched, t: Sched, r: int, w: int, q: nat)
    requires Ok(s, q) && w > 0 && w != s.current && IsReady(s, w) && !GoesOn(s) && TickStep(s, t, r)
    ensures RunsIn(t, w) || (IsReady(t, w) && w != t.current && Pos(t.current, w, |t.tasks|) < Pos(s.current, w, |s.tasks|))
    ensures t.current != 0 || s.current == 0
  {
    assert IsReady(Counted(s), w);
  }

  lemma TickCloser(s: Sched, t: Sched, r: int, w: int, q: nat)
    requires Ok(s, q) && w > 0 && w != s.current && IsReady(s, w) && TickStep(s, t, r)
    ensures RunsIn(t, w) || (IsReady(t, w) && w != t.current && Rank(t, w, q) < Rank(s, w, q))
  {
    if GoesOn(s) {
      GoingOn(s, t, r, w);
    } else {
      DecisionCloser(s, t, r, w, q);
      TickOk(s, t, r, q);
      if t.current != w { Closer(s, t, w, q); }
    }
  }

  lemma GoingOn(s: Sched, t: Sched, r: int, w: int)
    requires GoesOn(s) && TickStep(s, t, r) && w != s.current && IsReady(s, w)
    ensures IsReady(t, w) && t.current == s.current && |t.tasks| == |s.tasks| && Slice(t) < Slice(s)
  {
  }

  /** A scan that is at least one task closer makes up for any slice. */
  lemma Closer(s: Sched, t: Sched, w: int, q: nat)
    requires Ok(t, q) && Pos(t.current, w, |t.tasks|) < Pos(s.current, w, |s.tasks|) && q > 0
    ensures Rank(t, w, q) < Rank(s, w, q)
  {
    hide Pos;
    var a, b := Pos(t.current, w, |t.tasks|), Pos(s.current, w, |s.tasks|);
    assert (a + 1) * q <= b * q by { Mul(a + 1, b, q); }
    assert (a + 1) * q == a * q + q;
    assert Slice(t) <= q;
  }

  lemma Mul(a: int, b: int, q: nat)
    ensures a <= b ==> a * q <= b * q
  {
    if a <= b { assert b * q == a * q + (b - a) * q; }
  }

  lemma BetweenRank(s: Sched, t: Sched, w: int, q: nat)
    requires Ok(s, q) && Between(s, t, w)
    ensures Ok(t, q) && Rank(t, w, q) <= Rank(s, w, q)
  {
  }

  ghost predicate Ticks(s: Sched, t: Sched) { exists r :: TickStep(s, t, r) }

  /** A run: before[k] is the state when tick k starts, after[k] the state it leaves; between ticks nobody blocks or kills w while it is ready. */
  ghost predicate Waits(before: seq<Sched>, after: seq<Sched>, w: int) {
    && |before| == |after|
    && (forall k :: 0 <= k < |before| ==> Ticks(before[k], after[k]))
    && (forall k :: 0 <= k < |before| - 1 ==> Between(after[k], before[k + 1], w))
  }

  /** Up to each tick of a run, w has run or its rank has gone down by one every tick. */
  lemma {:induction false} RankDown(before: seq<Sched>, after: seq<Sched>, w: int, q: nat, k: nat)
    requires Waits(before, after, w) && k < |before| && Ok(before[0], q) && w > 0 && w != before[0].current >= 0 && IsReady(before[0], w)
    ensures || (exists j :: 0 <= j <= k && RunsIn(after[j], w))
            || (Waiting(after[k], w, q) && |after[k].tasks| == |before[0].tasks| && Rank(after[k], w, q) + k + 1 <= Rank(before[0], w, q))
    decreases k
  {
    hide Rank, IsPick;
    if k > 0 { RankDown(before, after, w, q, k - 1); }
    if !exists j :: 0 <= j <= k && RunsIn(after[j], w) {
      if k > 0 {
        assert Between(after[k - 1], before[k - 1 + 1], w);
        BetweenRank(after[k - 1], before[k], w, q);
      }
      var r :| TickStep(before[k], after[k], r);
      TickCloser(before[k], after[k], r, w, q);
      TickOk(before[k], after[k], r, q);
    }
  }

  ghost predicate Waiting(s: Sched, w: int, q: nat) { Ok(s, q) && IsReady(s, w) && w != s.current >= 0 }

  /**
   Bounded waiting: whatever other tasks do, a task that stays ready runs within
   (n - 1) * q ticks, with n tasks and no quantum above q.
   */
  lemma BoundedWaiting(before: seq<Sched>, after: seq<Sched>, w: int, q: nat)
    requires Waits(before, after, w) && |before| > 0 && Waiting(before[0], w, q) && w > 0
    requires |before| >= (|before[0].tasks| - 1) * q
    ensures exists k :: 0 <= k < |before| && RunsIn(after[k], w)
  {
    RankDown(before, after, w, q, |before| - 1);
    RankBounds(before[0], w, q);
    RankPositive(after[|before| - 1], w, q);
  }

  /** A sleeper runs within the same bound after the tick at which it is to wake. */
  lemma SleeperRuns(s: Sched, now: nat, due: set<nat>, before: seq<Sched>, after: seq<Sched>, w: int, q: nat)
    requires Ok(s, q) && 0 < w < |s.tasks| && w != s.current >= 0 && s.tasks[w].state.Blocked? && 0 < s.tasks[w].wake <= now
    requires Waits(before, after, w) && |before| > 0 && before[0] == Woken(s, now, due) && |before| >= (|s.tasks| - 1) * q
    ensures exists k :: 0 <= k < |before| && RunsIn(after[k], w)
  {
    hide Waits, Waiting, Ok, Woken, IsReady;
    WokenWaits(s, now, due, w, q);
    BoundedWaiting(before, after, w, q);
  }

  lemma WokenWaits(s: Sched, now: nat, due: set<nat>, w: int, q: nat)
    requires Ok(s, q) && 0 < w < |s.tasks| && w != s.current >= 0 && s.tasks[w].state.Blocked? && 0 < s.tasks[w].wake <= now
    ensures Waiting(Woken(s, now, due), w, q) && |Woken(s, now, due).tasks| == |s.tasks|
  {
    WokenBetween(s, now, due, w);
    Cpu.WokenOk(s, now, due, q);
  }

  lemma RankPositive(s: Sched, w: int, q: nat)
    ensures Waiting(s, w, q) ==> Rank(s, w, q) >= 1
  {
    if Waiting(s, w, q) { RankBounds(s, w, q); }
  }

  lemma RankBounds(s: Sched, w: int, q: nat)
    requires Waiting(s, w, q)
    ensures 1 <= Rank(s, w, q) <= (|s.tasks| - 1) * q
  {
    var p := Pos(s.current, w, |s.tasks|);
    Mul(0, p, q);
    Mul(p + 1, |s.tasks| - 1, q);
    assert (p + 1) * q == p * q + q;
  }

  // ----- counted in decisions ---------------------------------------------------------------------------

  /** How many of the first k ticks of a run decided. */
  ghost function Decisions(before: seq<Sched>, k: nat): nat
    requires k <= |before|
  {
    if k == 0 then 0 else Decisions(before, k - 1) + (if GoesOn(before[k - 1]) then 0 else 1)
  }

  /** A tick that does not decide leaves w as far away as it was, one that does runs w or brings it closer. */
  lemma TickDecision(s: Sched, t: Sched, r: int, w: int, q: nat)
    requires Waiting(s, w, q) && w > 0 && TickStep(s, t, r)
    ensures |t.tasks| == |s.tasks|
    ensures RunsIn(t, w) || (Waiting(t, w, q) && Pos(t.current, w, |t.tasks|) + (if GoesOn(s) then 0 else 1) <= Pos(s.current, w, |s.tasks|))
  {
    TickOk(s, t, r, q);
    if !GoesOn(s) { DecisionCloser(s, t, r, w, q); }
  }

  lemma BetweenWaiting(s: Sched, t: Sched, w: int, q: nat)
    requires Waiting(s, w, q) && Between(s, t, w)
    ensures Waiting(t, w, q) && t.current == s.current && |t.tasks| == |s.tasks|
  {
  }

  lemma {:induction false} PosDown(before: seq<Sched>, after: seq<Sched>, w: int, q: nat, k: nat)
    requires Waits(before, after, w) && k < |before| && Waiting(before[0], w, q) && w > 0
    ensures || (exists j :: 0 <= j <= k && RunsIn(after[j], w))
            || (Waiting(after[k], w, q) && |after[k].tasks| == |before[0].tasks|
                && Pos(after[k].current, w, |after[k].tasks|) + Decisions(before, k + 1) <= Pos(before[0].current, w, |before[0].tasks|))
    decreases k
  {
    hide Pos, GoesOn, TickStep, Waiting, RunsIn, Between;
    if k > 0 { PosDown(before, after, w, q, k - 1); }
    if !exists j :: 0 <= j <= k && RunsIn(after[j], w) {
      if k > 0 {
        assert Between(after[k - 1], before[k - 1 + 1], w);
        BetweenWaiting(after[k - 1], before[k], w, q);
      }
      var r :| TickStep(before[k], after[k], r);
      TickDecision(before[k], after[k], r, w, q);
    }
  }

  /** The same bound in decisions: with n tasks, a task that stays ready is picked by the (n - 1)st decision at the latest. */
  lemma FewDecisions(before: seq<Sched>, after: seq<Sched>, w: int, q: nat)
    requires Waits(before, after, w) && |before| > 0 && Waiting(before[0], w, q) && w > 0
    requires Decisions(before, |before|) >= |before[0].tasks| - 1
    ensures exists k :: 0 <= k < |before| && RunsIn(after[k], w)
  {
    PosDown(before, after, w, q, |before| - 1);
  }

  // ----- losing the processor and getting it back -----------------------------------------------------------

  lemma {:induction false} OkAlong(before: seq<Sched>, after: seq<Sched>, w: int, q: nat, k: nat)
    requires Waits(before, after, w) && k < |before| && Ok(before[0], q)
    ensures Ok(before[k], q) && |before[k].tasks| == |before[0].tasks|
  {
    hide TickStep;
    if k > 0 {
      OkAlong(before, after, w, q, k - 1);
      var r :| TickStep(before[k - 1], after[k - 1], r);
      TickOk(before[k - 1], after[k - 1], r, q);
      assert Between(after[k - 1], before[k - 1 + 1], w);
      BetweenRank(after[k - 1], before[k], w, q);
    }
  }

  /** A task whose slice ends while it wants to go on has the processor again within (n - 1) * q ticks. */
  lemma RunsAgain(before: seq<Sched>, after: seq<Sched>, w: int, q: nat, i: nat)
    requires Waits(before, after, w) && w > 0 && i < |before| && Ok(before[0], q)
    requires RunsIn(before[i], w) && !RunsIn(after[i], w) && i + 1 + (|before[0].tasks| - 1) * q <= |before|
    ensures exists k :: i < k <= i + (|before[0].tasks| - 1) * q && RunsIn(after[k], w)
  {
    hide Waits, Ok, RunsIn;
    OkAlong(before, after, w, q, i);
    SomeWait(before[i], w, q);
    RunsAgainIn(before, after, w, q, i, (|before[0].tasks| - 1) * q);
  }

  lemma SomeWait(s: Sched, w: int, q: nat)
    requires Ok(s, q) && RunsIn(s, w) && w > 0
    ensures (|s.tasks| - 1) * q > 0
  {
    Mul(1, |s.tasks| - 1, q);
  }

  lemma RunsAgainIn(before: seq<Sched>, after: seq<Sched>, w: int, q: nat, i: nat, n: nat)
    requires Waits(before, after, w) && w > 0 && i < |before| && Ok(before[i], q) && RunsIn(before[i], w) && !RunsIn(after[i], w)
    requires n == (|before[i].tasks| - 1) * q && 0 < n && i + 1 + n <= |before|
    ensures exists k :: i < k <= i + n && RunsIn(after[k], w)
  {
    LosesToReady(before, after, w, q, i);
    SubRun(before, after, w, i + 1, i + 1 + n);
    hide Waits, Ok, RunsIn, Waiting;
    var b, a := before[i + 1..i + 1 + n], after[i + 1..i + 1 + n];
    assert b[0] == before[i + 1];
    BoundedWaiting(b, a, w, q);
    var k :| 0 <= k < |b| && RunsIn(a[k], w);
    assert a[k] == after[i + 1 + k];
  }

  lemma LosesToReady(before: seq<Sched>, after: seq<Sched>, w: int, q: nat, i: nat)
    requires Waits(before, after, w) && w > 0 && i + 1 < |before| && Ok(before[i], q) && RunsIn(before[i], w) && !RunsIn(after[i], w)
    ensures Waiting(before[i + 1], w, q) && |before[i + 1].tasks| == |before[i].tasks| && q > 0
  {
    hide IsPick;
    var r :| TickStep(before[i], after[i], r);
    TickOk(before[i], after[i], r, q);
    TickLosesNobody(before[i], after[i], r, q);
    assert Between(after[i], before[i + 1], w);
    BetweenRank(after[i], before[i + 1], w, q);
  }

  lemma SubRun(before: seq<Sched>, after: seq<Sched>, w: int, i: nat, j: nat)
    requires Waits(before, after, w) && i <= j <= |before|
    ensures |before| == |after| && Waits(before[i..j], after[i..j], w)
  {
    hide Ticks, Between;
    var b, a := before[i..j], after[i..j];
    forall k | 0 <= k < |b| ensures Ticks(b[k], a[k]) { assert b[k] == before[i + k] && a[k] == after[i + k]; }
    forall k | 0 <= k < |b| - 1 ensures Between(a[k], b[k + 1], w) {
      assert a[k] == after[i + k] && b[k + 1] == before[i + k + 1];
      assert Between(after[i + k], before[i + k + 1], w);
    }
  }

  /** Nothing between ticks changes the running task. */
  ghost predicate LeavesRunning(s: Sched, t: Sched, w: int) {
    |t.tasks| == |s.tasks| && t.current == s.current && 0 <= w < |s.tasks| && t.tasks[w] == s.tasks[w]
  }

  /** A task that does not block keeps the processor for its whole slice: tick by tick one less, to the last. */
  lemma {:induction false} FullSlice(before: seq<Sched>, after: seq<Sched>, w: int, q: nat, k: nat)
    requires |before| == |after| && (forall i :: 0 <= i < |before| ==> Ok(before[i], q) && Ticks(before[i], after[i]))
    requires forall i :: 0 <= i < |before| - 1 ==> LeavesRunning(after[i], before[i + 1], w)
    requires k < |before| && RunsIn(before[0], w) && k + 1 < before[0].tasks[w].left
    ensures RunsIn(after[k], w) && after[k].tasks[w].left == before[0].tasks[w].left - (k + 1)
    decreases k
  {
    hide TickStep, Ok;
    if k > 0 {
      FullSlice(before, after, w, q, k - 1);
      assert LeavesRunning(after[k - 1], before[k - 1 + 1], w);
    }
    var r :| TickStep(before[k], after[k], r);
    TickLosesNobody(before[k], after[k], r, q);
  }
}
