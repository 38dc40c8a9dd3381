/**
 The request queue of the block layer (kernel/blockdev.c): ring buffers for pending and
 completed requests, submission, the pump, and waiting for one's own request. Completion
 callbacks do not call back into the queue.
 */
module BlockQueue {
  import opened BlockCache

  /** A ring buffer: count elements of data from head on, wrapping around. */
  class Ring<T> {
    const data: array<T>
    var head: nat
    var tail: nat
    var count: nat

    ghost predicate Valid()
      reads this
    {
      && data.Length > 0 && head < data.Length && count <= data.Length
      && tail == Slot(head, count, data.Length)
    }

    ghost function Contents(): (s: seq<T>)
      requires Valid()
      reads this, data
      ensures |s| == count
    {
      seq(count, i requires 0 <= i < count && Valid() reads this, data => data[Slot(head, i, data.Length)])
    }

    constructor (depth: nat, blank: T)
      requires depth > 0
      ensures Valid() && fresh(data) && data.Length == depth && Contents() == []
    {
      data := new T[depth](i => blank);
      head, tail, count := 0, 0, 0;
    }

    /** Appends x unless the buffer is full. */
    method Push(x: T) returns (ok: bool)
      requires Valid()
      modifies this`tail, this`count, data
      ensures Valid() && ok == (old(count) < data.Length)
      ensures Contents() == if ok then old(Contents()) + [x] else old(Contents())
    {
      if count >= data.Length { return false; }
      WrapNext(head, count, data.Length);
      data[tail] := x;
      tail := (tail + 1) % data.Length;
      count := count + 1;
      return true;
    }

    /** Takes the oldest element unless the buffer is empty. */
    method Pop(blank: T) returns (ok: bool, x: T)
      requires Valid()
      modifies this`head, this`count
      ensures Valid() && ok == (old(count) > 0)
      ensures if ok then [x] + Contents() == old(Contents()) else Contents() == old(Contents())
    {
      if count == 0 { return false, blank; }
      ghost var s := Contents();
      x := data[head];
      WrapShift(head, count, data.Length);
      head := (head + 1) % data.Length;
      count := count - 1;
      forall i | 0 <= i < count ensures Contents()[i] == s[i + 1] { }
      assert s[0] == x;
      return true, x;
    }
  }

  /** Place i of a ring of n places that starts at head. */
  function Slot(head: nat, i: nat, n: nat): nat { if head + i < n then head + i else head + i - n }

  lemma ModNext(x: nat, n: nat)
    requires x < n
    ensures (x + 1) % n == if x + 1 < n then x + 1 else 0
  {
    if x + 1 == n { assert x + 1 == 1 * n; }
  }

  lemma WrapNext(head: nat, count: nat, n: nat)
    requires head < n && count < n
    ensures Slot(head, count, n) < n && (Slot(head, count, n) + 1) % n == Slot(head, count + 1, n)
    ensures forall i :: 0 <= i < count ==> Slot(head, i, n) != Slot(head, count, n)
  {
    ModNext(Slot(head, count, n), n);
  }

  lemma WrapShift(head: nat, count: nat, n: nat)
    requires head < n && 0 < count <= n
    ensures (head + 1) % n == Slot(head, 1, n) < n && Slot(Slot(head, 1, n), count - 1, n) == Slot(head, count, n)
    ensures forall i :: 0 <= i < count - 1 ==> Slot(Slot(head, 1, n), i, n) == Slot(head, i + 1, n)
  {
    ModNext(head, n);
  }

  datatype Op = ReadOp | WriteOp | FlushOp | OtherOp

  /** A request; tag tells whose completion it is. */
  datatype Req = Req(op: Op, dev: nat, lba: nat, count: nat, tag: nat)

  datatype Done = Done(req: Req, status: int)

  /** blockdev_validate_request, for a request that has a buffer. */
  function Validate(devs: seq<Device>, q: Req): int {
    if q.dev >= |devs| then -2
    else
      var d := devs[q.dev];
      if q.op.FlushOp? then 0
      else if q.count == 0 then -3
      else if q.lba >= d.blockCount then -4
      else if d.blockCount - q.lba < q.count then -5
      else if q.op.ReadOp? then (if !d.canRead then -6 else 0)
      else if q.op.WriteOp? then (if !d.canWrite then -6 else if d.readonly then -7 else 0)
      else -8
  }

  /** A request for blocks that the device has. */
  ghost predicate InBounds(devs: seq<Device>, q: Req) {
    q.dev < |devs| && !q.op.FlushOp? && 0 < q.count && q.lba + q.count <= devs[q.dev].blockCount
  }

  /** A request that the block layer itself would not refuse. */
  ghost predicate Executable(devs: seq<Device>, q: Req) {
    match q.op
    case ReadOp => CanRead(devs, q.dev, q.lba, q.count)
    case WriteOp => CanWrite(devs, q.dev, q.lba, q.count)
    case FlushOp => q.dev < |devs|
    case OtherOp => false
  }

  function Reqs(ds: seq<Done>): seq<Req> { seq(|ds|, i requires 0 <= i < |ds| => ds[i].req) }

  /** The waiters' words after some completions. */
  function Notified(w: map<nat, int>, ds: seq<Done>): map<nat, int> {
    if ds == [] then w else Notified(w, ds[..|ds| - 1])[ds[|ds| - 1].req.tag := ds[|ds| - 1].status]
  }

  lemma NotifiedNext(w: map<nat, int>, ds: seq<Done>, d: Done)
    ensures Notified(w, ds + [d]) == Notified(w, ds)[d.req.tag := d.status]
  {
    assert (ds + [d])[..|ds|] == ds;
  }

  class Queue {
    const devs: seq<Device>
    const pending: Ring<Req>
    const completed: Ring<Done>
    var inflight: nat
    var asyncPending: nat
    /** The waiters' words: a completion writes its status under the tag of its request. */
    var waiters: map<nat, int>
    /** Accepted requests, executions, and completion callbacks, each in order. */
    ghost var accepted: seq<Req>
    ghost var executed: seq<Done>
    ghost var delivered: seq<Done>

    ghost function Footprint(): set<object>
      reads this
    {
      {this, pending, completed, pending.data, completed.data}
    }

    ghost predicate Shape()
      reads this, pending, completed
    {
      && pending.Valid() && completed.Valid()
      && (pending.data as object) != completed.data && (pending as object) != this && (completed as object) != this &&
        (pending as object) != completed
    }

    /** Between calls: nothing is half done, and the requests accepted are those delivered and those pending. */
    ghost predicate Valid()
      reads this, pending, completed, pending.data, completed.data
    {
      && Shape() && completed.count == 0 && inflight == 0
      && executed == delivered && accepted == Reqs(delivered) + pending.Contents()
      && asyncPending == |accepted| - |delivered|
    }

    constructor (devs: seq<Device>, depth: nat)
      requires depth > 0
      ensures Valid() && this.devs == devs && accepted == []
      ensures fresh(Footprint())
    {
      this.devs := devs;
      var q := Req(OtherOp, 0, 0, 0, 0);
      var p := new Ring<Req>(depth, q);
      var c := new Ring<Done>(depth, Done(q, 0));
      pending, completed := p, c;
      inflight, asyncPending, waiters := 0, 0, map[];
      accepted, executed, delivered := [], [], [];
    }

    /** blockdev_submit_async. */
    method Submit(q: Req) returns (rc: int)
      requires Valid()
      modifies this`asyncPending, this`accepted, pending`tail, pending`count, pending.data
      ensures Valid()
      ensures rc == -2 <==> q.dev >= |devs|
      ensures rc == -3 <==> q.dev < |devs| && !q.op.FlushOp? && q.count == 0
      ensures rc == -4 <==> q.dev < |devs| && !q.op.FlushOp? && q.count > 0 && devs[q.dev].blockCount <= q.lba
      ensures rc == -5 <==> q.dev < |devs| && !q.op.FlushOp? && q.lba < devs[q.dev].blockCount < q.lba + q.count
      ensures rc == -6 <==> InBounds(devs, q) && ((q.op.ReadOp? && !devs[q.dev].canRead) || (q.op.WriteOp? && !devs[q.dev].canWrite))
      ensures rc == -7 <==> InBounds(devs, q) && q.op.WriteOp? && devs[q.dev].canWrite && devs[q.dev].readonly
      ensures rc == -8 <==> InBounds(devs, q) && q.op.OtherOp?
      ensures rc == -9 <==> Executable(devs, q) && old(pending.count) >= pending.data.Length
      ensures rc == 0 <==> Executable(devs, q) && old(pending.count) < pending.data.Length
      ensures accepted == (if rc == 0 then old(accepted) + [q] else old(accepted))
      ensures pending.Contents() == (if rc == 0 then old(pending.Contents()) + [q] else old(pending.Contents()))
    {
      rc := Validate(devs, q);
      if rc < 0 { return; }
      var ok := pending.Push(q);
      if !ok { return -9; }
      asyncPending := pending.count + completed.count + inflight;
      accepted := accepted + [q];
      return 0;
    }

    /** Reads, writes and flushes end with some status. */
    method Execute(q: Req) returns (status: int)
      modifies this`executed
      ensures executed == old(executed) + [Done(q, status)]
    {
      status := *;
      executed := executed + [Done(q, status)];
    }

    /** One round of blockdev_pump: the oldest pending request is executed and its completion delivered. */
    method PumpOne() returns (ok: bool)
      requires Valid()
      modifies this`inflight, this`asyncPending, this`waiters, this`executed, this`delivered
      modifies pending`head, pending`count, completed`head, completed`tail, completed`count, completed.data
      ensures Valid() && ok == (old(pending.count) > 0) && accepted == old(accepted)
      ensures !ok ==> delivered == old(delivered) && pending.Contents() == old(pending.Contents())
      ensures ok ==> |delivered| == |old(delivered)| + 1 && delivered[..|old(delivered)|] == old(delivered)
      ensures ok ==> [delivered[|old(delivered)|].req] + pending.Contents() == old(pending.Contents())
      ensures waiters == if ok then old(waiters)[delivered[|old(delivered)|].req.tag := delivered[|old(delivered)|].status] else old(waiters)
    {
      ghost var p0, d0 := pending.Contents(), delivered;
      var q;
      ok, q := pending.Pop(Req(OtherOp, 0, 0, 0, 0));
      if !ok { return; }
      Finish(q);
      assert delivered == d0 + [Done(q, delivered[|d0|].status)];
      Delivered(d0, delivered[|d0|], p0, pending.Contents());
    }

    static lemma Delivered(d0: seq<Done>, e: Done, p0: seq<Req>, p: seq<Req>)
      requires [e.req] + p == p0
      ensures Reqs(d0) + p0 == Reqs(d0 + [e]) + p
    {
      assert Reqs(d0 + [e]) == Reqs(d0) + [e.req];
    }

    /** Executes a request taken from the queue and delivers its completion. */
    method Finish(q: Req)
      requires Shape() && completed.count == 0
      modifies this`inflight, this`asyncPending, this`waiters, this`executed, this`delivered
      modifies completed`head, completed`tail, completed`count, completed.data
      ensures Shape() && completed.count == 0 && inflight == 0 && asyncPending == pending.count
      ensures exists status ::
        && executed == old(executed) + [Done(q, status)] && delivered == old(delivered) + [Done(q, status)]
        && waiters == old(waiters)[q.tag := status]
    {
      inflight := 1;
      asyncPending := pending.count + completed.count + inflight;
      var status := Execute(q);
      inflight := 0;
      asyncPending := pending.count + completed.count + inflight;
      ghost var d0 := delivered;
      ghost var done := [Done(q, status)];
      assert completed.Contents() == [];
      var pushed := completed.Push(Done(q, status));
      assert completed.Contents() == [] + done == done;
      Dispatch();
      LastOf(delivered, d0, completed.Contents(), Done(q, status));
    }

    static lemma LastOf(d: seq<Done>, d0: seq<Done>, rest: seq<Done>, e: Done)
      requires |d| == |d0| + 1 && d[..|d0|] == d0 && [d[|d0|]] + rest == [e]
      ensures d == d0 + [e] && d[|d0|] == e && rest == []
    {
      assert ([d[|d0|]] + rest)[0] == d[|d0|];
      assert |[d[|d0|]] + rest| == 1 + |rest|;
    }

    /** blockdev_dispatch_completions(1): the callback of the oldest completion. */
    method Dispatch()
      requires Shape()
      modifies this`asyncPending, this`waiters, this`delivered, completed`head, completed`count
      ensures Shape()
      ensures
        if old(completed.count) == 0 then
          && delivered == old(delivered) && completed.Contents() == old(completed.Contents())
          && asyncPending == old(asyncPending) && waiters == old(waiters)
        else
          && |delivered| == |old(delivered)| + 1 && delivered[..|old(delivered)|] == old(delivered)
          && [delivered[|old(delivered)|]] + completed.Contents() == old(completed.Contents())
          && asyncPending == pending.count + completed.count + inflight
          && waiters == old(waiters)[delivered[|old(delivered)|].req.tag := delivered[|old(delivered)|].status]
    {
      var ok, e := completed.Pop(Done(Req(OtherOp, 0, 0, 0, 0), 0));
      if !ok { return; }
      asyncPending := pending.count + completed.count + inflight;
      waiters := waiters[e.req.tag := e.status];
      delivered := delivered + [e];
    }

    /** blockdev_pump: up to `budget` requests, in order. */
    method Pump(budget: nat)
      requires Valid()
      modifies this`inflight, this`asyncPending, this`waiters, this`executed, this`delivered
      modifies pending`head, pending`count, completed`head, completed`tail, completed`count, completed.data
      ensures Valid() && accepted == old(accepted)
      ensures var n := if budget == 0 then 1 else budget;
        |delivered| == |old(delivered)| + (if old(pending.count) < n then old(pending.count) else n) &&
          delivered[..|old(delivered)|] == old(delivered)
      ensures |delivered| >= |old(delivered)| && waiters == Notified(old(waiters), delivered[|old(delivered)|..])
    {
      var n := if budget == 0 then 1 else budget;
      Dispatch();
      ghost var d0, c0 := delivered, pending.count;
      for i := 0 to n
        invariant Valid() && accepted == old(accepted) && i <= c0 && pending.count == c0 - i
        invariant |delivered| == |d0| + i && delivered[..|d0|] == d0 && waiters == Notified(old(waiters), delivered[|d0|..])
      {
        ghost var d := delivered;
        var ok := PumpOne();
        if !ok { break; }
        assert delivered == d + [delivered[|d|]] && delivered[..|d0|] == d[..|d0|];
        assert delivered[|d0|..] == d[|d0|..] + [delivered[|d|]];
        NotifiedNext(old(waiters), d[|d0|..], delivered[|d|]);
      }
    }

    lemma Account()
      requires Valid()
      ensures |accepted| == |delivered| + pending.count && forall i :: 0 <= i < |delivered| ==> accepted[i] == delivered[i].req
    {
      forall i | 0 <= i < |delivered| ensures accepted[i] == delivered[i].req { assert Reqs(delivered)[i] == delivered[i].req; }
    }

    method ClearWaiter(tag: nat)
      requires Valid()
      modifies this`waiters
      ensures Valid() && waiters == old(waiters) - {tag}
    {
      waiters := waiters - {tag};
    }

    /**
     blockdev_submit_and_wait: it ends, with the status with which its own request was executed.
     The waiter's words are its own, so no pending request has the same tag.
     */
    method SubmitAndWait(q: Req) returns (rc: int)
      requires Valid() && forall i :: |delivered| <= i < |accepted| ==> accepted[i].tag != q.tag
      modifies this`inflight, this`asyncPending, this`waiters, this`accepted, this`executed, this`delivered
      modifies pending`head, pending`tail, pending`count, pending.data, completed`head, completed`tail, completed`count, completed.data
      ensures Valid()
      ensures !Executable(devs, q) ==> -8 <= rc <= -2 && rc == Validate(devs, q) && accepted == old(accepted)
      ensures Executable(devs, q) && old(pending.count) == pending.data.Length ==> rc == -9 && accepted == old(accepted)
      ensures Executable(devs, q) && old(pending.count) < pending.data.Length ==>
        && accepted == old(accepted) + [q] && |delivered| == |accepted| && delivered[|delivered| - 1] == Done(q, rc)
    {
      hide Valid, Shape;
      Account();
      ghost var a0, n0 := accepted, |delivered|;
      ClearWaiter(q.tag);
      rc := Submit(q);
      if rc < 0 { return; }
      Account();
      rc := Await(q, n0, a0);
      Account();
    }

    /** Pumps until the waiter's word is there. */
    method Await(q: Req, ghost n0: nat, ghost a0: seq<Req>) returns (rc: int)
      requires Valid() && n0 == |delivered| <= |a0| && accepted == a0 + [q] && q.tag !in waiters
      requires forall i :: n0 <= i < |a0| ==> a0[i].tag != q.tag
      modifies this`inflight, this`asyncPending, this`waiters, this`executed, this`delivered
      modifies pending`head, pending`count, completed`head, completed`tail, completed`count, completed.data
      ensures Valid() && accepted == a0 + [q] && |delivered| == |a0| + 1 && delivered[|a0|] == Done(q, rc)
    {
      hide Valid, Shape;
      while q.tag !in waiters
        invariant Valid() && accepted == a0 + [q] && n0 <= |delivered| <= |a0| + 1
        invariant q.tag in waiters <==> |delivered| == |a0| + 1
        invariant |delivered| == |a0| + 1 ==> delivered[|a0|] == Done(q, waiters[q.tag])
        decreases |a0| + 1 - |delivered|
      {
        ghost var w, d := waiters, |delivered|;
        Account();
        Pump(1);
        Account();
        ghost var last := delivered[d];
        assert delivered[d..] == [] + [last];
        NotifiedNext(w, [], last);
        assert accepted[d] == last.req;
      }
      rc := waiters[q.tag];
    }
  }
}
