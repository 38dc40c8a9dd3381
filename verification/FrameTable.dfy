/**
 The physical frame allocator (kernel/pmm.c) as values: a bitmap, 16-bit reference counts
 and a counter of free frames, with the effect of each allocator call.
 */
module FrameTable {

  /** pmm_frame_ref stops counting here (kernel/pmm.c:177). */
  const REF_MAX: nat := 0xFFFF

  datatype Frames = Frames(used: seq<bool>, refs: seq<nat>, free: nat)

  function CountFalse(bits: seq<bool>): nat {
    if bits == [] then 0 else CountFalse(bits[..|bits|-1]) + (if bits[|bits|-1] then 0 else 1)
  }

  function CountNonZero(ns: seq<nat>): nat {
    if ns == [] then 0 else CountNonZero(ns[..|ns|-1]) + (if ns[|ns|-1] == 0 then 0 else 1)
  }

  /** The allocator's own consistency: the bit, the count and the counter agree. */
  ghost predicate FramesOk(p: Frames) {
    && |p.used| == |p.refs|
    && p.free == CountFalse(p.used)
    && (forall f :: 0 <= f < |p.used| ==> (p.used[f] <==> p.refs[f] > 0))
  }

  function AllocAt(p: Frames, f: nat): Frames
    requires f < |p.used| == |p.refs|
  {
    Frames(p.used[f := true], p.refs[f := 1], if p.free > 0 then p.free - 1 else 0)
  }

  function FreeAt(p: Frames, f: nat): Frames
    requires |p.used| == |p.refs|
  {
    if f < |p.used| && p.used[f]
    then Frames(p.used[f := false], p.refs[f := 0], p.free + 1)
    else p
  }

  function RefAt(p: Frames, f: nat): Frames
    requires |p.used| == |p.refs|
  {
    if f < |p.used| && p.used[f] && p.refs[f] != REF_MAX then p.(refs := p.refs[f := p.refs[f] + 1]) else p
  }

  function UnrefAt(p: Frames, f: nat): Frames
    requires |p.used| == |p.refs|
  {
    if f < |p.used| && p.used[f] then
      if p.refs[f] > 1 then p.(refs := p.refs[f := p.refs[f] - 1]) else FreeAt(p, f)
    else p
  }

  lemma {:induction false} CountFalseUpdate(bits: seq<bool>, i: nat, b: bool)
    requires i < |bits|
    ensures CountFalse(bits[i := b]) == CountFalse(bits) + (if bits[i] then 1 else 0) - (if b then 1 else 0)
  {
    var n := |bits| - 1;
    if i == n {
      assert bits[i := b][..n] == bits[..n];
    } else {
      assert bits[i := b][..n] == bits[..n][i := b];
      CountFalseUpdate(bits[..n], i, b);
    }
  }

  lemma {:induction false} CountNonZeroUpdate(ns: seq<nat>, i: nat, v: nat)
    requires i < |ns|
    ensures CountNonZero(ns[i := v]) ==
            CountNonZero(ns) - (if ns[i] == 0 then 0 else 1) + (if v == 0 then 0 else 1)
  {
    var n := |ns| - 1;
    if i == n {
      assert ns[i := v][..n] == ns[..n];
    } else {
      assert ns[i := v][..n] == ns[..n][i := v];
      CountNonZeroUpdate(ns[..n], i, v);
    }
  }

  lemma {:induction false} CountFalsePositive(bits: seq<bool>)
    ensures CountFalse(bits) > 0 <==> exists i :: 0 <= i < |bits| && !bits[i]
  {
    if bits != [] {
      var n := |bits| - 1;
      CountFalsePositive(bits[..n]);
      if CountFalse(bits) > 0 {
        if !bits[n] {
        } else {
          var i :| 0 <= i < n && !bits[..n][i];
          assert !bits[i];
        }
      }
      if exists i :: 0 <= i < |bits| && !bits[i] {
        var i :| 0 <= i < |bits| && !bits[i];
        if i < n { assert !bits[..n][i]; }
      }
    }
  }

  /** No allocator call can break the agreement of bit, count and counter. */
  lemma CallsKeepFramesOk(p: Frames, f: nat)
    requires FramesOk(p)
    ensures f < |p.used| && !p.used[f] ==> FramesOk(AllocAt(p, f)) && p.free > 0
    ensures FramesOk(FreeAt(p, f)) && FramesOk(RefAt(p, f)) && FramesOk(UnrefAt(p, f))
  {
    if f < |p.used| {
      CountFalseUpdate(p.used, f, true);
      CountFalseUpdate(p.used, f, false);
      CountFalsePositive(p.used);
    }
  }

  /** Two consistent allocators with equal counts are equal: the counts determine everything. */
  lemma CountsDetermine(p: Frames, q: Frames)
    requires FramesOk(p) && FramesOk(q) && p.refs == q.refs
    ensures p == q
  {
    assert p.used == q.used;
  }
}
