/**
 The mmap regions of a task (kernel/task.c) as a partial map from addresses to what backs them:
 the gap search, mapping, and unmapping with front trim, tail trim and split.
 */
module MmapRegions {
  const PAGE: nat := 4096
  const U32: nat := 0x1_0000_0000

  predicate Aligned(x: nat) { x % PAGE == 0 }
  function Down(x: nat): (r: nat)
    ensures r <= x < r + PAGE && Aligned(r)
  {
    x / PAGE * PAGE
  }
  /** page_align_up on 32 bits. */
  function Up(x: nat): nat { Down((x + PAGE - 1) % U32) }

  lemma UpAligned(x: nat)
    requires x < U32
    ensures Aligned(x) ==> Up(x) == x
    ensures x <= U32 - PAGE ==> x <= Up(x) < x + PAGE
    ensures x > U32 - PAGE ==> Up(x) == 0
  {
  }

  /** Rounding to pages of 4096 bytes, upwards in 32 bits. */
  lemma Rounding(x: nat)
    requires x < 0x1_0000_0000
    ensures Down(x) == x - x % 4096
    ensures Up(x) == if x > 0xFFFF_F000 then 0 else if x % 4096 == 0 then x else x - x % 4096 + 4096
  {
  }

  /** What a region maps to; the object is a file node or a shared-memory id. */
  datatype Kind = Anon | File(node: nat) | Shm(id: nat)

  datatype Region = Region(start: nat, end: nat, prot: nat, flags: nat, kind: Kind, offset: nat)

  datatype Slot = Free | Used(r: Region)

  type Table = seq<Slot>

  /** What is behind one address: protection, flags, object, and the position in the object. */
  datatype Info = Info(prot: nat, flags: nat, kind: Kind, offset: nat)

  function InfoAt(r: Region, v: nat): Info
    requires r.start <= v
  {
    Info(r.prot, r.flags, r.kind, (r.offset + (v - r.start)) % U32)
  }

  predicate Covers(s: Slot, v: nat) { s.Used? && s.r.start <= v < s.r.end }

  ghost predicate Maps(t: Table, v: nat, info: Info) {
    exists i :: 0 <= i < |t| && Covers(t[i], v) && InfoAt(t[i].r, v) == info
  }

  /** The lengths and the place of a region. */
  predicate RegionOk(r: Region, base: nat, limit: nat) {
    base <= r.start < r.end <= limit && Aligned(r.start) && Aligned(r.end)
  }

  predicate Meets(s: Slot, lo: nat, hi: nat) { s.Used? && s.r.start < hi && lo < s.r.end }

  /** Regions are page-aligned, inside [base, limit), and disjoint. */
  ghost predicate TableOk(t: Table, base: nat, limit: nat) {
    && (forall i :: 0 <= i < |t| && t[i].Used? ==> RegionOk(t[i].r, base, limit))
    && (forall i, j :: 0 <= i < j < |t| && t[j].Used? ==> !Meets(t[i], t[j].r.start, t[j].r.end))
  }

  /** The map is a function: an address has at most one backing. */
  lemma MapsOnce(t: Table, base: nat, limit: nat, v: nat, a: Info, b: Info)
    requires TableOk(t, base, limit) && Maps(t, v, a) && Maps(t, v, b)
    ensures a == b
  {
    var i :| 0 <= i < |t| && Covers(t[i], v) && InfoAt(t[i].r, v) == a;
    var j :| 0 <= j < |t| && Covers(t[j], v) && InfoAt(t[j].r, v) == b;
  }

  /** No address in [lo, hi) is mapped. */
  ghost predicate Clear(t: Table, lo: nat, hi: nat) { forall i :: 0 <= i < |t| ==> !Meets(t[i], lo, hi) }

  // ----- unmapping, slot by slot --------------------------------------------------------------------

  function Max(a: nat, b: nat): nat { if a < b then b else a }
  function Min(a: nat, b: nat): nat { if a < b then a else b }

  /** A region around [lo, hi) on both sides has to be split. */
  predicate Splits(s: Slot, lo: nat, hi: nat) { s.Used? && s.r.start < lo && hi < s.r.end }

  /** What is left of a slot; of a region to be split, the lower part. */
  function Trim(s: Slot, lo: nat, hi: nat): Slot {
    if !Meets(s, lo, hi) then s
    else if lo <= s.r.start && s.r.end <= hi then Free
    else if lo <= s.r.start then Used(s.r.(start := hi, offset := (s.r.offset + (hi - s.r.start)) % U32))
    else Used(s.r.(end := lo))
  }

  function Upper(s: Slot, lo: nat, hi: nat): Slot
    requires Splits(s, lo, hi)
  {
    Used(s.r.(start := hi, offset := (s.r.offset + (hi - s.r.start)) % U32))
  }

  /** The table once slots below i are done; the upper half of split region s is in slot u. */
  ghost predicate Progress(t0: Table, t: Table, lo: nat, hi: nat, i: nat, split: bool, s: nat, u: nat) {
    && |t| == |t0| && i <= |t0|
    && (split ==> s < i && Splits(t0[s], lo, hi) && u < |t0| && t0[u].Free?)
    && forall j :: 0 <= j < |t0| ==>
         t[j] == if split && j == u && s < |t0| && Splits(t0[s], lo, hi) then Upper(t0[s], lo, hi) else if j < i then Trim(t0[j], lo, hi) else t0[j]
  }

  /** Only one region can be split: it contains the whole range. */
  lemma OneSplit(t: Table, base: nat, limit: nat, lo: nat, hi: nat, s: nat, j: nat)
    requires TableOk(t, base, limit) && lo < hi && s < |t| && j < |t| && Splits(t[s], lo, hi) && j != s
    ensures !Meets(t[j], lo, hi)
  {
    if j < s { assert !Meets(t[j], t[s].r.start, t[s].r.end); }
    else if t[j].Used? { assert !Meets(t[s], t[j].r.start, t[j].r.end); }
  }

  /** The parts of one slot: together they cover what the slot covered outside the range, with the same backing. */
  lemma TrimCovers(s: Slot, lo: nat, hi: nat, v: nat)
    requires lo < hi && (s.Used? ==> s.r.start < s.r.end)
    ensures Covers(Trim(s, lo, hi), v) ==> Covers(s, v) && !(lo <= v < hi) && InfoAt(Trim(s, lo, hi).r, v) == InfoAt(s.r, v)
    ensures Covers(s, v) && !(lo <= v < hi) && !Splits(s, lo, hi) ==> Covers(Trim(s, lo, hi), v)
    ensures Splits(s, lo, hi) && Covers(Upper(s, lo, hi), v) ==> Covers(s, v) && v >= hi && InfoAt(Upper(s, lo, hi).r, v) == InfoAt(s.r, v)
    ensures Splits(s, lo, hi) && Covers(s, v) && !(lo <= v < hi) ==> Covers(Trim(s, lo, hi), v) || Covers(Upper(s, lo, hi), v)
  {
    if s.Used? && Covers(s, v) && v >= hi && hi >= s.r.start {
      OffsetSum(s.r.offset, hi - s.r.start, v - hi);
    }
  }

  lemma OffsetSum(a: nat, b: nat, c: nat)
    ensures ((a + b) % U32 + c) % U32 == (a + (b + c)) % U32
  {
  }

  /** The final table maps exactly what was mapped outside the range, each address to what it was. */
  lemma CutMaps(t0: Table, t: Table, base: nat, limit: nat, lo: nat, hi: nat, split: bool, s: nat, u: nat, v: nat, info: Info)
    requires TableOk(t0, base, limit) && lo < hi && Progress(t0, t, lo, hi, |t0|, split, s, u)
    requires !split ==> forall j :: 0 <= j < |t0| ==> !Splits(t0[j], lo, hi)
    ensures Maps(t, v, info) <==> Maps(t0, v, info) && !(lo <= v < hi)
  {
    if Maps(t, v, info) {
      var j :| 0 <= j < |t| && Covers(t[j], v) && InfoAt(t[j].r, v) == info;
      var o := if split && j == u then s else j;
      TrimCovers(t0[o], lo, hi, v);
      assert Covers(t0[o], v);
    }
    if Maps(t0, v, info) && !(lo <= v < hi) {
      var j :| 0 <= j < |t0| && Covers(t0[j], v) && InfoAt(t0[j].r, v) == info;
      TrimCovers(t0[j], lo, hi, v);
      if Splits(t0[j], lo, hi) {
        if split && j != s { OneSplit(t0, base, limit, lo, hi, s, j); }
        assert Covers(t[j], v) || Covers(t[u], v);
      } else {
        assert Covers(t[j], v);
      }
    }
  }

  lemma TrimOk(s: Slot, base: nat, limit: nat, lo: nat, hi: nat)
    requires lo < hi && Aligned(lo) && Aligned(hi) && (s.Used? ==> RegionOk(s.r, base, limit))
    ensures var t := Trim(s, lo, hi); t.Used? ==> RegionOk(t.r, base, limit) && s.Used? && s.r.start <= t.r.start && t.r.end <= s.r.end
    ensures Splits(s, lo, hi) ==> RegionOk(Upper(s, lo, hi).r, base, limit) && Trim(s, lo, hi) == Used(s.r.(end := lo))
  {
  }

  lemma CutOk(t0: Table, t: Table, base: nat, limit: nat, lo: nat, hi: nat, split: bool, s: nat, u: nat)
    requires TableOk(t0, base, limit) && lo < hi && Aligned(lo) && Aligned(hi) && Progress(t0, t, lo, hi, |t0|, split, s, u)
    ensures TableOk(t, base, limit)
  {
    forall i | 0 <= i < |t| && t[i].Used? ensures RegionOk(t[i].r, base, limit) {
      TrimOk(t0[if split && i == u then s else i], base, limit, lo, hi);
    }
    forall i, j | 0 <= i < j < |t| && t[j].Used? ensures !Meets(t[i], t[j].r.start, t[j].r.end) {
      var a, b := if split && i == u then s else i, if split && j == u then s else j;
      TrimOk(t0[a], base, limit, lo, hi);
      TrimOk(t0[b], base, limit, lo, hi);
      if a < b { assert !Meets(t0[a], t0[b].r.start, t0[b].r.end); }
      if b < a && t0[a].Used? { assert !Meets(t0[b], t0[a].r.start, t0[a].r.end); }
    }
  }

  // ----- the calls ------------------------------------------------------------------------------------

  const BASE: nat := 0x9000_0000
  const LIMIT: nat := 0xB000_0000

  /** There is room for `length` bytes at a. */
  ghost predicate Fits(t: Table, a: nat, length: nat) { 0x9000_0000 <= a && a + length <= 0xB000_0000 && Clear(t, a, a + length) }

  /** Some address is backed. */
  ghost predicate Mapped(t: Table, v: nat) { exists i :: 0 <= i < |t| && Covers(t[i], v) }

  /** Some call to unmap pages included the address. */
  ghost predicate InCut(cut: seq<(nat, nat)>, v: nat) { exists k :: 0 <= k < |cut| && cut[k].0 <= v < cut[k].0 + cut[k].1 }

  /** The arguments of mmap, with what its descriptor or shared-memory id resolves to. */
  datatype Request = Request(addr: nat, length: nat, prot: nat, flags: nat, fixed: bool, priv: bool, shared: bool, anon: bool, shm: bool,
                             offset: nat, file: Resolved, segment: Resolved)

  /** A file that can be opened, a live object of some size, or neither. */
  datatype Resolved = Missing | Found(id: nat, size: nat)

  /**
   The request names something that can be mapped: a live shared-memory segment, shared and from a
   page boundary, that has the bytes; a file, from a page boundary; or nothing at all.
   */
  ghost predicate Backable(q: Request, length: nat) {
    && (q.shm ==> !q.anon && q.shared && q.offset % 4096 == 0 && q.segment.Found? && q.offset < q.segment.size && q.offset + length <= q.segment.size)
    && (!q.shm && !q.anon ==> q.offset % 4096 == 0 && q.file.Found?)
  }

  /** What is behind the addresses of the new region. */
  ghost predicate BackedBy(q: Request, kind: Kind) {
    && (q.shm ==> q.segment.Found? && kind == Shm(q.segment.id))
    && (!q.shm && !q.anon ==> q.file.Found? && kind == File(q.file.id))
    && (!q.shm && q.anon ==> kind == Anon)
  }

  class Mmap {
    var regs: Table

    ghost predicate Valid()
      reads this
    {
      TableOk(regs, BASE, LIMIT)
    }

    constructor (n: nat)
      ensures Valid() && |regs| == n && Clear(regs, BASE, LIMIT)
    {
      regs := seq(n, i => Free);
    }

    /** task_mmap_alloc_slot: the first free slot. */
    method AllocSlot() returns (ok: bool, i: nat)
      ensures ok ==> i < |regs| && regs[i].Free? && forall j :: 0 <= j < i ==> regs[j].Used?
      ensures !ok ==> forall j :: 0 <= j < |regs| ==> regs[j].Used?
    {
      i := 0;
      while i < |regs|
        invariant i <= |regs| && forall j :: 0 <= j < i ==> regs[j].Used?
      {
        if regs[i].Free? { return true, i; }
        i := i + 1;
      }
      return false, 0;
    }

    /** The first region that meets [lo, hi). */
    method FirstMeeting(lo: nat, hi: nat) returns (found: bool, i: nat)
      ensures found ==> i < |regs| && Meets(regs[i], lo, hi)
      ensures !found <==> Clear(regs, lo, hi)
    {
      i := 0;
      while i < |regs|
        invariant i <= |regs| && forall j :: 0 <= j < i ==> !Meets(regs[j], lo, hi)
      {
        if regs[i].Used? && !(hi <= regs[i].r.start || lo >= regs[i].r.end) { return true, i; }
        i := i + 1;
      }
      return false, 0;
    }

    /** task_mmap_find_gap: the lowest address with room for `length` bytes; it fails only if there is none. */
    method FindGap(length: nat) returns (ok: bool, addr: nat)
      requires Valid() && 0 < length < U32
      ensures ok ==> Aligned(addr) && Fits(regs, addr, length)
      ensures forall a: nat :: !ok || a < addr ==> !Fits(regs, a, length)
    {
      var cur := BASE;
      while true
        invariant BASE <= cur <= LIMIT && Aligned(cur)
        invariant forall a: nat :: a < cur ==> !Fits(regs, a, length)
        decreases LIMIT - cur
      {
        var end := (cur + length) % U32;
        if end < cur || end > LIMIT {
          forall a: nat | a >= cur ensures !Fits(regs, a, length) { }
          return false, 0;
        }
        var found, i := FirstMeeting(cur, end);
        if !found { return true, cur; }
        assert RegionOk(regs[i].r, BASE, LIMIT);
        UpAligned(regs[i].r.end);
        forall a: nat | cur <= a < regs[i].r.end ensures !Fits(regs, a, length) {
          assert Meets(regs[i], a, a + length);
        }
        cur := Up(regs[i].r.end);
      }
    }

    /** Where a mapping can go: at the page asked for, or at the lowest gap. */
    method Place(addr: nat, length: nat) returns (ok: bool, start: nat)
      requires Valid() && 0 < length < U32 && Aligned(length) && addr < U32
      ensures ok ==> Aligned(start) && Fits(regs, start, length)
      ensures addr != 0 ==> (ok <==> Fits(regs, Down(addr), length)) && (ok ==> start == Down(addr))
      ensures addr == 0 ==> forall a: nat :: !ok || a < start ==> !Fits(regs, a, length)
    {
      if addr == 0 {
        ok, start := FindGap(length);
        return;
      }
      start := Down(addr);
      if start < BASE { return false, 0; }
      var end := (start + length) % U32;
      if end < start || end > LIMIT { return false, 0; }
      var found, i := FirstMeeting(start, end);
      return !found, start;
    }

    /** The checks on what is to be mapped, and the kind of mapping. */
    static method Resolve(q: Request, length: nat) returns (ok: bool, kind: Kind)
      ensures ok <==> Backable(q, length)
      ensures ok ==> BackedBy(q, kind)
    {
      kind := Anon;
      if q.shm {
        if q.anon || !q.shared || !Aligned(q.offset) || q.segment.Missing? || q.offset >= q.segment.size { return false, Anon; }
        if length > q.segment.size - q.offset { return false, Anon; }
        kind := Shm(q.segment.id);
      } else if !q.anon {
        if !Aligned(q.offset) || q.file.Missing? { return false, Anon; }
        kind := File(q.file.id);
      }
      return true, kind;
    }

    /**
     task_mmap_current. On success the map gains exactly the pages of the new region, each with
     the protection, object and position asked for; otherwise nothing changes.
     */
    method Map(q: Request) returns (ok: bool, start: nat)
      requires Valid() && q.addr < U32 && q.length < U32 && q.offset < U32
      modifies this
      ensures Valid() && |regs| == |old(regs)| && (!ok ==> regs == old(regs))
      ensures ok <==>
        && Up(q.length) != 0 && !q.fixed && q.priv != q.shared && Backable(q, Up(q.length))
        && (exists j :: 0 <= j < |old(regs)| && old(regs)[j].Free?)
        && (if q.addr != 0 then Fits(old(regs), Down(q.addr), Up(q.length)) else exists a: nat :: Fits(old(regs), a, Up(q.length)))
      ensures ok ==>
        && Fits(old(regs), start, Up(q.length)) && Aligned(start)
        && (if q.addr != 0 then start == Down(q.addr) else forall a: nat :: a < start ==> !Fits(old(regs), a, Up(q.length)))
      ensures ok ==> forall v: nat, info :: Maps(regs, v, info) <==>
        || Maps(old(regs), v, info)
        || (start <= v < start + Up(q.length) && info.prot == q.prot && info.flags == q.flags && BackedBy(q, info.kind)
            && info.offset == (q.offset + (v - start)) % U32)
      ensures ok ==> exists i :: 0 <= i < |regs| && OneMore(old(regs), regs, i, start, Up(q.length))
    {
      hide Up, Down, Backable, TableOk, Maps, Clear;
      var length := Up(q.length);
      UpSize(q.length);
      if length == 0 { return false, 0; }
      if q.fixed { return false, 0; }
      if q.priv == q.shared { return false, 0; }
      var slot;
      ok, slot := AllocSlot();
      if !ok { return false, 0; }
      ok, start := Place(q.addr, length);
      if !ok { return false, 0; }
      var kind;
      ok, kind := Resolve(q, length);
      if !ok { return false, 0; }
      var r := Region(start, start + length, q.prot, q.flags, kind, q.offset);
      regs := AddRegion(regs, slot, r);
      assert forall k :: BackedBy(q, k) <==> k == kind;
      assert OneMore(old(regs), regs, slot, start, length);
    }

    static lemma UpSize(x: nat)
      ensures Aligned(Up(x)) && Up(x) < U32
    {
    }

    /** A new region in a free slot, where nothing was mapped. */
    static method AddRegion(t: Table, slot: nat, r: Region) returns (u: Table)
      requires TableOk(t, BASE, LIMIT) && slot < |t| && t[slot].Free? && RegionBounds(r) && Clear(t, r.start, r.end)
      ensures TableOk(u, BASE, LIMIT) && u == t[slot := Used(r)]
      ensures forall v: nat, info :: Maps(u, v, info) <==>
        || Maps(t, v, info)
        || (r.start <= v < r.end && info == Info(r.prot, r.flags, r.kind, (r.offset + (v - r.start)) % U32))
    {
      u := t[slot := Used(r)];
      forall v: nat, info
        ensures Maps(u, v, info) <==>
          || Maps(t, v, info)
          || (r.start <= v < r.end && info == Info(r.prot, r.flags, r.kind, (r.offset + (v - r.start)) % U32))
      {
        if Maps(t, v, info) {
          var i :| 0 <= i < |t| && Covers(t[i], v) && InfoAt(t[i].r, v) == info;
          assert u[i] == t[i];
        }
        if r.start <= v < r.end && info == InfoAt(r, v) { assert Covers(u[slot], v); }
      }
    }

    /** Slot i, free before, has a region of n bytes from lo on. */
    static ghost predicate OneMore(t0: Table, t: Table, i: nat, lo: nat, n: nat) {
      && |t| == |t0| && i < |t| && t0[i].Free? && t[i].Used? && t[i].r.start == lo && t[i].r.end == lo + n
      && forall j :: 0 <= j < |t| && j != i ==> t[j] == t0[j]
    }

    static predicate RegionBounds(r: Region) { RegionOk(r, BASE, LIMIT) }

    /** The first pass of munmap: is the range mapped at all, must a region be split, is a slot free. */
    method Survey(lo: nat, hi: nat) returns (touched: bool, splits: nat, freeSlots: nat)
      requires Valid() && lo < hi
      ensures touched <==> !Clear(regs, lo, hi)
      ensures splits > 0 <==> exists j :: 0 <= j < |regs| && Splits(regs[j], lo, hi)
      ensures freeSlots > 0 <==> exists j :: 0 <= j < |regs| && regs[j].Free?
      ensures splits <= 1
    {
      touched, splits, freeSlots := false, 0, 0;
      for i := 0 to |regs|
        invariant touched <==> exists j :: 0 <= j < i && Meets(regs[j], lo, hi)
        invariant splits > 0 <==> exists j :: 0 <= j < i && Splits(regs[j], lo, hi)
        invariant freeSlots > 0 <==> exists j :: 0 <= j < i && regs[j].Free?
        invariant splits <= 1
      {
        if regs[i].Free? { freeSlots := freeSlots + 1; continue; }
        if hi <= regs[i].r.start || lo >= regs[i].r.end { continue; }
        touched := true;
        if lo > regs[i].r.start && hi < regs[i].r.end {
          Alone(regs, i, lo, hi);
          splits := splits + 1;
        }
      }
    }

    static ghost predicate MappedBelow(t: Table, i: nat, v: nat) { exists j :: 0 <= j < i && j < |t| && Covers(t[j], v) }

    /** The pages given back so far are those of the range that the first i slots mapped. */
    static ghost predicate CutTo(t0: Table, cut: seq<(nat, nat)>, i: nat, lo: nat, hi: nat) {
      forall v: nat :: InCut(cut, v) <==> MappedBelow(t0, i, v) && lo <= v < hi
    }

    static lemma CutStep(t0: Table, cut: seq<(nat, nat)>, i: nat, lo: nat, hi: nat)
      requires i < |t0| && lo < hi && CutTo(t0, cut, i, lo, hi)
      ensures !Meets(t0[i], lo, hi) ==> CutTo(t0, cut, i + 1, lo, hi)
      ensures Meets(t0[i], lo, hi) && t0[i].r.start < t0[i].r.end ==>
        var from, to := Max(lo, t0[i].r.start), Min(hi, t0[i].r.end);
        from < to && CutTo(t0, cut + [(from, to - from)], i + 1, lo, hi)
    {
      forall v: nat ensures MappedBelow(t0, i + 1, v) <==> MappedBelow(t0, i, v) || Covers(t0[i], v) { }
      if Meets(t0[i], lo, hi) && t0[i].r.start < t0[i].r.end {
        var from, to := Max(lo, t0[i].r.start), Min(hi, t0[i].r.end);
        var more := cut + [(from, to - from)];
        forall v: nat ensures InCut(more, v) <==> InCut(cut, v) || from <= v < to {
          if InCut(cut, v) {
            var k :| 0 <= k < |cut| && cut[k].0 <= v < cut[k].0 + cut[k].1;
            assert more[k] == cut[k];
          }
          if from <= v < to { assert more[|cut|] == (from, to - from); }
        }
      }
    }

    /** If region i is to be split, no other region meets the range. */
    static lemma Alone(t: Table, i: nat, lo: nat, hi: nat)
      requires TableOk(t, BASE, LIMIT) && lo < hi && i < |t| && Splits(t[i], lo, hi)
      ensures forall j :: 0 <= j < |t| && j != i ==> !Splits(t[j], lo, hi) && !Meets(t[j], lo, hi)
    {
      forall j | 0 <= j < |t| && j != i ensures !Splits(t[j], lo, hi) && !Meets(t[j], lo, hi) { OneSplit(t, BASE, LIMIT, lo, hi, i, j); }
    }

    /** The second pass of munmap: every region that meets the range is dropped, trimmed or split. */
    method Cut(lo: nat, hi: nat) returns (cut: seq<(nat, nat)>, ghost split: bool, ghost s: nat, ghost u: nat)
      requires Valid() && lo < hi
      requires (exists j :: 0 <= j < |regs| && Splits(regs[j], lo, hi)) ==> exists j :: 0 <= j < |regs| && regs[j].Free?
      modifies this
      ensures |regs| == |old(regs)| && Progress(old(regs), regs, lo, hi, |regs|, split, s, u)
      ensures !split ==> forall j :: 0 <= j < |old(regs)| ==> !Splits(old(regs)[j], lo, hi)
      ensures CutTo(old(regs), cut, |regs|, lo, hi)
    {
      hide TableOk, CutTo, Progress;
      cut := [];
      split, s, u := false, 0, 0;
      ghost var t0 := regs;
      NothingCut(t0, lo, hi);
      NothingDone(t0, lo, hi);
      for i := 0 to |regs|
        invariant |regs| == |t0| && Progress(t0, regs, lo, hi, i, split, s, u)
        invariant !split ==> forall j :: 0 <= j < i ==> !Splits(t0[j], lo, hi)
        invariant CutTo(t0, cut, i, lo, hi)
      {
        CutStep(t0, cut, i, lo, hi);
        Sizes(t0, i);
        SlotNow(t0, regs, lo, hi, i, split, s, u);
        if regs[i].Free? { continue; }
        var r := regs[i].r;
        if hi <= r.start || lo >= r.end { continue; }
        var from, to := Max(lo, r.start), Min(hi, r.end);
        cut := cut + [(from, to - from)];
        if r.start < lo && hi < r.end {
          SlotSplit(t0, regs, lo, hi, i, split, s, u);
          var ok, slot := AllocSlot();
          split, s, u := true, i, slot;
          regs := regs[slot := Used(r.(start := to, offset := (r.offset + (to - r.start)) % U32))][i := Used(r.(end := from))];
        } else {
          var left := Free;
          if lo <= r.start && hi >= r.end {
          } else if lo <= r.start {
            left := Used(r.(start := to, offset := (r.offset + (to - r.start)) % U32));
          } else {
            left := Used(r.(end := from));
          }
          SlotDone(t0, regs, lo, hi, i, split, s, u, left);
          regs := regs[i := left];
        }
      }
    }

    /** Slot i when its turn comes: as found, or the upper half of a split, which is outside the range. */
    static lemma SlotNow(t0: Table, t: Table, lo: nat, hi: nat, i: nat, split: bool, s: nat, u: nat)
      requires lo < hi && Progress(t0, t, lo, hi, i, split, s, u) && i < |t0|
      ensures |t| == |t0| && (Meets(t[i], lo, hi) ==> t[i] == t0[i]) && (Meets(t0[i], lo, hi) ==> t[i] == t0[i])
      ensures !Meets(t[i], lo, hi) ==> Progress(t0, t, lo, hi, i + 1, split, s, u) && !Splits(t0[i], lo, hi)
    {
    }

    static lemma SlotDone(t0: Table, t: Table, lo: nat, hi: nat, i: nat, split: bool, s: nat, u: nat, x: Slot)
      requires Progress(t0, t, lo, hi, i, split, s, u) && i < |t0| && Meets(t0[i], lo, hi) && x == Trim(t0[i], lo, hi)
      ensures |t| == |t0| && Progress(t0, t[i := x], lo, hi, i + 1, split, s, u)
    {
    }

    static lemma SlotSplit(t0: Table, t: Table, lo: nat, hi: nat, i: nat, split: bool, s: nat, u: nat)
      requires TableOk(t0, BASE, LIMIT) && lo < hi && Progress(t0, t, lo, hi, i, split, s, u) && i < |t0| && Splits(t0[i], lo, hi)
      ensures t == t0
      ensures forall q :: 0 <= q < |t0| && t0[q].Free? ==>
        Progress(t0, t0[q := Upper(t0[i], lo, hi)][i := Trim(t0[i], lo, hi)], lo, hi, i + 1, true, i, q)
    {
      Alone(t0, i, lo, hi);
    }

    static lemma NothingCut(t0: Table, lo: nat, hi: nat)
      ensures CutTo(t0, [], 0, lo, hi)
    {
    }

    static lemma NothingDone(t0: Table, lo: nat, hi: nat)
      ensures Progress(t0, t0, lo, hi, 0, false, 0, 0)
    {
    }

    static lemma Sizes(t: Table, i: nat)
      requires TableOk(t, BASE, LIMIT) && i < |t|
      ensures t[i].Used? ==> t[i].r.start < t[i].r.end
    {
    }

    /**
     task_munmap_current. It fails, changing nothing, exactly if the range is empty or unmapped or
     a split would need a slot that is not there. Otherwise the map loses exactly the pages of the
     range, those pages are given back, and every other address keeps its backing.
     */
    method Unmap(addr: nat, length: nat) returns (ok: bool, cut: seq<(nat, nat)>)
      requires Valid() && addr < U32 && length < U32
      modifies this
      ensures Valid() && |regs| == |old(regs)|
      ensures var lo, hi := Down(addr), Up((addr + length) % U32);
        && (ok <==>
              && length != 0 && lo < hi && !Clear(old(regs), lo, hi)
              && ((exists j :: 0 <= j < |old(regs)| && Splits(old(regs)[j], lo, hi)) ==> exists j :: 0 <= j < |old(regs)| && old(regs)[j].Free?))
        && (ok ==> forall v: nat, info :: Maps(regs, v, info) <==> Maps(old(regs), v, info) && !(lo <= v < hi))
        && (ok ==> forall v: nat :: InCut(cut, v) <==> Mapped(old(regs), v) && lo <= v < hi)
      ensures !ok ==> regs == old(regs) && cut == []
    {
      hide Up, Down, TableOk, Maps, Clear, Splits, Progress;
      cut := [];
      if length == 0 { return false, []; }
      var lo, hi := Down(addr), Up((addr + length) % U32);
      UpSize((addr + length) % U32);
      if hi <= lo { return false, []; }
      var touched, splits, freeSlots := Survey(lo, hi);
      if !touched { return false, []; }
      if splits > freeSlots { return false, []; }
      ghost var t0 := regs;
      ghost var split, s, u;
      cut, split, s, u := Cut(lo, hi);
      CutOk(t0, regs, BASE, LIMIT, lo, hi, split, s, u);
      forall v: nat, info ensures Maps(regs, v, info) <==> Maps(t0, v, info) && !(lo <= v < hi) {
        CutMaps(t0, regs, BASE, LIMIT, lo, hi, split, s, u, v, info);
      }
      AllBelow(t0);
      return true, cut;
    }

    /** Mapping, and unmapping what was mapped: it can always be undone, and every address is backed as before. */
    method MapUnmap(q: Request) returns (ok: bool, undone: bool)
      requires Valid() && q.addr < U32 && q.length < U32 && q.offset < U32
      modifies this
      ensures Valid() && (ok ==> undone)
      ensures forall v: nat, info :: Maps(regs, v, info) <==> Maps(old(regs), v, info)
    {
      hide Maps, TableOk, Up, Down, Backable, BackedBy;
      var start;
      ghost var t0 := regs;
      ok, start := Map(q);
      undone := false;
      if !ok { return; }
      ghost var t1, length := regs, Up(q.length);
      SameRange(start, q.length);
      ghost var i :| 0 <= i < |t1| && OneMore(t0, t1, i, start, length);
      assert Meets(t1[i], start, start + length);
      forall j | 0 <= j < |t1| ensures !Splits(t1[j], start, start + length) { assert j != i ==> t1[j] == t0[j]; }
      var cut;
      undone, cut := Unmap(start, q.length);
      forall v: nat, info ensures Maps(regs, v, info) <==> Maps(t0, v, info) { NotThere(t0, start, start + length, v, info); }
    }

    static lemma SameRange(start: nat, n: nat)
      requires start % 4096 == 0 && n < U32 && Up(n) != 0 && start + Up(n) < U32
      ensures Down(start) == start && Up((start + n) % U32) == start + Up(n) && n != 0
    {
      hide Up, Down;
      Rounding(n);
      Rounding(start);
      assert start + n < U32;
      Rounding(start + n);
    }

    static lemma NotThere(t: Table, lo: nat, hi: nat, v: nat, info: Info)
      requires Clear(t, lo, hi)
      ensures Maps(t, v, info) ==> !(lo <= v < hi)
    {
    }

    static lemma AllBelow(t: Table)
      ensures forall v: nat :: MappedBelow(t, |t|, v) <==> Mapped(t, v)
    {
    }
  }
}
