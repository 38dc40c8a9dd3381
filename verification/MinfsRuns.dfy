/**
 Whole lives of a minfs filesystem: operations in any order, power failures at any moment of any
 of them, and mounts that may be cut short themselves.
 */
module MinfsRuns {
  import opened WriteBack
  import opened MinfsTable
  import opened MinfsDisk
  import opened MinfsCrash
  import opened MinfsFs

  datatype Act =
    | WriteAct(x: nat, offset: nat, data: seq<nat>)
    | TruncateAct(x: nat)
    | CreateAct(parent: nat, isFile: bool, name: seq<nat>, vnodeOk: bool)
    | UnlinkAct(x: nat)

  /** After how many writes to the disk the power fails, and the same for the mounts that follow. */
  datatype Crash = NoCrash | CrashAt(k: nat, during: seq<nat>)

  datatype Step = Step(act: Act, crash: Crash)

  // ----- states and steps -------------------------------------------------------------------------

  /** The filesystem between two operations. */
  datatype Snap = Snap(table: Table, bitmap: seq<bool>, state: nat, w: Wb<Lba, Sector>)

  ghost function Now(fs: Minfs): Snap
    reads fs
  {
    Snap(fs.table, fs.bitmap, fs.state, fs.w)
  }

  predicate RootWord(w: nat) { DirWord(w) && !FileWord(w) }

  /** What holds of every state between operations; the root directory is where mount looks for it. */
  ghost predicate Sound(s: Snap, g: Geo) {
    && GeoOk(g) && |s.table| == g.n * NODE_WORDS && g.nb <= |s.bitmap|
    && Consistent(s.table, g.n, g.nb, s.bitmap) && Apart(TableOf(s.w.log, g), s.table, g.n, g.nb, s.bitmap)
    && SameNodes(TableOf(s.w.log, g), s.table, g.n)
    && HasAll(s.w.log, g) && s.state in {CLEAN, DIRTY} && (s.state == CLEAN ==> TableSynced(s.w.log, s.table))
    && RootWord(s.table[0]) && WordAt(s.w.log, 0) == s.table[0]
  }

  /** The first unused record from i on; n if there is none. */
  function FirstFree(t: Table, n: nat, i: nat): (x: nat)
    requires |t| == n * NODE_WORDS && i <= n
    ensures i <= x <= n && (x < n ==> !UsedWord(Word(t, x, 0))) && forall k :: i <= k < x ==> UsedWord(Word(t, k, 0))
    decreases n - i
  {
    if i == n || !UsedWord(Word(t, i, 0)) then i else FirstFree(t, n, i + 1)
  }

  /** The node an act changes; n if it changes none. */
  function Target(a: Act, t: Table, n: nat): nat
    requires |t| == n * NODE_WORDS && n > 0
  {
    match a
    case WriteAct(x, _, _) => if IsFile(t, n, x) then x else n
    case TruncateAct(x) => if IsFile(t, n, x) then x else n
    case CreateAct(_, _, name, _) => if |name| == FIRST_DIRECT - NAME then FirstFree(t, n, 1) else n
    case UnlinkAct(x) =>
      if 0 < x < n && UsedWord(Word(t, x, 0)) && !(DirWord(Word(t, x, 0)) && Children(t, n, x, n) != 0) then x else n
  }

  /** The frame of an act from state s: it is determined by the two. */
  ghost function FrameOf(a: Act, s: Snap, g: Geo): Frame
    requires |s.table| == g.n * NODE_WORDS && g.n > 0
  {
    var x := Target(a, s.table, g.n);
    var f := Frame(false, s.table, TableOf(s.w.log, g), s.bitmap, s.w, x, g,
      if x < g.n then s.table[x * NODE_WORDS] else 0, if x < g.n then s.table[x * NODE_WORDS + PARENT] else 0, true);
    match a
    case CreateAct(parent, isFile, _, _) => f.(word0 := Minfs.NewWord(isFile), parent0 := parent, grow := false)
    case UnlinkAct(_) => f.(word0 := 0, parent0 := NONE, grow := false)
    case _ => f
  }

  /** The act fails under the marker, so that the marker stays. */
  ghost predicate LeavesMarker(a: Act, s: Snap, g: Geo)
    requires |s.table| == g.n * NODE_WORDS && g.n > 0 && g.nb <= |s.bitmap|
  {
    match a
    case WriteAct(x, offset, data) =>
      && IsFile(s.table, g.n, x) && offset < MAX_FILE
      && Minfs.Grows(s.table, x, offset + Minfs.Clipped(offset, |data|))
      && !Minfs.CanStore(s.table, s.bitmap, g.nb, x, offset, Minfs.Clipped(offset, |data|))
    case CreateAct(_, _, _, vnodeOk) => Target(a, s.table, g.n) < g.n && !vnodeOk
    case _ => false
  }

  /** Nodes other than x are in t as in f.t0 (a directory: all but its size). */
  ghost predicate OthersSame(f: Frame, t: Table) {
    && |t| == |f.t0| == f.g.n * NODE_WORDS
    && forall i, k :: 0 <= i < f.g.n && 0 <= k < NODE_WORDS && Foreign(f.t0, f.x, i, k) ==> Word(t, i, k) == Word(f.t0, i, k)
  }

  /** What an act does to its own node, to the bitmap and to the cache. */
  ghost predicate Own(a: Act, s: Snap, s': Snap, g: Geo, x: nat)
    requires |s.table| == |s'.table| == g.n * NODE_WORDS && x < g.n && g.nb <= |s.bitmap| == |s'.bitmap|
  {
    match a
    case WriteAct(_, offset, data) =>
      var n := Minfs.Clipped(offset, |data|);
      && IsFile(s'.table, g.n, x) && Minfs.Grown(s.table, s.bitmap, s'.table, g.nb, x)
      && (forall b :: 0 <= b < |s.bitmap| && s.bitmap[b] ==> s'.bitmap[b])
      && (if offset < MAX_FILE && Minfs.CanStore(s.table, s.bitmap, g.nb, x, offset, n) then
            && Word(s'.table, x, SIZE) == Minfs.Max(Word(s.table, x, SIZE), offset + n)
            && Word(s'.table, x, COUNT) == Minfs.Max(Word(s.table, x, COUNT), Minfs.BlocksFor(offset + n))
            && FreeBlocks(s'.bitmap, g.nb) == FreeBlocks(s.bitmap, g.nb) - Minfs.Max(0, Minfs.BlocksFor(offset + n) - Word(s.table, x, COUNT))
            && n <= |data| && WrittenTo(s'.table, s.w.log, s'.w.log, x, offset, data[..n], n, Word(s.table, x, COUNT), g.nb)
          else Word(s'.table, x, SIZE) == Word(s.table, x, SIZE))
    case TruncateAct(_) =>
      && (forall k :: 0 <= k < NODE_WORDS ==>
            Word(s'.table, x, k) == if k == COUNT || k == SIZE then 0 else if k >= FIRST_DIRECT then NONE else Word(s.table, x, k))
      && (forall b :: 0 <= b < |s.bitmap| ==>
            (s'.bitmap[b] <==> s.bitmap[b] && forall j :: 0 <= j < DIRECT ==> s.table[Pos(x, j)] != b))
    case CreateAct(parent, isFile, name, vnodeOk) =>
      && s'.bitmap == s.bitmap && |name| == FIRST_DIRECT - NAME
      && (if vnodeOk then
            && IsRefreshed(Minfs.SetRecord(s.table, x, Minfs.Record(Minfs.NewWord(isFile), parent, name)), s'.table, g.n)
            && TableSynced(s'.w.log, s'.table)
          else s'.table == Minfs.SetRecord(s.table, x, Minfs.Blank()))
    case UnlinkAct(_) =>
      && IsRefreshed(Minfs.SetRecord(s.table, x, Minfs.Blank()), s'.table, g.n) && TableSynced(s'.w.log, s'.table)
      && (forall b :: 0 <= b < |s.bitmap| ==> (s'.bitmap[b] <==> Minfs.StillMarked(s.table, s.bitmap, x, b)))
  }

  /** An act that was not cut short leads from s to s'. */
  ghost predicate Done(a: Act, s: Snap, s': Snap, g: Geo)
    requires |s.table| == g.n * NODE_WORDS && g.n > 0 && g.nb <= |s.bitmap|
  {
    var f := FrameOf(a, s, g);
    && |s'.bitmap| == |s.bitmap| && OthersSame(f, s'.table) && Live(f, s'.w)
    && (s'.state == DIRTY <==> s.state == DIRTY || LeavesMarker(a, s, g))
    && (if f.x < g.n then Own(a, s, s', g, f.x) else s' == s)
  }

  /** Block b of the disk is the one of d0. */
  ghost predicate HoldsBlock(d0: Disk, d: Disk, b: nat) {
    DataLba(b) in d && DataLba(b) in d0 && d[DataLba(b)] == d0[DataLba(b)]
  }

  ghost predicate SameBlocks(d0: Disk, d: Disk, g: Geo) { forall b :: 0 <= b < g.nb ==> HoldsBlock(d0, d, b) }

  /** A disk that the power failure can find during the act with frame f. */
  ghost predicate Found(f: Frame, d: Disk) { HasAll(d, f.g) && CrashSafe(d, f.g) && Framed(f, d) }

  /** s' is mounted from disk d: its data, and each word of its table or what recovery makes of that. */
  ghost predicate Remounted(d: Disk, s': Snap, g: Geo) {
    && |s'.table| == g.n * NODE_WORDS && HalfRecovered(TableOf(d, g), s'.table, g.n, g.nb)
    && s'.state == CLEAN && s'.w.disk == s'.w.log && SameBlocks(d, s'.w.disk, g)
  }

  ghost predicate Next(step: Step, s: Snap, s': Snap, g: Geo)
    requires |s.table| == g.n * NODE_WORDS && g.n > 0 && g.nb <= |s.bitmap|
  {
    if step.crash.NoCrash? then Done(step.act, s, s', g)
    else exists d :: Found(FrameOf(step.act, s, g), d) && Remounted(d, s', g)
  }

  /** A run of steps: each state is sound, and each step leads to the next. */
  ghost predicate Life(steps: seq<Step>, states: seq<Snap>, g: Geo) {
    && |states| == |steps| + 1 && (forall n :: 0 <= n < |states| ==> Sound(states[n], g))
    && forall n :: 0 <= n < |steps| ==> SoundNext(steps[n], states[n], states[n + 1], g)
  }

  ghost predicate SoundNext(step: Step, s: Snap, s': Snap, g: Geo) { Sound(s, g) && Next(step, s, s', g) }

  // ----- one act ----------------------------------------------------------------------------------

  lemma OnlyRecordOthers(f: Frame, t: Table)
    requires |f.t0| == f.g.n * NODE_WORDS && Minfs.OnlyRecord(f.t0, t, f.x)
    ensures OthersSame(f, t)
  {
    forall i, k | 0 <= i < f.g.n && 0 <= k < NODE_WORDS && Foreign(f.t0, f.x, i, k) ensures Word(t, i, k) == Word(f.t0, i, k) {
      assert (i * NODE_WORDS + k) / NODE_WORDS == i;
    }
  }

  lemma RefreshedOthers(f: Frame, r: seq<nat>, t: Table)
    requires |f.t0| == f.g.n * NODE_WORDS && f.x < f.g.n && |r| == NODE_WORDS && IsRefreshed(Minfs.SetRecord(f.t0, f.x, r), t, f.g.n)
    ensures OthersSame(f, t)
  {
    hide Minfs.SetRecord, Minfs.OnlyRecord;
    var u := Minfs.SetRecord(f.t0, f.x, r);
    OnlyRecordOthers(f, u);
    forall i, k | 0 <= i < f.g.n && 0 <= k < NODE_WORDS && Foreign(f.t0, f.x, i, k) ensures Word(t, i, k) == Word(f.t0, i, k) {
      assert Foreign(f.t0, f.x, i, 0);
      assert Word(u, i, 0) == Word(f.t0, i, 0) && Word(u, i, k) == Word(f.t0, i, k);
    }
  }

  /** An act that changes nothing. */
  lemma Nothing(fs: Minfs, a: Act)
    requires fs.Idle() && Target(a, fs.table, fs.g.n) == fs.g.n
    ensures Done(a, Now(fs), Now(fs), fs.g) && AllGood(FrameOf(a, Now(fs), fs.g), fs.seen, |fs.seen|)
  {
    hide Live, AllGood, Apart, Consistent;
    var f := FrameOf(a, Now(fs), fs.g);
    assert fs.StartsAs(f);
    fs.StartLive(f);
  }

  /** One act. The marker is set afterwards if and only if it was before or the act failed under it. */
  method Perform(fs: Minfs, a: Act)
    requires fs.Idle()
    modifies fs
    ensures fs.Idle() && Done(a, old(Now(fs)), Now(fs), fs.g) && AllGood(FrameOf(a, old(Now(fs)), fs.g), fs.seen, |old(fs.seen)|)
    ensures Extends(old(fs.seen), fs.seen)
  {
    hide Live, AllGood, Apart, Consistent, SameMeta, HasAll, BitsTracked, TableSynced, BitsSynced, IsRefreshed, OthersSame, Minfs.OnlyRecord,
         Minfs.SetRecord, Minfs.Record, Minfs.Blank, Minfs.Grows, Minfs.CanStore, UsedWord, FileWord, DirWord, WrittenTo, Minfs.NoHole,
         Minfs.SameOtherBlocks, Children, Minfs.StillMarked, FreeBlocks, FirstFree, Logged;
    ghost var s := Now(fs);
    match a
    case WriteAct(x, offset, data) =>
      if x < fs.g.n && FileWord(fs.table[x * NODE_WORDS]) {
        var _ := fs.Write(x, offset, data);
        OnlyRecordOthers(FrameOf(a, s, fs.g), fs.table);
      } else {
        Nothing(fs, a);
      }
    case TruncateAct(x) =>
      if x < fs.g.n && FileWord(fs.table[x * NODE_WORDS]) {
        fs.Truncate(x);
        OnlyRecordOthers(FrameOf(a, s, fs.g), fs.table);
      } else {
        Nothing(fs, a);
      }
    case CreateAct(_, _, name, _) =>
      if |name| == FIRST_DIRECT - NAME {
        PerformCreate(fs, a);
      } else {
        Nothing(fs, a);
      }
    case UnlinkAct(x) =>
      if x < fs.g.n && UsedWord(fs.table[x * NODE_WORDS]) {
        PerformUnlink(fs, x);
      } else {
        Nothing(fs, a);
      }
  }

  method PerformUnlink(fs: Minfs, x: nat)
    requires fs.Idle() && x < fs.g.n && UsedWord(Word(fs.table, x, 0))
    modifies fs
    ensures fs.Idle() && Done(UnlinkAct(x), old(Now(fs)), Now(fs), fs.g)
    ensures AllGood(FrameOf(UnlinkAct(x), old(Now(fs)), fs.g), fs.seen, |old(fs.seen)|)
    ensures Extends(old(fs.seen), fs.seen)
  {
    hide Live, AllGood, Apart, Consistent, SameMeta, HasAll, BitsTracked, TableSynced, BitsSynced, IsRefreshed, OthersSame, Minfs.OnlyRecord,
         Minfs.SetRecord, Minfs.Blank, UsedWord, FileWord, DirWord, Children, Minfs.StillMarked, Logged;
    ghost var s := Now(fs);
    if Target(UnlinkAct(x), fs.table, fs.g.n) == fs.g.n { Nothing(fs, UnlinkAct(x)); }
    var rc := fs.Unlink(x);
    if rc == 0 { RefreshedOthers(FrameOf(UnlinkAct(x), s, fs.g), Minfs.Blank(), fs.table); }
  }

  method PerformCreate(fs: Minfs, a: Act)
    requires fs.Idle() && a.CreateAct? && |a.name| == FIRST_DIRECT - NAME
    modifies fs
    ensures fs.Idle() && Done(a, old(Now(fs)), Now(fs), fs.g) && AllGood(FrameOf(a, old(Now(fs)), fs.g), fs.seen, |old(fs.seen)|)
    ensures Extends(old(fs.seen), fs.seen)
  {
    hide Live, AllGood, Apart, Consistent, SameMeta, HasAll, BitsTracked, TableSynced, BitsSynced, IsRefreshed, OthersSame, Minfs.OnlyRecord,
         Minfs.SetRecord, Minfs.Record, Minfs.Blank, UsedWord, FileWord, FirstFree, Logged;
    ghost var s := Now(fs);
    var rc, x := fs.Create(a.parent, a.isFile, a.name, a.vnodeOk);
    FirstIs(s.table, fs.g.n, x);
    ghost var f := FrameOf(a, s, fs.g);
    if rc == 0 {
      RefreshedOthers(f, Minfs.Record(Minfs.NewWord(a.isFile), a.parent, a.name), fs.table);
    } else {
      if x < fs.g.n { OnlyRecordOthers(f, fs.table); } else { SameTable(f, fs.table); }
    }
  }

  lemma SameTable(f: Frame, t: Table)
    requires |f.t0| == f.g.n * NODE_WORDS && t == f.t0
    ensures OthersSame(f, t)
  {
  }

  lemma FirstIs(t: Table, n: nat, x: nat)
    requires |t| == n * NODE_WORDS && 1 <= x <= n && (x < n ==> !UsedWord(Word(t, x, 0))) && forall i :: 1 <= i < x ==> UsedWord(Word(t, i, 0))
    ensures FirstFree(t, n, 1) == x
  {
    hide UsedWord;
    assert FirstFree(t, n, 1) == x;
  }

  // ----- one file through it all ------------------------------------------------------------------

  /** File i is in t0 and d0 as it should be, and table and device, in cache and on disk, hold the same. */
  ghost predicate Holds(t0: Table, d0: Disk, g: Geo, i: nat, t: Table, w: Wb<Lba, Sector>) {
    && Proper(t0, g, i) && |t| == |t0|
    && (forall k :: 0 <= k < NODE_WORDS ==> Word(t, i, k) == Word(t0, i, k) == Word(TableOf(w.log, g), i, k))
    && (forall j :: Ref(t0, g.n, g.nb, i, j) ==> HoldsBlock(d0, w.disk, t0[Pos(i, j)]) && HoldsBlock(d0, w.log, t0[Pos(i, j)]))
  }

  /** A plain file whose counts are right. */
  ghost predicate Proper(t0: Table, g: Geo, i: nat) {
    && |t0| == g.n * NODE_WORDS && NeverShared(t0, g.n, g.nb) && g.nb <= NONE
    && IsFile(t0, g.n, i) && !DirWord(Word(t0, i, 0)) && WellCounted(t0, g.n, g.nb, i)
  }

  /** Any mount of disk d finds file i as it is in t0 and d0. */
  ghost predicate OnDisk(t0: Table, d0: Disk, g: Geo, i: nat, d: Disk) {
    && Proper(t0, g, i)
    && (forall k :: 0 <= k < NODE_WORDS ==>
          Word(TableOf(d, g), i, k) == Word(t0, i, k) == RecoveredWord(TableOf(d, g), g.n, g.nb, i, k))
    && (forall j :: Ref(t0, g.n, g.nb, i, j) ==> HoldsBlock(d0, d, t0[Pos(i, j)]))
  }

  /** The act leaves file i alone, and does not bring a record with stale block numbers back to life. */
  ghost predicate Spares(f: Frame, i: nat) {
    i != f.x && (f.x < f.g.n ==> |f.l0| == |f.t0| == f.g.n * NODE_WORDS && NoStaleClaim(f.l0, f.t0, f.g.n, f.g.nb, f.x))
  }

  ghost predicate Begun(f: Frame) {
    StartsWell(f) && f.l0 == TableOf(f.w0.log, f.g) && HasAll(f.w0.log, f.g)
  }

  lemma SameRecordCounted(t0: Table, t: Table, n: nat, nb: nat, i: nat)
    requires |t| == |t0| == n * NODE_WORDS && i < n && NeverShared(t0, n, nb) && NeverShared(t, n, nb) && WellCounted(t0, n, nb, i)
    requires forall k :: 0 <= k < NODE_WORDS ==> Word(t, i, k) == Word(t0, i, k)
    ensures WellCounted(t, n, nb, i) && forall j :: Ref(t, n, nb, i, j) == Ref(t0, n, nb, i, j)
    ensures forall j :: 0 <= j < DIRECT ==> t[Pos(i, j)] == t0[Pos(i, j)]
  {
    assert Word(t, i, 0) == Word(t0, i, 0);
    forall j | 0 <= j < DIRECT ensures t[Pos(i, j)] == t0[Pos(i, j)] { assert Word(t, i, FIRST_DIRECT + j) == Word(t0, i, FIRST_DIRECT + j); }
    KeptFirst(t0, n, nb);
    KeptFirst(t, n, nb);
    forall j | 0 <= j < DIRECT ensures Kept(t, n, nb, i, j) == Kept(t0, n, nb, i, j) { assert Ref(t, n, nb, i, j) == Ref(t0, n, nb, i, j); }
    SameKeptCount(t, t0, n, nb, i, DIRECT);
  }

  /** The start of an act, seen from file i. */
  lemma HeldAtStart(t0: Table, d0: Disk, i: nat, f: Frame)
    requires Begun(f) && Holds(t0, d0, f.g, i, f.t0, f.w0)
    ensures InStep(f.l0, f.t0, f.g.n, i) && WellCounted(f.t0, f.g.n, f.g.nb, i) && !DirWord(Word(f.t0, i, 0))
    ensures forall j :: 0 <= j < DIRECT ==> f.t0[Pos(i, j)] == t0[Pos(i, j)]
    ensures forall j :: Ref(f.t0, f.g.n, f.g.nb, i, j) == Ref(t0, f.g.n, f.g.nb, i, j)
  {
    hide Apart, NoStaleClaim, WellCounted;
    SameRecordCounted(t0, f.t0, f.g.n, f.g.nb, i);
  }

  /** Every disk that an act on another node can leave still has file i. */
  lemma CrashHolds(t0: Table, d0: Disk, i: nat, f: Frame, d: Disk)
    requires Begun(f) && Holds(t0, d0, f.g, i, f.t0, f.w0) && i != f.x && Framed(f, d) && HasAll(d, f.g)
    ensures OnDisk(t0, d0, f.g, i, d)
  {
    hide Apart, NoStaleClaim, WellCounted, Consistent, NeverShared;
    HeldAtStart(t0, d0, i, f);
    forall k | 0 <= k < NODE_WORDS
      ensures Word(TableOf(d, f.g), i, k) == Word(t0, i, k) == RecoveredWord(TableOf(d, f.g), f.g.n, f.g.nb, i, k)
    {
      assert Foreign(f.t0, f.x, i, k);
      CrashFraming(f, d, i, k);
    }
    BlocksHold(t0, d0, i, f, d);
  }

  lemma BlocksHold(t0: Table, d0: Disk, i: nat, f: Frame, d: Disk)
    requires Begun(f) && Holds(t0, d0, f.g, i, f.t0, f.w0) && i != f.x && Framed(f, d) && HasAll(d, f.g)
    ensures forall j :: Ref(t0, f.g.n, f.g.nb, i, j) ==> HoldsBlock(d0, d, t0[Pos(i, j)])
  {
    hide Apart, NoStaleClaim, WellCounted, Consistent, NeverShared, TableFits, ForeignBlock;
    HeldAtStart(t0, d0, i, f);
    forall j | Ref(t0, f.g.n, f.g.nb, i, j) ensures HoldsBlock(d0, d, t0[Pos(i, j)]) {
      OthersBlockForeign(f, i, j);
      assert SameBlock(f, d, DataLba(t0[Pos(i, j)]));
      assert HoldsBlock(d0, f.w0.disk, t0[Pos(i, j)]) && HoldsBlock(d0, f.w0.log, t0[Pos(i, j)]);
    }
  }

  /** If the power does not fail, file i is as before. */
  lemma ActHolds(t0: Table, d0: Disk, i: nat, f: Frame, t: Table, w: Wb<Lba, Sector>)
    requires Begun(f) && Holds(t0, d0, f.g, i, f.t0, f.w0) && i != f.x && Live(f, w) && OthersSame(f, t)
    ensures Holds(t0, d0, f.g, i, t, w)
  {
    hide Apart, NoStaleClaim, WellCounted, Consistent, NeverShared, OnDisk, Framed;
    HeldAtStart(t0, d0, i, f);
    CrashHolds(t0, d0, i, f, w.log);
    BlocksHold(t0, d0, i, f, w.disk);
    BlocksHold(t0, d0, i, f, w.log);
    forall k | 0 <= k < NODE_WORDS ensures Word(t, i, k) == Word(t0, i, k) == Word(TableOf(w.log, f.g), i, k) {
      assert Foreign(f.t0, f.x, i, k);
      assert OnDisk(t0, d0, f.g, i, w.log);
      OnDiskWord(t0, d0, f.g, i, w.log, k);
    }
  }

  lemma OnDiskWord(t0: Table, d0: Disk, g: Geo, i: nat, d: Disk, k: nat)
    requires OnDisk(t0, d0, g, i, d) && k < NODE_WORDS
    ensures Word(TableOf(d, g), i, k) == Word(t0, i, k) == RecoveredWord(TableOf(d, g), g.n, g.nb, i, k)
  {
  }

  /** A mount that completes brings file i back. */
  lemma MountHolds(t0: Table, d0: Disk, g: Geo, i: nat, d: Disk, s': Snap)
    requires OnDisk(t0, d0, g, i, d) && Remounted(d, s', g) && TableSynced(s'.w.log, s'.table)
    ensures Holds(t0, d0, g, i, s'.table, s'.w)
  {
    hide WellCounted, NeverShared, RecoveredWord;
    forall k | 0 <= k < NODE_WORDS ensures Word(s'.table, i, k) == Word(t0, i, k) == Word(TableOf(s'.w.log, g), i, k) {
      OnDiskWord(t0, d0, g, i, d, k);
      HalfWord(TableOf(d, g), s'.table, g.n, g.nb, i, k);
    }
    forall j | Ref(t0, g.n, g.nb, i, j) ensures HoldsBlock(d0, s'.w.disk, t0[Pos(i, j)]) {
      assert HoldsBlock(d0, d, t0[Pos(i, j)]) && HoldsBlock(d, s'.w.disk, t0[Pos(i, j)]);
    }
  }

  lemma HalfWord(t: Table, u: Table, n: nat, nb: nat, i: nat, k: nat)
    requires |t| == |u| == n * NODE_WORDS && HalfRecovered(t, u, n, nb) && i < n && k < NODE_WORDS
    ensures Word(u, i, k) in {Word(t, i, k), RecoveredWord(t, n, nb, i, k)}
  {
    hide RecoveredWord;
  }

  /** A file that is held reads as it did: every byte. */
  lemma HeldBytes(t0: Table, d0: Disk, g: Geo, i: nat, t: Table, w: Wb<Lba, Sector>, off: nat)
    requires Holds(t0, d0, g, i, t, w)
    ensures FileByte(t, w.log, i, off) == FileByte(t0, d0, i, off) && Word(t, i, SIZE) == Word(t0, i, SIZE)
  {
    hide NeverShared, KeptCount;
    var j := off / BLOCK_SIZE;
    assert Word(t, i, COUNT) == Word(t0, i, COUNT);
    if j < DIRECT {
      assert Word(t, i, FIRST_DIRECT + j) == t[Pos(i, j)] && Word(t0, i, FIRST_DIRECT + j) == t0[Pos(i, j)];
      if t0[Pos(i, j)] < g.nb {
        assert Ref(t0, g.n, g.nb, i, j);
        assert HoldsBlock(d0, w.log, t0[Pos(i, j)]);
      }
    }
  }

  // ----- power failures ---------------------------------------------------------------------------

  /** A disk from which the machine can start again. */
  ghost predicate Bootable(d: Disk, g: Geo) {
    GeoOk(g) && HasAll(d, g) && CrashSafe(d, g) && RootWord(WordAt(d, 0))
  }

  lemma BootableParts(d: Disk, g: Geo)
    requires Bootable(d, g)
    ensures GeoOk(g) && HasAll(d, g) && CrashSafe(d, g) && DirWord(WordAt(d, 0)) && RootWord(WordAt(d, 0))
  {
  }

  /** u is what recovering d, perhaps cut short and begun again, has made of its table so far; the data is untouched. */
  ghost predicate Recovering(d: Disk, u: Table, d': Disk, g: Geo) {
    |u| == g.n * NODE_WORDS && HalfRecovered(TableOf(d, g), u, g.n, g.nb) && SameBlocks(d, d', g)
  }

  lemma CutMountKeeps(d: Disk, d': Disk, g: Geo)
    requires Bootable(d, g) && Framed(Minfs.RecoveryFrame(d, g), d') && HasAll(d', g) && CrashSafe(d', g)
    ensures Bootable(d', g) && Recovering(d, TableOf(d', g), d', g)
  {
    hide CrashSafe, RecoveredWord, DirWord, FileWord;
    HalfKeepsRefs(TableOf(d, g), TableOf(d', g), g.n, g.nb);
    assert Word(TableOf(d', g), 0, 0) == Word(TableOf(d, g), 0, 0);
    var f := Minfs.RecoveryFrame(d, g);
    forall b | 0 <= b < g.nb ensures HoldsBlock(d, d', b) {
      assert ForeignBlock(f, b);
      assert SameBlock(f, d', DataLba(b));
    }
  }

  lemma SelfFramed(d: Disk, g: Geo)
    requires HasAll(d, g)
    ensures Framed(Minfs.RecoveryFrame(d, g), d) && Recovering(d, TableOf(d, g), d, g)
  {
    hide RecoveredWord;
  }

  lemma RecoveringOn(d: Disk, d1: Disk, u: Table, d2: Disk, g: Geo)
    requires GeoOk(g) && Recovering(d, TableOf(d1, g), d1, g) && Recovering(d1, u, d2, g)
    ensures Recovering(d, u, d2, g)
  {
    hide RecoveredWord;
    var t, t1 := TableOf(d, g), TableOf(d1, g);
    forall i, k | 0 <= i < g.n && 0 <= k < NODE_WORDS
      ensures Word(u, i, k) == Word(t, i, k) || Word(u, i, k) == RecoveredWord(t, g.n, g.nb, i, k)
    {
      HalfWord(t, t1, g.n, g.nb, i, k);
      HalfWord(t1, u, g.n, g.nb, i, k);
      RecoveryRestarts(t, t1, g.n, g.nb, i, k);
    }
    forall b | 0 <= b < g.nb ensures HoldsBlock(d, d2, b) { assert HoldsBlock(d, d1, b) && HoldsBlock(d1, d2, b); }
  }

  /** A mount that the power failure cut short after c sectors were written; log is the history of the disk in that mount. */
  method CutMount(fs: Minfs, c: nat) returns (ghost log: seq<Disk>)
    requires fs.w.disk == fs.w.log && Bootable(fs.w.disk, fs.g) && Logged(fs.seen, fs.w.disk)
    modifies fs
    ensures fs.w.disk == fs.w.log && Bootable(fs.w.disk, fs.g) && Logged(fs.seen, fs.w.disk)
    ensures Recovering(old(fs.w.disk), TableOf(fs.w.disk, fs.g), fs.w.disk, fs.g)
    ensures log != [] && log[0] == old(fs.w.disk) && Logged(log, log[|log| - 1])
    ensures fs.w.disk == if c < |log| then log[c] else log[|log| - 1]
  {
    hide HasAll, CrashSafe, Framed, RootWord, Minfs.SameData, Consistent, Apart, Mounted, Recovering;
    ghost var d0 := fs.w.disk;
    var from := |fs.seen| - 1;
    BootableParts(fs.w.disk, fs.g);
    SelfFramed(fs.w.disk, fs.g);
    var _ := fs.Mount();
    log := fs.seen[from..];
    LoggedTail(fs.seen, fs.w.disk, from);
    var d := fs.seen[if from + c < |fs.seen| then from + c else |fs.seen| - 1];
    if d != d0 { CutMountKeeps(d0, d, fs.g); }
    fs.w, fs.seen := Wb(d, d), [d];
  }

  lemma LoggedTail(seen: seq<Disk>, d: Disk, from: nat)
    requires Logged(seen, d) && from < |seen|
    ensures Logged(seen[from..], d)
  {
    var t := seen[from..];
    forall i, j | 0 <= i && j == i + 1 < |t| ensures OneSector(t[i], t[j]) { assert t[i] == seen[from + i] && t[j] == seen[from + j]; }
  }

  /**
   The machine starts from disk d; the first mounts are cut short as `during` says, the last one
   completes. Every mount finds the root, and the table is the one on d or what recovery makes of it.
   */
  method Reboot(fs: Minfs, d: Disk, during: seq<nat>)
    requires Bootable(d, fs.g)
    modifies fs
    ensures fs.Idle() && Sound(Now(fs), fs.g) && Remounted(d, Now(fs), fs.g)
  {
    hide HasAll, CrashSafe, Framed, RootWord, Consistent, Apart, Bootable, SameMeta, BitsTracked, Minfs.SameData, Mounted, TableSynced, Recovering,
         BitsSynced;
    fs.w, fs.seen := Wb(d, d), [d];
    BootableParts(d, fs.g);
    SelfFramed(d, fs.g);
    var n := 0;
    while n < |during|
      invariant 0 <= n <= |during| && fs.w.disk == fs.w.log && Bootable(fs.w.disk, fs.g) && Logged(fs.seen, fs.w.disk)
      invariant Recovering(d, TableOf(fs.w.disk, fs.g), fs.w.disk, fs.g)
    {
      ghost var was := fs.w.disk;
      ghost var _ := CutMount(fs, during[n]);
      BootableParts(fs.w.disk, fs.g);
      RecoveringOn(d, was, TableOf(fs.w.disk, fs.g), fs.w.disk, fs.g);
      n := n + 1;
    }
    ghost var last := fs.w.disk;
    BootableParts(last, fs.g);
    var rc := fs.Mount();
    MountedIs(last, fs.g, fs.table, fs.w.disk);
    RecoveringOn(d, last, fs.table, fs.w.disk, fs.g);
    RecoveringIs(d, Now(fs), fs.g);
  }

  lemma RecoveringIs(d: Disk, s': Snap, g: Geo)
    requires Recovering(d, s'.table, s'.w.disk, g) && s'.state == CLEAN && s'.w.disk == s'.w.log
    ensures Remounted(d, s', g)
  {
  }

  lemma MountedIs(d: Disk, g: Geo, t: Table, d': Disk)
    requires GeoOk(g) && HasAll(d, g) && Mounted(d, g, t) && |t| == g.n * NODE_WORDS && TableSynced(d', t) && Minfs.SameData(d, d')
    ensures t[0] == WordAt(d, 0) == WordAt(d', 0) && Recovering(d, t, d', g)
  {
    assert StateOf(d) == DIRTY ==> Word(t, 0, 0) == RecoveredWord(TableOf(d, g), g.n, g.nb, 0, 0);
    assert TableOf(d, g)[0] == WordAt(d, 0);
    forall b | 0 <= b < g.nb ensures HoldsBlock(d, d', b) { assert DataLba(b) in d; }
  }

  // ----- whole lives --------------------------------------------------------------------------------

  /** Acts leave the root's first word alone. */
  lemma RootSpared(a: Act, s: Snap, g: Geo, d: Disk)
    requires Sound(s, g) && Framed(FrameOf(a, s, g), d)
    ensures FrameOf(a, s, g).x != 0 && WordAt(d, 0) == s.table[0]
  {
    hide DirWord, FileWord, Consistent, Apart, HasAll, UsedWord;
    var f := FrameOf(a, s, g);
    RootNot(a, s.table, g.n);
    assert Foreign(f.t0, f.x, 0, 0);
    assert TableOf(s.w.log, g)[0] == WordAt(s.w.log, 0);
    assert Word(TableOf(d, g), 0, 0) == TableOf(d, g)[0] == WordAt(d, 0);
  }

  lemma RootNot(a: Act, t: Table, n: nat)
    requires |t| == n * NODE_WORDS && n > 0 && !FileWord(t[0])
    ensures Target(a, t, n) != 0
  {
  }

  lemma DoneRoot(a: Act, s: Snap, s': Snap, g: Geo)
    requires Sound(s, g) && Done(a, s, s', g)
    ensures s'.table[0] == s.table[0] == WordAt(s'.w.log, 0)
  {
    hide DirWord, FileWord, Consistent, Apart, HasAll, UsedWord, Own, LeavesMarker, Framed;
    var f := FrameOf(a, s, g);
    RootSpared(a, s, g, s'.w.log);
    assert Foreign(f.t0, f.x, 0, 0);
    assert Word(s'.table, 0, 0) == Word(s.table, 0, 0);
  }

  /** The disk as the power failure finds it: after k sectors were written, or after all of them. */
  method Fail(fs: Minfs, from: nat, k: nat, ghost f: Frame) returns (d: Disk)
    requires AllGood(f, fs.seen, from) && Live(f, fs.w) && 0 < from && Logged(fs.seen, fs.w.disk) && Found(f, fs.seen[from - 1])
    ensures Found(f, d)
    ensures d == if from - 1 + k < |fs.seen| then fs.seen[from - 1 + k] else fs.seen[|fs.seen| - 1]
  {
    hide Consistent, Apart, HasAll, CrashSafe, Framed;
    if from - 1 + k < |fs.seen| { return fs.seen[from - 1 + k]; }
    assert Mixed(fs.w.disk, fs.w.log, fs.w.disk);
    LiveMixed(f, fs.w, fs.w.disk);
    return fs.w.disk;
  }

  lemma LastLogged(seen: seq<Disk>, d: Disk)
    requires Logged(seen, d)
    ensures seen != [] && seen[|seen| - 1] == d
  {
  }

  /** A power failure before the act has written anything. */
  lemma FoundAtOnce(fs: Minfs, a: Act)
    requires fs.Idle() && Sound(Now(fs), fs.g)
    ensures Found(FrameOf(a, Now(fs), fs.g), fs.w.disk)
  {
    hide Consistent, Apart, HasAll, CrashSafe, Framed, RootWord, SameMeta, BitsTracked, TableSynced, BitsSynced, Target;
    var f := FrameOf(a, Now(fs), fs.g);
    assert fs.StartsAs(f);
    fs.StartLive(f);
    assert Mixed(fs.w.disk, fs.w.log, fs.w.disk);
    LiveMixed(f, fs.w, fs.w.disk);
  }

  /** One step of a life: an act, and perhaps a power failure at any moment of it and the mounts after that. */
  method Take(fs: Minfs, step: Step)
    requires fs.Idle() && Sound(Now(fs), fs.g)
    modifies fs
    ensures fs.Idle() && Sound(Now(fs), fs.g) && SoundNext(step, old(Now(fs)), Now(fs), fs.g)
  {
    hide HasAll, CrashSafe, Framed, RootWord, Consistent, Apart, Bootable, SameMeta, BitsTracked, TableSynced, BitsSynced, AllGood, Live,
         OthersSame, LeavesMarker, Own, Remounted, Target, Logged;
    ghost var s := Now(fs);
    var from := |fs.seen|;
    FoundAtOnce(fs, step.act);
    Perform(fs, step.act);
    LastLogged(old(fs.seen), s.w.disk);
    ghost var f := FrameOf(step.act, s, fs.g);
    if step.crash.CrashAt? {
      var d := Fail(fs, from, step.crash.k, f);
      RootSpared(step.act, s, fs.g, d);
      BootableNow(d, fs.g);
      Reboot(fs, d, step.crash.during);
    } else {
      DoneRoot(step.act, s, Now(fs), fs.g);
    }
  }

  lemma BootableNow(d: Disk, g: Geo)
    requires GeoOk(g) && HasAll(d, g) && CrashSafe(d, g) && RootWord(WordAt(d, 0))
    ensures Bootable(d, g)
  {
  }

  /**
   A whole life: any acts in any order, with power failures at any moment of any of them and of
   the mounts that follow. Every state is sound, every mount found the root, and each step did
   what its act, or a mount of a disk that the act can leave, does.
   */
  method Run(fs: Minfs, steps: seq<Step>) returns (ghost states: seq<Snap>)
    requires fs.Idle() && Sound(Now(fs), fs.g)
    modifies fs
    ensures fs.Idle() && Life(steps, states, fs.g) && states[0] == old(Now(fs)) && states[|steps|] == Now(fs)
  {
    hide Sound, SoundNext, Minfs.Idle;
    states := [Now(fs)];
    var n := 0;
    while n < |steps|
      invariant 0 <= n <= |steps| && fs.Idle() && Sound(Now(fs), fs.g)
      invariant Life(steps[..n], states, fs.g) && states[0] == old(Now(fs)) && states[n] == Now(fs)
    {
      Take(fs, steps[n]);
      LifeSnoc(steps[..n], states, fs.g, steps[n], Now(fs));
      assert steps[..n] + [steps[n]] == steps[..n + 1];
      states := states + [Now(fs)];
      n := n + 1;
    }
    assert steps[..n] == steps;
  }

  lemma LifeSnoc(steps: seq<Step>, states: seq<Snap>, g: Geo, step: Step, s: Snap)
    requires Life(steps, states, g) && Sound(s, g) && SoundNext(step, states[|steps|], s, g)
    ensures Life(steps + [step], states + [s], g)
  {
    hide Sound, SoundNext;
    var steps', states' := steps + [step], states + [s];
    forall n | 0 <= n < |steps'| ensures SoundNext(steps'[n], states'[n], states'[n + 1], g) {
      if n < |steps| { assert SoundNext(steps[n], states[n], states[n + 1], g); }
    }
  }

  lemma LifeAt(steps: seq<Step>, states: seq<Snap>, g: Geo, n: nat)
    requires Life(steps, states, g) && n < |steps|
    ensures Sound(states[n], g) && Next(steps[n], states[n], states[n + 1], g) && Sound(states[n + 1], g)
  {
    hide Sound, Next;
    assert SoundNext(steps[n], states[n], states[n + 1], g);
  }

  // ----- the marker that sticks ---------------------------------------------------------------------

  /** Step n failed under the marker and nobody has mounted the filesystem since. */
  ghost predicate Stuck(steps: seq<Step>, states: seq<Snap>, g: Geo, n: nat)
    requires Life(steps, states, g) && n < |steps|
  {
    LeavesMarker(steps[n].act, states[n], g) && forall m :: n <= m < |steps| ==> steps[m].crash.NoCrash?
  }

  /**
   The marker is set at the end of a life if and only if it was at the start, or some act failed
   under it, and there was no power failure since: successful acts do not clear it, a mount does.
   */
  lemma {:induction false} MarkerSticks(steps: seq<Step>, states: seq<Snap>, g: Geo)
    requires Life(steps, states, g)
    ensures states[|steps|].state == DIRTY <==>
      || (states[0].state == DIRTY && forall m :: 0 <= m < |steps| ==> steps[m].crash.NoCrash?)
      || exists n :: 0 <= n < |steps| && Stuck(steps, states, g, n)
    decreases |steps|
  {
    hide Sound, SoundNext, Next, LeavesMarker;
    LifeShapes(steps, states, g);
    if steps != [] {
      var l := |steps| - 1;
      var before, earlier := steps[..l], states[..l + 1];
      LifeFront(steps, states, g);
      MarkerSticks(before, earlier, g);
      LifeAt(steps, states, g, l);
      MarkerNext(steps[l], states[l], states[l + 1], g);
      if steps[l].crash.NoCrash? {
        forall n | 0 <= n < l ensures Stuck(steps, states, g, n) == Stuck(before, earlier, g, n) { }
        MarkerStep(steps, states, g, before, earlier);
        assert Stuck(steps, states, g, l) == LeavesMarker(steps[l].act, states[l], g);
      } else {
        assert forall n :: 0 <= n < |steps| ==> !Stuck(steps, states, g, n);
      }
    }
  }

  lemma MarkerStep(steps: seq<Step>, states: seq<Snap>, g: Geo, before: seq<Step>, earlier: seq<Snap>)
    requires Life(steps, states, g) && Life(before, earlier, g) && |before| + 1 == |steps|
    requires forall n :: 0 <= n < |before| ==> Stuck(steps, states, g, n) == Stuck(before, earlier, g, n)
    ensures (exists n :: 0 <= n < |steps| && Stuck(steps, states, g, n)) <==>
      (Stuck(steps, states, g, |before|) || exists n :: 0 <= n < |before| && Stuck(before, earlier, g, n))
  {
    hide Stuck, Life;
  }

  lemma MarkerNext(step: Step, s: Snap, s': Snap, g: Geo)
    requires |s.table| == g.n * NODE_WORDS && g.n > 0 && g.nb <= |s.bitmap| && Next(step, s, s', g)
    ensures if step.crash.CrashAt? then s'.state == CLEAN else s'.state == DIRTY <==> s.state == DIRTY || LeavesMarker(step.act, s, g)
  {
    hide LeavesMarker, OthersSame, Live, Own, Target, FrameOf, Found, HalfRecovered;
  }

  lemma LifeFront(steps: seq<Step>, states: seq<Snap>, g: Geo)
    requires Life(steps, states, g) && steps != []
    ensures Life(steps[..|steps| - 1], states[..|steps|], g)
  {
    hide Sound, SoundNext;
    var before, earlier := steps[..|steps| - 1], states[..|steps|];
    forall n | 0 <= n < |before| ensures SoundNext(before[n], earlier[n], earlier[n + 1], g) {
      assert SoundNext(steps[n], states[n], states[n + 1], g);
    }
  }

  /** One file without blocks on a device whose only block is marked. */
  function EmptyFile(): (t: Table)
    ensures |t| == NODE_WORDS && t[0] == 1 + 256 && Word(t, 0, SIZE) == 0 && Word(t, 0, COUNT) == 0
    ensures forall j :: 0 <= j < DIRECT ==> t[Pos(0, j)] == NONE
  {
    seq(NODE_WORDS, w => if w == 0 then 1 + 256 else if w < FIRST_DIRECT then 0 else NONE)
  }

  /** Storing one byte there is an ordinary failure, disk full, and leaves the marker set. */
  lemma FullDiskSticks(w: Wb<Lba, Sector>)
    ensures var s := Snap(EmptyFile(), [true], CLEAN, w);
      Consistent(s.table, 1, 1, s.bitmap) && LeavesMarker(WriteAct(0, 0, [7]), s, Geo(1, 1, 2, 1))
  {
    assert IsFile(EmptyFile(), 1, 0);
    assert Minfs.BlocksFor(1) == 1 && FreeBlocks([true], 1) == 0 by { assert FreeBlocks([true], 0) == 0; }
  }

  // ----- files that live on ------------------------------------------------------------------------

  /** File i is in order: rightly counted, in step with the cache, and its blocks are on the disk as in the cache. */
  ghost predicate Steady(s: Snap, g: Geo, i: nat) { Holds(s.table, s.w.log, g, i, s.table, s.w) }

  /** The file reads the same: its size and every byte. */
  ghost predicate SameFile(s: Snap, s': Snap, i: nat) {
    && (i + 1) * NODE_WORDS <= |s.table| == |s'.table| && Word(s'.table, i, SIZE) == Word(s.table, i, SIZE)
    && forall off: nat :: FileByte(s'.table, s'.w.log, i, off) == FileByte(s.table, s.w.log, i, off)
  }

  lemma FrameBegun(a: Act, s: Snap, g: Geo, i: nat)
    requires Sound(s, g) && Spares(FrameOf(a, s, g), i)
    ensures Begun(FrameOf(a, s, g)) && i != FrameOf(a, s, g).x
  {
    hide Consistent, Apart, NoStaleClaim, HasAll, Target, RootWord;
  }

  /** One step that spares file i, whether or not the power fails in it. */
  lemma HoldsOn(t0: Table, d0: Disk, i: nat, step: Step, s: Snap, s': Snap, g: Geo)
    requires Sound(s, g) && Next(step, s, s', g) && Sound(s', g)
    requires Holds(t0, d0, g, i, s.table, s.w) && Spares(FrameOf(step.act, s, g), i)
    ensures Holds(t0, d0, g, i, s'.table, s'.w)
  {
    hide Consistent, Apart, HasAll, CrashSafe, Framed, Holds, Begun, Spares, OnDisk, Live, OthersSame, Own, LeavesMarker,
      Target, RootWord, TableSynced;
    var f := FrameOf(step.act, s, g);
    FrameBegun(step.act, s, g, i);
    if step.crash.NoCrash? {
      ActHolds(t0, d0, i, f, s'.table, s'.w);
    } else {
      var d :| Found(f, d) && Remounted(d, s', g);
      CrashHolds(t0, d0, i, f, d);
      MountHolds(t0, d0, g, i, d, s');
    }
  }

  lemma {:induction false} LifeHolds(steps: seq<Step>, states: seq<Snap>, g: Geo, i: nat, n: nat)
    requires Life(steps, states, g) && n <= |steps| && Steady(states[0], g, i)
    requires forall m :: 0 <= m < n ==> Spares(FrameOf(steps[m].act, states[m], g), i)
    ensures Holds(states[0].table, states[0].w.log, g, i, states[n].table, states[n].w)
  {
    hide Holds, Spares, Sound, Next, FrameOf;
    if n > 0 {
      LifeHolds(steps, states, g, i, n - 1);
      LifeAt(steps, states, g, n - 1);
      SoundShape(states[n - 1], g);
      HoldsOn(states[0].table, states[0].w.log, i, steps[n - 1], states[n - 1], states[n], g);
    }
  }

  lemma SoundShape(s: Snap, g: Geo)
    requires Sound(s, g)
    ensures |s.table| == g.n * NODE_WORDS && g.n > 0 && g.nb <= |s.bitmap|
  {
  }

  /** A steady file that every act of a life spares has its record and every byte at the end, in the cache and on the disk. */
  lemma FileLivesOn(steps: seq<Step>, states: seq<Snap>, g: Geo, i: nat)
    requires Life(steps, states, g) && Steady(states[0], g, i)
    requires forall m :: 0 <= m < |steps| ==> Spares(FrameOf(steps[m].act, states[m], g), i)
    ensures Steady(states[|steps|], g, i) && SameFile(states[0], states[|steps|], i)
  {
    hide Holds, Spares, FrameOf, Next, FileByte, Apart, HasAll, TableSynced, RootWord, SoundNext;
    var s, s' := states[0], states[|steps|];
    LifeHolds(steps, states, g, i, |steps|);
    HeldFile(s.table, s.w.log, g, i, s'.table, s'.w, s'.bitmap);
    forall off: nat ensures FileByte(s'.table, s'.w.log, i, off) == FileByte(s.table, s.w.log, i, off) {
      HeldBytes(s.table, s.w.log, g, i, s'.table, s'.w, off);
    }
  }

  lemma HeldFile(t0: Table, d0: Disk, g: Geo, i: nat, t: Table, w: Wb<Lba, Sector>, bits: seq<bool>)
    requires Holds(t0, d0, g, i, t, w) && Consistent(t, g.n, g.nb, bits)
    ensures Holds(t, w.log, g, i, t, w) && Word(t, i, SIZE) == Word(t0, i, SIZE) && (i + 1) * NODE_WORDS <= |t0| == |t|
  {
    hide WellCounted;
    SameRecordCounted(t0, t, g.n, g.nb, i);
    assert Word(t, i, 0) == Word(t0, i, 0);
    assert forall j :: Ref(t, g.n, g.nb, i, j) ==> Ref(t0, g.n, g.nb, i, j) && t[Pos(i, j)] == t0[Pos(i, j)];
    assert forall j :: Ref(t, g.n, g.nb, i, j) ==> HoldsBlock(d0, w.disk, t[Pos(i, j)]) && HoldsBlock(d0, w.log, t[Pos(i, j)]);
  }

  /** The act is given node i. */
  predicate Names(a: Act, i: nat) { !a.CreateAct? && a.x == i }

  /** Acts on files need no condition on the state: they never have stale words. */
  lemma FileActSpares(a: Act, s: Snap, g: Geo, i: nat)
    requires Sound(s, g) && (a.WriteAct? || a.TruncateAct?) && a.x != i && i < g.n
    ensures Spares(FrameOf(a, s, g), i)
  {
    hide Consistent, Apart, HasAll, NoStaleClaim, RootWord;
    var f := FrameOf(a, s, g);
    if f.x < g.n { FilesNotStale(f.l0, f.t0, g.n, g.nb, s.bitmap, f.x); }
  }

  /** Writing and truncating other files, with power failures anywhere, never costs a steady file a byte. */
  lemma OverwritesSpare(steps: seq<Step>, states: seq<Snap>, g: Geo, i: nat)
    requires Life(steps, states, g) && Steady(states[0], g, i)
    requires forall m :: 0 <= m < |steps| ==> (steps[m].act.WriteAct? || steps[m].act.TruncateAct?) && steps[m].act.x != i
    ensures Steady(states[|steps|], g, i) && SameFile(states[0], states[|steps|], i)
  {
    hide Spares, FrameOf, SameFile, SoundNext, Next, Consistent, Apart, HasAll, TableSynced, RootWord;
    assert i < g.n by { SteadyIn(states[0], g, i); }
    forall m | 0 <= m < |steps| ensures Spares(FrameOf(steps[m].act, states[m], g), i) {
      SoundShape(states[m], g);
      FileActSpares(steps[m].act, states[m], g, i);
    }
    FileLivesOn(steps, states, g, i);
  }

  lemma SteadyIn(s: Snap, g: Geo, i: nat)
    requires Steady(s, g, i)
    ensures i < g.n && |s.table| == g.n * NODE_WORDS && IsFile(s.table, g.n, i)
  {
  }

  // ----- records without leftovers ------------------------------------------------------------------

  /** The direct words of record i, in memory and in the cache, name no block. */
  ghost predicate Bare(l: Table, t: Table, n: nat, i: nat)
    requires |l| == |t| == n * NODE_WORDS && i < n
  {
    forall j :: 0 <= j < DIRECT ==> t[Pos(i, j)] == NONE && l[Pos(i, j)] == NONE
  }

  /** No record but those of files has block numbers left over: directories, and with `free` also records that are not in use. */
  ghost predicate Tidy(l: Table, t: Table, n: nat, free: bool)
    requires |l| == |t| == n * NODE_WORDS
  {
    forall i :: 0 <= i < n && !IsFile(t, n, i) && (free || UsedWord(Word(t, i, 0)) || UsedWord(Word(l, i, 0))) ==> Bare(l, t, n, i)
  }

  ghost predicate TidySnap(s: Snap, g: Geo, free: bool)
    requires |s.table| == g.n * NODE_WORDS
  {
    Tidy(TableOf(s.w.log, g), s.table, g.n, free)
  }

  /** In a tidy state every act that does not name file i spares it; a create needs the free records tidy as well. */
  lemma TidySpares(a: Act, s: Snap, g: Geo, free: bool, i: nat)
    requires Sound(s, g) && TidySnap(s, g, free) && (a.CreateAct? ==> free) && !Names(a, i) && IsFile(s.table, g.n, i)
    ensures Spares(FrameOf(a, s, g), i)
  {
    hide Consistent, Apart, HasAll, NoStaleClaim, RootWord, DirWord, Children;
    var f := FrameOf(a, s, g);
    if f.x < g.n {
      assert IsFile(s.table, g.n, i) && Word(s.table, i, 0) == s.table[i * NODE_WORDS];
      if IsFile(f.t0, g.n, f.x) {
        FilesNotStale(f.l0, f.t0, g.n, g.nb, s.bitmap, f.x);
      } else {
        assert Bare(f.l0, f.t0, g.n, f.x);
        BareNotStale(f.l0, f.t0, g.n, g.nb, f.x);
      }
    }
  }

  lemma BareNotStale(l: Table, t: Table, n: nat, nb: nat, x: nat)
    requires |l| == |t| == n * NODE_WORDS && x < n && nb <= NONE && Bare(l, t, n, x)
    ensures NoStaleClaim(l, t, n, nb, x)
  {
  }

  /** A record other than the act's own stays bare: in memory (t) and wherever the frame holds (u). */
  lemma ForeignBare(f: Frame, u: Table, i: nat, free: bool)
    requires !f.rec && TableFramed(f, u) && i < f.g.n && i != f.x && Apart(f.l0, f.t0, f.g.n, f.g.nb, f.bits0) && Tidy(f.l0, f.t0, f.g.n, free)
    ensures IsFile(u, f.g.n, i) == IsFile(f.t0, f.g.n, i)
    ensures !IsFile(u, f.g.n, i) && (free || UsedWord(Word(u, i, 0))) ==> Bare(f.l0, f.t0, f.g.n, i) && Bare(u, u, f.g.n, i)
  {
    hide UsedWord, FileWord;
    assert Foreign(f.t0, f.x, i, 0);
    assert Word(u, i, 0) == u[i * NODE_WORDS] && Word(f.t0, i, 0) == f.t0[i * NODE_WORDS] && Word(f.l0, i, 0) == f.l0[i * NODE_WORDS];
    assert IsFile(f.l0, f.g.n, i) == IsFile(f.t0, f.g.n, i);
    forall j | 0 <= j < DIRECT && !IsFile(u, f.g.n, i) && (free || UsedWord(Word(u, i, 0))) ensures u[Pos(i, j)] == NONE {
      assert Bare(f.l0, f.t0, f.g.n, i);
      assert Foreign(f.t0, f.x, i, FIRST_DIRECT + j);
      assert Word(u, i, FIRST_DIRECT + j) == u[Pos(i, j)];
    }
  }

  /** A disk found after a power failure is tidy, unless the act was unlinking a file: then a record not in use may have leftovers. */
  lemma FoundTidy(a: Act, s: Snap, g: Geo, free: bool, d: Disk)
    requires Sound(s, g) && TidySnap(s, g, free) && (a.CreateAct? ==> free) && Framed(FrameOf(a, s, g), d)
    ensures Tidy(TableOf(d, g), TableOf(d, g), g.n, free && !a.UnlinkAct?)
  {
    hide Consistent, Apart, HasAll, RootWord, DirWord, Children, DataFramed, Tidy, Bare;
    var f, u := FrameOf(a, s, g), TableOf(d, g);
    var free' := free && !a.UnlinkAct?;
    forall i | 0 <= i < g.n && !IsFile(u, g.n, i) && (free' || UsedWord(Word(u, i, 0))) ensures Bare(u, u, g.n, i) {
      if i != f.x { ForeignBare(f, u, i, free); } else { OwnTidy(a, s, g, free, u); }
    }
    TidyIs(u, g.n, free');
  }

  lemma TidyIs(u: Table, n: nat, free: bool)
    requires |u| == n * NODE_WORDS
    requires forall i :: 0 <= i < n && !IsFile(u, n, i) && (free || UsedWord(Word(u, i, 0))) ==> Bare(u, u, n, i)
    ensures Tidy(u, u, n, free)
  {
  }

  lemma OwnTidy(a: Act, s: Snap, g: Geo, free: bool, u: Table)
    requires Sound(s, g) && TidySnap(s, g, free) && (a.CreateAct? ==> free) && TableFramed(FrameOf(a, s, g), u) && FrameOf(a, s, g).x < g.n
    requires !IsFile(u, g.n, FrameOf(a, s, g).x) && ((free && !a.UnlinkAct?) || UsedWord(Word(u, FrameOf(a, s, g).x, 0)))
    ensures Bare(u, u, g.n, FrameOf(a, s, g).x)
  {
    hide Consistent, HasAll, RootWord, DirWord, Children;
    var f := FrameOf(a, s, g);
    var x := f.x;
    assert OwnWord(f, u[x * NODE_WORDS]) && IsFile(f.l0, g.n, x) == IsFile(f.t0, g.n, x);
    assert Word(u, x, 0) == u[x * NODE_WORDS] && Word(f.t0, x, 0) == f.t0[x * NODE_WORDS];
    assert a.CreateAct? || a.UnlinkAct?;
    assert Bare(f.l0, f.t0, g.n, x);
    forall j | 0 <= j < DIRECT ensures u[Pos(x, j)] == NONE { assert OwnRef(f, j, u[Pos(x, j)]); }
  }

  /** Tidiness survives every step, but free records may have leftovers after an unlink that was cut short. */
  lemma TidyOn(step: Step, s: Snap, s': Snap, g: Geo, free: bool)
    requires Sound(s, g) && Next(step, s, s', g) && Sound(s', g) && TidySnap(s, g, free) && (step.act.CreateAct? ==> free)
    ensures TidySnap(s', g, free && !CutUnlink(step))
  {
    hide Consistent, Apart, HasAll, CrashSafe, Framed, Live, OthersSame, Own, LeavesMarker, Target, RootWord, TableSynced, Tidy, HalfRecovered;
    if step.crash.NoCrash? {
      DoneTidy(step.act, s, s', g, free);
    } else {
      var d :| Found(FrameOf(step.act, s, g), d) && Remounted(d, s', g);
      FoundTidy(step.act, s, g, free, d);
      RecoveredTidy(TableOf(d, g), s'.table, g.n, g.nb, free && !step.act.UnlinkAct?);
      SyncedLog(s'.w.log, g, s'.table);
    }
  }

  predicate CutUnlink(step: Step) { step.act.UnlinkAct? && step.crash.CrashAt? }

  lemma SyncedLog(d: Disk, g: Geo, t: Table)
    requires TableSynced(d, t) && |t| == g.n * NODE_WORDS
    ensures TableOf(d, g) == t
  {
  }

  /** Recovery leaves records alone that are not files. */
  lemma RecoveredTidy(u: Table, t: Table, n: nat, nb: nat, free: bool)
    requires |u| == |t| == n * NODE_WORDS && HalfRecovered(u, t, n, nb) && Tidy(u, u, n, free)
    ensures Tidy(t, t, n, free)
  {
    hide Kept, KeptCount, UsedWord, FileWord, DirWord;
    forall i | 0 <= i < n && !IsFile(t, n, i) && (free || UsedWord(Word(t, i, 0))) ensures Bare(t, t, n, i) {
      assert Word(t, i, 0) == Word(u, i, 0);
      assert Word(u, i, 0) == u[i * NODE_WORDS] && Word(t, i, 0) == t[i * NODE_WORDS];
      assert Bare(u, u, n, i);
      forall j | 0 <= j < DIRECT ensures t[Pos(i, j)] == NONE { assert Word(t, i, FIRST_DIRECT + j) == t[Pos(i, j)]; }
    }
    TidyIs(t, n, free);
  }

  /** An act that was not cut short. */
  lemma DoneTidy(a: Act, s: Snap, s': Snap, g: Geo, free: bool)
    requires Sound(s, g) && Done(a, s, s', g) && Sound(s', g) && TidySnap(s, g, free) && (a.CreateAct? ==> free)
    ensures TidySnap(s', g, free)
  {
    hide Consistent, HasAll, RootWord, DirWord, Children, DataFramed, LeavesMarker, Own, UsedWord, FileWord, TableSynced, Target, CrashSafe;
    var f, l, t := FrameOf(a, s, g), TableOf(s'.w.log, g), s'.table;
    assert TableFramed(f, l);
    forall i | 0 <= i < g.n && !IsFile(t, g.n, i) && (free || UsedWord(Word(t, i, 0)) || UsedWord(Word(l, i, 0))) ensures Bare(l, t, g.n, i) {
      if i != f.x { DoneForeign(f, l, t, i, free); } else { DoneOwn(a, s, s', g, free); }
    }
  }

  lemma DoneForeign(f: Frame, l: Table, t: Table, i: nat, free: bool)
    requires !f.rec && TableFramed(f, l) && OthersSame(f, t) && i < f.g.n && i != f.x
    requires Apart(f.l0, f.t0, f.g.n, f.g.nb, f.bits0) && Tidy(f.l0, f.t0, f.g.n, free)
    requires !IsFile(t, f.g.n, i) && (free || UsedWord(Word(t, i, 0)) || UsedWord(Word(l, i, 0)))
    ensures Bare(l, t, f.g.n, i)
  {
    hide UsedWord, FileWord, Apart;
    assert Foreign(f.t0, f.x, i, 0);
    assert Word(t, i, 0) == Word(f.t0, i, 0) && Word(t, i, 0) == t[i * NODE_WORDS] && Word(f.t0, i, 0) == f.t0[i * NODE_WORDS];
    assert Bare(f.l0, f.t0, f.g.n, i);
    forall j | 0 <= j < DIRECT ensures t[Pos(i, j)] == NONE && l[Pos(i, j)] == NONE {
      assert Foreign(f.t0, f.x, i, FIRST_DIRECT + j);
      assert Word(t, i, FIRST_DIRECT + j) == t[Pos(i, j)] && Word(l, i, FIRST_DIRECT + j) == l[Pos(i, j)];
    }
  }

  lemma DoneOwn(a: Act, s: Snap, s': Snap, g: Geo, free: bool)
    requires Sound(s, g) && Done(a, s, s', g) && TidySnap(s, g, free) && (a.CreateAct? ==> free) && FrameOf(a, s, g).x < g.n
    ensures IsFile(s'.table, g.n, FrameOf(a, s, g).x) || Bare(TableOf(s'.w.log, g), s'.table, g.n, FrameOf(a, s, g).x)
  {
    hide Consistent, Apart, HasAll, RootWord, DirWord, Children, DataFramed, LeavesMarker, WrittenTo, FreeBlocks,
      Minfs.CanStore, Minfs.Grown, CrashSafe,
         Minfs.StillMarked;
    var f, l, t := FrameOf(a, s, g), TableOf(s'.w.log, g), s'.table;
    var x := f.x;
    assert TableFramed(f, l);
    if a.TruncateAct? { assert Word(t, x, 0) == Word(s.table, x, 0) && Word(t, x, 0) == t[x * NODE_WORDS]; }
    if a.UnlinkAct? {
      FreshBare(Minfs.SetRecord(s.table, x, Minfs.Blank()), t, g.n, x);
      SyncedLog(s'.w.log, g, t);
    }
    if a.CreateAct? && a.vnodeOk {
      FreshBare(Minfs.SetRecord(s.table, x, Minfs.Record(Minfs.NewWord(a.isFile), a.parent, a.name)), t, g.n, x);
      SyncedLog(s'.w.log, g, t);
    }
    if a.CreateAct? && !a.vnodeOk {
      assert Bare(f.l0, f.t0, g.n, x);
      forall j | 0 <= j < DIRECT ensures t[Pos(x, j)] == NONE && l[Pos(x, j)] == NONE {
        assert OwnRef(f, j, l[Pos(x, j)]);
        assert Word(t, x, FIRST_DIRECT + j) == t[Pos(x, j)];
      }
    }
  }

  lemma FreshBare(u: Table, t: Table, n: nat, x: nat)
    requires |u| == n * NODE_WORDS && x < n && IsRefreshed(u, t, n) && forall k :: FIRST_DIRECT <= k < NODE_WORDS ==> Word(u, x, k) == NONE
    ensures |t| == |u| && Bare(t, t, n, x)
  {
    forall j | 0 <= j < DIRECT ensures t[Pos(x, j)] == NONE { assert Word(t, x, FIRST_DIRECT + j) == Word(u, x, FIRST_DIRECT + j); }
  }

  /** No unlink among the first n steps was cut short. */
  ghost predicate Uncut(steps: seq<Step>, n: nat)
    requires n <= |steps|
  {
    forall m :: 0 <= m < n ==> !CutUnlink(steps[m])
  }

  /** No create comes after an unlink that a power failure cut short. */
  ghost predicate CreatesUncut(steps: seq<Step>) {
    forall n :: 0 <= n < |steps| && steps[n].act.CreateAct? ==> Uncut(steps, n)
  }

  lemma {:induction false} LifeTidy(steps: seq<Step>, states: seq<Snap>, g: Geo, n: nat)
    requires Life(steps, states, g) && n <= |steps| && CreatesUncut(steps) && TidySnap(states[0], g, true)
    ensures |states[n].table| == g.n * NODE_WORDS && TidySnap(states[n], g, Uncut(steps, n))
  {
    hide Tidy, Sound, Next, CutUnlink;
    SoundShape(states[n], g);
    if n > 0 {
      LifeTidy(steps, states, g, n - 1);
      LifeAt(steps, states, g, n - 1);
      TidyOn(steps[n - 1], states[n - 1], states[n], g, Uncut(steps, n - 1));
      assert Uncut(steps, n) == (Uncut(steps, n - 1) && !CutUnlink(steps[n - 1]));
    }
  }

  /**
   The whole-life theorem in terms of the acts alone. From a filesystem without leftovers, such
   as a freshly formatted one, let any acts happen in any order with any power failures, except
   that nothing is created after an unlink was cut short: every steady file that no act names has
   its record and every byte at the end.
   */
  lemma {:induction false} OthersLiveOn(steps: seq<Step>, states: seq<Snap>, g: Geo, i: nat)
    requires Life(steps, states, g) && Steady(states[0], g, i) && TidySnap(states[0], g, true)
    requires CreatesUncut(steps) && forall m :: 0 <= m < |steps| ==> !Names(steps[m].act, i)
    ensures Steady(states[|steps|], g, i) && SameFile(states[0], states[|steps|], i)
  {
    hide Sound, Spares, FrameOf, Holds, Tidy, SameFile, Next;
    LifeShapes(steps, states, g);
    AllSpared(steps, states, g, i, |steps|);
    FileLivesOn(steps, states, g, i);
  }

  lemma LifeShapes(steps: seq<Step>, states: seq<Snap>, g: Geo)
    requires Life(steps, states, g)
    ensures g.n > 0 && forall m :: 0 <= m < |states| ==> |states[m].table| == g.n * NODE_WORDS && g.nb <= |states[m].bitmap|
  {
    hide Consistent, Apart, HasAll, TableSynced, RootWord, SoundNext;
    assert Sound(states[0], g);
  }

  lemma {:induction false} AllSpared(steps: seq<Step>, states: seq<Snap>, g: Geo, i: nat, n: nat)
    requires Life(steps, states, g) && n <= |steps| && Steady(states[0], g, i) && TidySnap(states[0], g, true)
    requires CreatesUncut(steps) && forall m :: 0 <= m < |steps| ==> !Names(steps[m].act, i)
    requires forall m :: 0 <= m < |states| ==> |states[m].table| == g.n * NODE_WORDS && g.n > 0
    ensures forall m :: 0 <= m < n ==> Spares(FrameOf(steps[m].act, states[m], g), i)
  {
    hide Sound, Spares, FrameOf, Holds, Tidy, Next;
    if n > 0 {
      AllSpared(steps, states, g, i, n - 1);
      LifeHolds(steps, states, g, i, n - 1);
      StillFile(states[0].table, states[0].w.log, g, i, states[n - 1].table, states[n - 1].w);
      LifeTidy(steps, states, g, n - 1);
      LifeAt(steps, states, g, n - 1);
      TidySpares(steps[n - 1].act, states[n - 1], g, Uncut(steps, n - 1), i);
    }
  }

  lemma StillFile(t0: Table, d0: Disk, g: Geo, i: nat, t: Table, w: Wb<Lba, Sector>)
    requires Holds(t0, d0, g, i, t, w) && |t| == g.n * NODE_WORDS
    ensures IsFile(t, g.n, i)
  {
    assert Word(t, i, 0) == Word(t0, i, 0);
  }

  /** The table that minfs_format writes: blank records, and the root directory in the first. */
  function FormattedTable(n: nat): (t: Table)
    ensures |t| == n * NODE_WORDS
  {
    seq(n * NODE_WORDS, w requires 0 <= w =>
      if w == 0 then Minfs.NewWord(false) else if w == NAME then 47
      else if w % NODE_WORDS == PARENT || w % NODE_WORDS >= FIRST_DIRECT then NONE else 0)
  }

  /** It is consistent with any bitmap, has the root and no file, and no record has leftovers. */
  lemma FormatTidy(n: nat, nb: nat, bits: seq<bool>)
    requires n > 0 && nb <= |bits|
    ensures var t := FormattedTable(n); Consistent(t, n, nb, bits) && RootWord(t[0]) && Tidy(t, t, n, true)
    ensures forall i :: 0 < i < n ==> !UsedWord(Word(FormattedTable(n), i, 0))
  {
    var t := FormattedTable(n);
    forall i | 0 <= i < n ensures !IsFile(t, n, i) && (i > 0 ==> !UsedWord(Word(t, i, 0))) && Bare(t, t, n, i) {
      assert i * NODE_WORDS % NODE_WORDS == 0;
      forall j | 0 <= j < DIRECT ensures t[Pos(i, j)] == NONE { assert Pos(i, j) % NODE_WORDS == FIRST_DIRECT + j; }
    }
  }
}
