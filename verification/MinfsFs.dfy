/**
 minfs at work (kernel/minfs.c): the in-memory table and bitmap, the DIRTY/CLEAN marker and the
 operations, on a device that may write any cached sector back at any time. `seen` is the
 sequence of all disks there ever were; each operation says what holds of every one it added.
 */
module MinfsFs {
  import opened WriteBack
  import opened MinfsTable
  import opened MinfsDisk
  import opened MinfsCrash

  /** The image of table sector s. */
  function SectorOf(t: Table, s: nat): (words: seq<nat>)
    ensures |words| == SECTOR_WORDS
    ensures forall q :: 0 <= q < SECTOR_WORDS && s * SECTOR_WORDS + q < |t| ==> words[q] == t[s * SECTOR_WORDS + q]
  {
    seq(SECTOR_WORDS, q requires 0 <= q => if s * SECTOR_WORDS + q < |t| then t[s * SECTOR_WORDS + q] else 0)
  }

  ghost predicate HasAll(d: Disk, g: Geo) {
    && SuperLba in d
    && (forall s :: 0 <= s < g.ts ==> TableLba(s) in d)
    && (forall s :: 0 <= s < g.bs ==> BitmapLba(s) in d)
    && (forall b :: 0 <= b < g.nb ==> DataLba(b) in d && d[DataLba(b)].DataSec? && |d[DataLba(b)].bytes| == BLOCK_SIZE)
  }

  ghost predicate TableSynced(d: Disk, t: Table) { forall w :: 0 <= w < |t| ==> WordAt(d, w) == t[w] }
  ghost predicate BitsSynced(d: Disk, bits: seq<bool>) { forall b :: 0 <= b < |bits| ==> BitAt(d, b) == bits[b] }

  /** Sectors of the bitmap that are not marked for writing are on the device as in memory. */
  ghost predicate BitsTracked(d: Disk, bits: seq<bool>, bdirty: seq<bool>) {
    |bits| == |bdirty| * SECTOR_BITS &&
    forall b :: 0 <= b < |bits| && !bdirty[b / SECTOR_BITS] ==> BitAt(d, b) == bits[b]
  }

  ghost predicate DirtyBoth(w: Wb<Lba, Sector>) { StateOf(w.disk) == DIRTY == StateOf(w.log) }

  ghost predicate CleanMeta(w: Wb<Lba, Sector>, g: Geo) {
    && SameMeta(w.disk, w.log) && StateOf(w.disk) in {CLEAN, DIRTY} && StateOf(w.log) in {CLEAN, DIRTY}
    && Consistent(TableOf(w.disk, g), g.n, g.nb, BitsOf(w.disk, g))
  }

  /** During an operation: whatever is copied to the disk next, a crash after it is harmless. */
  ghost predicate Live(f: Frame, w: Wb<Lba, Sector>) {
    && w.disk.Keys == w.log.Keys && HasAll(w.disk, f.g) && HasAll(w.log, f.g) && Framed(f, w.disk) && Framed(f, w.log)
    && (DirtyBoth(w) || CleanMeta(w, f.g))
  }

  ghost predicate AllGood(f: Frame, seen: seq<Disk>, from: nat) {
    from <= |seen| && forall k :: from <= k < |seen| ==> HasAll(seen[k], f.g) && CrashSafe(seen[k], f.g) && Framed(f, seen[k])
  }

  /** At most one sector is different. */
  ghost predicate OneSector(a: Disk, b: Disk) {
    a.Keys == b.Keys && forall l, m :: l in a && m in a && a[l] != b[l] && a[m] != b[m] ==> l == m
  }

  /** The history of a disk is complete: it ends with the disk as it is, and from one to the next at most one sector was written. */
  ghost predicate Logged(seen: seq<Disk>, d: Disk) {
    && seen != [] && seen[|seen| - 1] == d
    && forall i, j :: 0 <= i && j == i + 1 < |seen| ==> OneSector(seen[i], seen[j])
  }

  lemma LoggedOn(seen: seq<Disk>, w: Wb<Lba, Sector>, l: Lba)
    requires Logged(seen, w.disk) && l in w.disk && l in w.log
    ensures Logged(seen + [Apply(w, Copy(l)).disk], Apply(w, Copy(l)).disk)
  {
    var d := Apply(w, Copy(l)).disk;
    var more := seen + [d];
    assert OneSector(w.disk, d);
    forall i, j | 0 <= i && j == i + 1 < |more| ensures OneSector(more[i], more[j]) {
      if j < |seen| { assert more[i] == seen[i] && more[j] == seen[j]; }
    }
  }

  /** History only grows. */
  ghost predicate Extends(a: seq<Disk>, b: seq<Disk>) {
    |a| <= |b| && forall i :: 0 <= i < |a| ==> b[i] == a[i]
  }

  lemma LiveMixed(f: Frame, w: Wb<Lba, Sector>, d: Disk)
    requires Live(f, w) && Mixed(w.disk, w.log, d)
    ensures HasAll(d, f.g) && CrashSafe(d, f.g) && Framed(f, d) && Live(f, Wb(d, w.log))
  {
    MixedFramed(f, w.disk, w.log, d);
    MixedParts(w.disk, w.log, d);
    if !DirtyBoth(w) {
      MixedSafe(w.disk, w.log, d, f.g);
      SameMetaTables(w.disk, d, f.g);
    }
  }

  // ----- single sectors ---------------------------------------------------------------------------

  lemma DataPutMeta(d: Disk, b: nat, sec: Sector)
    ensures SameMeta(d, d[DataLba(b) := sec]) && StateOf(d[DataLba(b) := sec]) == StateOf(d)
  {
  }

  lemma BitmapPutMeta(d: Disk, s: nat, bits: seq<bool>)
    requires |bits| == SECTOR_BITS
    ensures var d' := d[BitmapLba(s) := BitmapSec(bits)];
            && (forall w :: WordAt(d', w) == WordAt(d, w)) && StateOf(d') == StateOf(d)
            && (forall b: nat :: BitAt(d', b) == if b / SECTOR_BITS == s then bits[b % SECTOR_BITS] else BitAt(d, b))
  {
  }

  lemma TablePutMeta(d: Disk, s: nat, words: seq<nat>)
    requires |words| == SECTOR_WORDS
    ensures var d' := d[TableLba(s) := TableSec(words)];
            && (forall b :: BitAt(d', b) == BitAt(d, b)) && StateOf(d') == StateOf(d)
            && (forall w: nat :: WordAt(d', w) == if w / SECTOR_WORDS == s then words[w % SECTOR_WORDS] else WordAt(d, w))
  {
  }

  lemma SuperPutMeta(d: Disk, st: nat, q: nat)
    ensures var d' := d[SuperLba := SuperSec(st, q)]; SameMeta(d, d') && StateOf(d') == st
  {
  }

  lemma FramedSameTable(f: Frame, d: Disk, d': Disk)
    requires Framed(f, d) && (forall w :: WordAt(d', w) == WordAt(d, w))
    requires forall b :: DataLba(b) in d' ==> DataLba(b) in d && d'[DataLba(b)] == d[DataLba(b)]
    ensures Framed(f, d')
  {
    assert TableOf(d, f.g) == TableOf(d', f.g);
    forall b | ForeignBlock(f, b) ensures SameBlock(f, d', DataLba(b)) {
      assert SameBlock(f, d, DataLba(b));
    }
  }

  /** Writing a block that node x owns, or that was free, touches nobody else's. */
  lemma FramedData(f: Frame, d: Disk, b: nat, sec: Sector)
    requires Framed(f, d) && !ForeignBlock(f, b)
    ensures Framed(f, d[DataLba(b) := sec])
  {
    var d' := d[DataLba(b) := sec];
    DataPutMeta(d, b, sec);
    assert TableOf(d, f.g) == TableOf(d', f.g);
    forall c | ForeignBlock(f, c) ensures SameBlock(f, d', DataLba(c)) {
      assert SameBlock(f, d, DataLba(c));
    }
  }

  /** Writing table sectors from a table that respects the frame keeps the frame. */
  lemma FramedTable(f: Frame, d: Disk, s: nat, t: Table)
    requires Framed(f, d) && TableFits(f, t) && |t| == f.g.n * NODE_WORDS
    ensures Framed(f, d[TableLba(s) := TableSec(SectorOf(t, s))])
  {
    var d' := d[TableLba(s) := TableSec(SectorOf(t, s))];
    TablePutMeta(d, s, SectorOf(t, s));
    var a, b := TableOf(d, f.g), TableOf(d', f.g);
    forall w | 0 <= w < |b| ensures b[w] == if w / SECTOR_WORDS == s then t[w] else a[w] {
      assert w == (w / SECTOR_WORDS) * SECTOR_WORDS + w % SECTOR_WORDS;
    }
    forall x | 0 <= x && (x + 1) * NODE_WORDS <= |b| ensures Pair(b, x) == Pair(a, x) || Pair(b, x) == Pair(t, x) {
      SameSector(x);
      assert b[x * NODE_WORDS] == (if x * NODE_WORDS / SECTOR_WORDS == s then t[x * NODE_WORDS] else a[x * NODE_WORDS]);
      assert b[x * NODE_WORDS + PARENT] == (if x * NODE_WORDS / SECTOR_WORDS == s then t[x * NODE_WORDS + PARENT] else a[x * NODE_WORDS + PARENT]);
    }
    TableMixedFits(f, a, t, b);
    forall c | ForeignBlock(f, c) ensures SameBlock(f, d', DataLba(c)) {
      assert SameBlock(f, d, DataLba(c));
    }
  }

  const MAX_FILE: nat := 65536

  /** Byte `off` of the file at node x, as the cache has it; the block must be there. */
  ghost function ByteAt(t: Table, d: Disk, x: nat, off: nat): nat {
    if x * NODE_WORDS + NODE_WORDS <= |t| && off / BLOCK_SIZE < DIRECT && DataLba(t[Pos(x, off / BLOCK_SIZE)]) in d
       && d[DataLba(t[Pos(x, off / BLOCK_SIZE)])].DataSec? && off % BLOCK_SIZE < |d[DataLba(t[Pos(x, off / BLOCK_SIZE)])].bytes|
    then d[DataLba(t[Pos(x, off / BLOCK_SIZE)])].bytes[off % BLOCK_SIZE]
    else 0
  }

  /** What reading gives for byte `off` of file x: zero where there is no block. */
  ghost function FileByte(t: Table, d: Disk, x: nat, off: nat): nat
    requires (x + 1) * NODE_WORDS <= |t|
  {
    if off / BLOCK_SIZE < Word(t, x, COUNT) && off / BLOCK_SIZE < DIRECT && t[Pos(x, off / BLOCK_SIZE)] != NONE then ByteAt(t, d, x, off) else 0
  }

  /** The bytes of a block once data[at..at+|part|] replaces base from position bo on. */
  function Overlay(base: seq<nat>, bo: nat, part: seq<nat>): (r: seq<nat>)
    requires bo + |part| <= |base|
    ensures |r| == |base|
    ensures forall p :: 0 <= p < |r| ==> r[p] == if bo <= p < bo + |part| then part[p - bo] else base[p]
  {
    base[..bo] + part + base[bo + |part|..]
  }

  /** The new contents of one block: a full block, or part of it over the old contents or over zeros. */
  function ChunkBytes(base: seq<nat>, had: bool, bo: nat, part: seq<nat>): (r: seq<nat>)
    requires bo + |part| <= BLOCK_SIZE == |base|
    ensures |r| == BLOCK_SIZE
    ensures forall p :: 0 <= p < BLOCK_SIZE ==> r[p] == if bo <= p < bo + |part| then part[p - bo] else if had then base[p] else 0
  {
    if bo == 0 && |part| == BLOCK_SIZE then part
    else if had then Overlay(base, bo, part)
    else Overlay(seq(BLOCK_SIZE, p => 0), bo, part)
  }

  /** The bytes of file x once `done` bytes of data are written at `offset`; blocks from oldBlocks on are new. */
  ghost predicate WrittenTo(t: Table, d0: Disk, d: Disk, x: nat, offset: nat, data: seq<nat>, done: nat, oldBlocks: nat, nb: nat)
    requires (x + 1) * NODE_WORDS <= |t| && done <= |data|
  {
    forall off :: 0 <= off < MAX_FILE && t[Pos(x, off / BLOCK_SIZE)] < nb ==>
      ByteAt(t, d, x, off) ==
        if offset <= off < offset + done then data[off - offset]
        else if done > 0 && off / BLOCK_SIZE >= oldBlocks && offset / BLOCK_SIZE <= off / BLOCK_SIZE &&
          off / BLOCK_SIZE * BLOCK_SIZE < offset + done then 0
        else ByteAt(t, d0, x, off)
  }

  /** Number of unmarked data blocks. */
  function FreeBlocks(bits: seq<bool>, nb: nat): nat
    requires nb <= |bits|
  {
    if nb == 0 then 0 else FreeBlocks(bits, nb - 1) + (if bits[nb - 1] then 0 else 1)
  }

  ghost function ClearBits(bits: seq<bool>, nb: nat): set<nat>
    requires nb <= |bits|
  {
    set b: nat | b < nb && !bits[b]
  }

  /** The count is the number of data blocks without a mark. */
  lemma {:induction false} FreeBlocksAre(bits: seq<bool>, nb: nat)
    requires nb <= |bits|
    ensures FreeBlocks(bits, nb) == |ClearBits(bits, nb)|
    decreases nb
  {
    if nb > 0 {
      FreeBlocksAre(bits, nb - 1);
      assert ClearBits(bits, nb) == ClearBits(bits, nb - 1) + if bits[nb - 1] then {} else {nb - 1};
    } else {
      assert ClearBits(bits, nb) == {};
    }
  }

  lemma {:induction false} FreeBlocksTake(bits: seq<bool>, nb: nat, b: nat)
    requires nb <= |bits| && b < |bits| && !bits[b]
    ensures FreeBlocks(bits[b := true], nb) == FreeBlocks(bits, nb) - (if b < nb then 1 else 0)
    decreases nb
  {
    if nb > 0 { FreeBlocksTake(bits, nb - 1, b); }
  }

  lemma {:induction false} FreeBlocksNone(bits: seq<bool>, nb: nat)
    requires nb <= |bits|
    ensures FreeBlocks(bits, nb) == 0 <==> forall b :: 0 <= b < nb ==> bits[b]
    decreases nb
  {
    if nb > 0 { FreeBlocksNone(bits, nb - 1); }
  }

  class Minfs {
    const g: Geo
    var table: Table
    var bitmap: seq<bool>
    var bdirty: seq<bool>
    var state: nat
    var seqno: nat
    var w: Wb<Lba, Sector>
    var seen: seq<Disk>

    ghost predicate Shape()
      reads this
    {
      && GeoOk(g) && |table| == g.n * NODE_WORDS && |bitmap| == g.bs * SECTOR_BITS && |bdirty| == g.bs
      && w.disk.Keys == w.log.Keys && HasAll(w.disk, g) && HasAll(w.log, g) && Logged(seen, w.disk)
    }

    /** Between operations. */
    ghost predicate Idle()
      reads this
    {
      && Shape() && state in {CLEAN, DIRTY} && StateOf(w.disk) == state == StateOf(w.log)
      && SameMeta(w.disk, w.log) && BitsTracked(w.log, bitmap, bdirty)
      && Consistent(table, g.n, g.nb, bitmap)
      && (state == CLEAN ==> TableSynced(w.log, table) && BitsSynced(w.log, bitmap))
      && CacheApart()
    }

    /** The cached table may be behind the one in memory, but claims nothing that another file has. */
    ghost predicate CacheApart()
      reads this
    {
      Apart(TableOf(w.log, g), table, g.n, g.nb, bitmap) && SameNodes(TableOf(w.log, g), table, g.n)
    }

    /** The frame of an operation on node x that starts now. */
    ghost function FrameNow(x: nat): Frame
      reads this
    {
      Frame(false, table, TableOf(w.log, g), bitmap, w, x, g,
        if x * NODE_WORDS < |table| then table[x * NODE_WORDS] else 0,
        if x * NODE_WORDS + PARENT < |table| then table[x * NODE_WORDS + PARENT] else 0, true)
    }

    /** The same for one that makes record x a new one, without blocks and with the first word v and the parent p. */
    ghost function FrameTo(x: nat, v: nat, p: nat): Frame
      reads this
    {
      FrameNow(x).(word0 := v, parent0 := p, grow := false)
    }

    ghost predicate StartsAs(f: Frame)
      reads this
    {
      f == FrameNow(f.x).(word0 := f.word0, parent0 := f.parent0, grow := f.grow)
    }

    // ----- the device --------------------------------------------------------------------------

    /** The cache may write back any sectors, any number of times, in any order. */
    method Evict(ghost f: Frame, ghost from: nat)
      requires Live(f, w) && AllGood(f, seen, from) && Logged(seen, w.disk)
      modifies this`w, this`seen
      ensures Logged(seen, w.disk)
      ensures w.log == old(w.log) && Live(f, w) && AllGood(f, seen, from) && Extends(old(seen), seen)
      ensures SameMeta(old(w.disk), w.log) ==> SameMeta(w.disk, w.log)
      ensures old(DirtyBoth(w)) ==> DirtyBoth(w)
      ensures HasAll(w.disk, f.g)
      ensures StateOf(old(w.disk)) == StateOf(w.log) ==> StateOf(w.disk) == StateOf(w.log)
    {
      hide Logged;
      var left: nat := *;
      while left > 0
        invariant Logged(seen, w.disk)
        invariant w.log == old(w.log) && Live(f, w) && AllGood(f, seen, from) && Extends(old(seen), seen)
        invariant Mixed(old(w.disk), w.log, w.disk)
      {
        var l: Lba := *;
        if l in w.log {
          CopyOne(f, w, l);
          LoggedOn(seen, w, l);
          w := Apply(w, Copy(l));
          seen := seen + [w.disk];
        }
        left := left - 1;
      }
      MixedMeta(old(w.disk), w.log, w.disk);
    }

    static lemma CopyOne(f: Frame, w: Wb<Lba, Sector>, l: Lba)
      requires Live(f, w) && l in w.log
      ensures var w' := Apply(w, Copy(l));
        Live(f, w') && HasAll(w'.disk, f.g) && CrashSafe(w'.disk, f.g) && Framed(f, w'.disk) && Mixed(w.disk, w.log, w'.disk)
    {
      var w' := Apply(w, Copy(l));
      assert Mixed(w.disk, w.log, w'.disk);
      LiveMixed(f, w, w'.disk);
    }

    static lemma MixedMeta(d0: Disk, d1: Disk, d: Disk)
      requires Mixed(d0, d1, d)
      ensures SameMeta(d0, d1) ==> SameMeta(d, d1)
      ensures StateOf(d0) == StateOf(d1) ==> StateOf(d) == StateOf(d1)
    {
      MixedParts(d0, d1, d);
    }

    /** A sector written into the cache. */
    method Put(l: Lba, sec: Sector, ghost f: Frame, ghost from: nat)
      requires l in w.log && Live(f, w) && AllGood(f, seen, from) && Live(f, Wb(w.disk, w.log[l := sec])) && Logged(seen, w.disk)
      modifies this`w, this`seen
      ensures Logged(seen, w.disk)
      ensures w.log == old(w.log)[l := sec] && Live(f, w) && AllGood(f, seen, from) && Extends(old(seen), seen)
      ensures SameMeta(old(w.disk), w.log) ==> SameMeta(w.disk, w.log)
      ensures DirtyBoth(Wb(old(w.disk), w.log)) ==> DirtyBoth(w)
      ensures w.disk.Keys == w.log.Keys && HasAll(w.disk, f.g)
      ensures StateOf(old(w.disk)) == StateOf(w.log) ==> StateOf(w.disk) == StateOf(w.log)
    {
      hide Live, AllGood, SameMeta, StateOf, Logged;
      w := Apply(w, WriteBack.Io.Put(l, sec));
      Evict(f, from);
      LiveKeys(f, w);
    }

    /** blockdev_flush: every cached sector reaches the disk, in some order. */
    method Flush(ghost f: Frame, ghost from: nat)
      requires Live(f, w) && AllGood(f, seen, from) && Logged(seen, w.disk)
      modifies this`w, this`seen
      ensures Logged(seen, w.disk)
      ensures w.log == old(w.log) && w.disk == w.log && Live(f, w) && AllGood(f, seen, from)
      ensures Extends(old(seen), seen)
    {
      hide Live, AllGood, Logged;
      ghost var d0 := w.disk;
      LiveKeys(f, w);
      var todo := set l | l in w.log && w.disk[l] != w.log[l];
      while todo != {}
        invariant w.log == old(w.log) && Live(f, w) && AllGood(f, seen, from) && Extends(old(seen), seen)
        invariant w.disk.Keys == w.log.Keys && forall l :: l in w.log ==> l in todo || w.disk[l] == w.log[l]
        invariant todo <= w.log.Keys && Logged(seen, w.disk)
        decreases |todo|
      {
        var l :| l in todo;
        CopyOne(f, w, l);
        AllGoodSnoc(f, seen, from, Apply(w, Copy(l)).disk);
        LoggedOn(seen, w, l);
        w := Apply(w, Copy(l));
        seen := seen + [w.disk];
        todo := todo - {l};
      }
    }

    static lemma LiveKeys(f: Frame, w: Wb<Lba, Sector>)
      requires Live(f, w)
      ensures w.disk.Keys == w.log.Keys && HasAll(w.disk, f.g) && HasAll(w.log, f.g)
    {
    }

    static lemma AllGoodSnoc(f: Frame, seen: seq<Disk>, from: nat, d: Disk)
      requires AllGood(f, seen, from) && HasAll(d, f.g) && CrashSafe(d, f.g) && Framed(f, d)
      ensures AllGood(f, seen + [d], from)
    {
    }

    // ----- the marker ----------------------------------------------------------------------------

    /** Inside a transaction: the marker is dirty on the disk and in the cache. */
    ghost predicate InTx(f: Frame, from: nat)
      reads this
    {
      && Shape() && f.g == g && state == DIRTY && DirtyBoth(w) && Live(f, w) && AllGood(f, seen, from)
      && BitsTracked(w.log, bitmap, bdirty)
    }

    /** minfs_tx_begin: the marker is on the disk before anything else may change there. */
    method TxBegin(ghost f: Frame) returns (started: bool)
      requires Idle() && StartsAs(f)
      modifies this`w, this`seen, this`state, this`seqno
      ensures InTx(f, |old(seen)|) && Extends(old(seen), seen)
      ensures started == (old(state) == CLEAN)
      ensures SameMeta(old(w.log), w.log) && HasAll(w.log, g)
      ensures forall b :: DataLba(b) in w.log <==> DataLba(b) in old(w.log)
      ensures forall b :: DataLba(b) in w.log ==> w.log[DataLba(b)] == old(w.log)[DataLba(b)]
      ensures started ==> TableSynced(w.log, table) && BitsSynced(w.log, bitmap)
      ensures SameMeta(w.disk, w.log)
      ensures if started then seqno == old(seqno) + 1 && SuperLba in w.disk && w.disk[SuperLba] == SuperSec(1, seqno)
              else seqno == old(seqno) && w == old(w) && seen == old(seen)
    {
      hide Live, AllGood, SameMeta, BitsTracked, HasAll, Consistent, TableSynced, BitsSynced, Apart, Logged;
      StartLive(f);
      if state == DIRTY { SameMetaRefl(w.log); return false; }
      state := DIRTY;
      seqno := seqno + 1;
      SuperPutLive(f, w, DIRTY, seqno);
      SuperPutFacts(w.log, DIRTY, seqno, g, table, bitmap, bdirty);
      Put(SuperLba, SuperSec(DIRTY, seqno), f, |old(seen)|);
      Flush(f, |old(seen)|);
      SameMetaRefl(w.log);
      return true;
    }

    lemma StartLive(f: Frame)
      requires Idle() && StartsAs(f)
      ensures Live(f, w) && AllGood(f, seen, |seen|)
      ensures SuperLba in w.log
    {
      hide Framed, Apart;
      StartFramed(f);
      if state == CLEAN {
        assert TableOf(w.disk, g) == table;
        assert BitsOf(w.disk, g) == bitmap;
      }
    }

    /** At its start an operation has changed nothing. */
    lemma StartFramed(f: Frame)
      requires Idle() && StartsAs(f)
      ensures Framed(f, w.disk) && Framed(f, w.log)
    {
      hide Consistent, Apart;
      SameMetaTables(w.disk, w.log, g);
    }

    static lemma SameMetaWords(d: Disk, d': Disk)
      requires SameMeta(d, d')
      ensures forall q :: WordAt(d', q) == WordAt(d, q)
    {
    }

    static lemma SameMetaRefl(d: Disk)
      ensures SameMeta(d, d)
    {
    }

    static lemma SuperPutLive(f: Frame, w: Wb<Lba, Sector>, st: nat, q: nat)
      requires Live(f, w) && SuperLba in w.log && st in {CLEAN, DIRTY}
      requires DirtyBoth(w) && st == CLEAN ==> CleanMeta(w, f.g)
      ensures Live(f, Wb(w.disk, w.log[SuperLba := SuperSec(st, q)]))
    {
      hide Consistent;
      SuperPutMeta(w.log, st, q);
      FramedSameTable(f, w.log, w.log[SuperLba := SuperSec(st, q)]);
    }

    static lemma SuperPutFacts(d: Disk, st: nat, q: nat, g: Geo, t: Table, bits: seq<bool>, bdirty: seq<bool>)
      ensures var d' := d[SuperLba := SuperSec(st, q)];
        && SameMeta(d, d') && StateOf(d') == st
        && (HasAll(d, g) ==> HasAll(d', g))
        && (BitsTracked(d, bits, bdirty) ==> BitsTracked(d', bits, bdirty))
        && (TableSynced(d, t) ==> TableSynced(d', t)) && (BitsSynced(d, bits) ==> BitsSynced(d', bits))
    {
    }

    /** minfs_tx_end: only a device that already holds the consistent metadata is declared clean. */
    method TxEnd(ghost f: Frame, ghost from: nat)
      requires InTx(f, from) && w.disk == w.log
      requires TableSynced(w.log, table) && BitsSynced(w.log, bitmap) && Consistent(table, g.n, g.nb, bitmap)
      modifies this`w, this`seen, this`state
      ensures Idle() && state == CLEAN && AllGood(f, seen, from) && Extends(old(seen), seen)
      ensures SameMeta(old(w.log), w.log) && Live(f, w) && w.disk == w.log
      ensures SuperLba in w.disk && w.disk[SuperLba] == SuperSec(0, seqno)
      ensures forall b :: DataLba(b) in w.log <==> DataLba(b) in old(w.log)
      ensures forall b :: DataLba(b) in w.log ==> w.log[DataLba(b)] == old(w.log)[DataLba(b)]
    {
      hide Live, AllGood, SameMeta, BitsTracked, HasAll, Consistent, TableSynced, BitsSynced, Apart, Logged;
      SyncedClean(w, g, table, bitmap);
      state := CLEAN;
      SuperPutLive(f, w, CLEAN, seqno);
      SuperPutFacts(w.log, CLEAN, seqno, g, table, bitmap, bdirty);
      SuperInLog(w.log, g);
      Put(SuperLba, SuperSec(CLEAN, seqno), f, from);
      Flush(f, from);
      SameMetaRefl(w.log);
      SyncedApart(w.log, g, table, bitmap);
    }

    static lemma SyncedApart(d: Disk, g: Geo, t: Table, bits: seq<bool>)
      requires GeoOk(g) && TableSynced(d, t) && Consistent(t, g.n, g.nb, bits)
      ensures Apart(TableOf(d, g), t, g.n, g.nb, bits) && SameNodes(TableOf(d, g), t, g.n)
    {
      hide Consistent;
      assert |t| == g.n * NODE_WORDS by { ConsistentSize(t, g.n, g.nb, bits); }
      assert TableOf(d, g) == t;
      ApartSame(t, g.n, g.nb, bits);
    }

    static lemma ConsistentSize(t: Table, n: nat, nb: nat, bits: seq<bool>)
      requires Consistent(t, n, nb, bits)
      ensures |t| == n * NODE_WORDS
    {
    }

    static lemma SuperInLog(d: Disk, g: Geo)
      requires HasAll(d, g)
      ensures SuperLba in d
    {
    }

    static lemma SyncedClean(w: Wb<Lba, Sector>, g: Geo, t: Table, bits: seq<bool>)
      requires w.disk == w.log && StateOf(w.log) == DIRTY && |t| == g.n * NODE_WORDS && |bits| == g.bs * SECTOR_BITS
      requires TableSynced(w.log, t) && BitsSynced(w.log, bits) && Consistent(t, g.n, g.nb, bits)
      ensures CleanMeta(w, g)
    {
      assert TableOf(w.disk, g) == t;
      assert BitsOf(w.disk, g) == bits;
    }

    // ----- flushing metadata -----------------------------------------------------------------------

    /** minfs_flush_bitmap: afterwards the cached bitmap is the one in memory. */
    method FlushBitmap(ghost f: Frame, ghost from: nat)
      requires InTx(f, from)
      modifies this`w, this`seen, this`bdirty
      ensures InTx(f, from) && Extends(old(seen), seen)
      ensures BitsSynced(w.log, bitmap) && (forall q :: WordAt(w.log, q) == WordAt(old(w.log), q))
      ensures forall b :: DataLba(b) in w.log <==> DataLba(b) in old(w.log)
      ensures forall b :: DataLba(b) in w.log ==> w.log[DataLba(b)] == old(w.log)[DataLba(b)]
    {
      hide Live, AllGood, SameMeta, HasAll, Consistent, BitsTracked, Logged;
      var s := 0;
      while s < g.bs
        invariant 0 <= s <= g.bs && InTx(f, from) && Extends(old(seen), seen)
        invariant forall r :: 0 <= r < s ==> !bdirty[r]
        invariant forall q :: WordAt(w.log, q) == WordAt(old(w.log), q)
        invariant forall b :: DataLba(b) in w.log <==> DataLba(b) in old(w.log)
        invariant forall b :: DataLba(b) in w.log ==> w.log[DataLba(b)] == old(w.log)[DataLba(b)]
      {
        if bdirty[s] {
          var bits := bitmap[s * SECTOR_BITS .. (s + 1) * SECTOR_BITS];
          BitmapPutFacts(w.log, g, s, bitmap, bdirty);
          BitmapPutLive(f, w, s, bits);
          BitmapPutMeta(w.log, s, bits);
          Put(BitmapLba(s), BitmapSec(bits), f, from);
          bdirty := bdirty[s := false];
        }
        s := s + 1;
      }
      AllTracked(w.log, bitmap, bdirty);
    }

    static lemma AllTracked(d: Disk, bits: seq<bool>, bdirty: seq<bool>)
      requires BitsTracked(d, bits, bdirty) && forall r :: 0 <= r < |bdirty| ==> !bdirty[r]
      ensures BitsSynced(d, bits)
    {
    }

    static lemma BitmapPutLive(f: Frame, w: Wb<Lba, Sector>, s: nat, bits: seq<bool>)
      requires Live(f, w) && DirtyBoth(w) && |bits| == SECTOR_BITS && BitmapLba(s) in w.log
      ensures Live(f, Wb(w.disk, w.log[BitmapLba(s) := BitmapSec(bits)]))
    {
      hide Consistent;
      BitmapPutMeta(w.log, s, bits);
      FramedSameTable(f, w.log, w.log[BitmapLba(s) := BitmapSec(bits)]);
    }

    static lemma BitmapPutFacts(d: Disk, g: Geo, s: nat, bits: seq<bool>, bdirty: seq<bool>)
      requires s < g.bs == |bdirty| && |bits| == g.bs * SECTOR_BITS && HasAll(d, g) && BitsTracked(d, bits, bdirty)
      ensures BitmapLba(s) in d
      ensures var d' := d[BitmapLba(s) := BitmapSec(bits[s * SECTOR_BITS .. (s + 1) * SECTOR_BITS])];
        HasAll(d', g) && BitsTracked(d', bits, bdirty[s := false])
    {
      var part := bits[s * SECTOR_BITS .. (s + 1) * SECTOR_BITS];
      BitmapPutMeta(d, s, part);
      var d' := d[BitmapLba(s) := BitmapSec(part)];
      forall b | 0 <= b < |bits| && !bdirty[s := false][b / SECTOR_BITS] ensures BitAt(d', b) == bits[b] {
        assert b == (b / SECTOR_BITS) * SECTOR_BITS + b % SECTOR_BITS;
      }
    }

    /** Writes table sectors a .. b-1 from memory. */
    method FlushSectors(a: nat, b: nat, ghost f: Frame, ghost from: nat)
      requires InTx(f, from) && a <= b <= g.ts && TableFits(f, table)
      modifies this`w, this`seen
      ensures InTx(f, from) && Extends(old(seen), seen)
      ensures forall q: nat :: a <= q / SECTOR_WORDS < b && q < |table| ==> WordAt(w.log, q) == table[q]
      ensures forall q: nat :: !(a <= q / SECTOR_WORDS < b) ==> WordAt(w.log, q) == WordAt(old(w.log), q)
      ensures forall c :: BitAt(w.log, c) == BitAt(old(w.log), c)
      ensures forall c :: DataLba(c) in w.log <==> DataLba(c) in old(w.log)
      ensures forall c :: DataLba(c) in w.log ==> w.log[DataLba(c)] == old(w.log)[DataLba(c)]
    {
      hide Live, AllGood, SameMeta, HasAll, Consistent, BitsTracked, TableFits, Logged;
      var s := a;
      while s < b
        invariant a <= s <= b && InTx(f, from) && Extends(old(seen), seen)
        invariant forall q: nat :: a <= q / SECTOR_WORDS < s && q < |table| ==> WordAt(w.log, q) == table[q]
        invariant forall q: nat :: !(a <= q / SECTOR_WORDS < s) ==> WordAt(w.log, q) == WordAt(old(w.log), q)
        invariant forall c :: BitAt(w.log, c) == BitAt(old(w.log), c)
        invariant forall c :: DataLba(c) in w.log <==> DataLba(c) in old(w.log)
        invariant forall c :: DataLba(c) in w.log ==> w.log[DataLba(c)] == old(w.log)[DataLba(c)]
      {
        TablePutFacts(w.log, g, s, table, bitmap, bdirty);
        TablePutLive(f, w, s, table);
        TablePutMeta(w.log, s, SectorOf(table, s));
        SectorWords(table, s);
        Put(TableLba(s), TableSec(SectorOf(table, s)), f, from);
        s := s + 1;
      }
    }

    static lemma SectorWords(t: Table, s: nat)
      ensures forall q: nat :: q / SECTOR_WORDS == s && q < |t| ==> SectorOf(t, s)[q % SECTOR_WORDS] == t[q]
    {
      forall q: nat | q / SECTOR_WORDS == s && q < |t| ensures SectorOf(t, s)[q % SECTOR_WORDS] == t[q] {
        assert q == s * SECTOR_WORDS + q % SECTOR_WORDS;
      }
    }

    static lemma TablePutLive(f: Frame, w: Wb<Lba, Sector>, s: nat, t: Table)
      requires Live(f, w) && DirtyBoth(w) && TableLba(s) in w.log && TableFits(f, t) && |t| == f.g.n * NODE_WORDS
      ensures Live(f, Wb(w.disk, w.log[TableLba(s) := TableSec(SectorOf(t, s))]))
    {
      hide Consistent, TableFits;
      TablePutMeta(w.log, s, SectorOf(t, s));
      FramedTable(f, w.log, s, t);
    }

    static lemma TablePutFacts(d: Disk, g: Geo, s: nat, t: Table, bits: seq<bool>, bdirty: seq<bool>)
      requires s < g.ts && HasAll(d, g) && BitsTracked(d, bits, bdirty)
      ensures TableLba(s) in d
      ensures var d' := d[TableLba(s) := TableSec(SectorOf(t, s))]; HasAll(d', g) && BitsTracked(d', bits, bdirty)
    {
      TablePutMeta(d, s, SectorOf(t, s));
    }

    /** minfs_flush_nodes: the whole table. */
    method FlushNodes(ghost f: Frame, ghost from: nat)
      requires InTx(f, from) && TableFits(f, table)
      modifies this`w, this`seen
      ensures InTx(f, from) && Extends(old(seen), seen)
      ensures TableSynced(w.log, table) && (forall c :: BitAt(w.log, c) == BitAt(old(w.log), c))
      ensures forall c :: DataLba(c) in w.log <==> DataLba(c) in old(w.log)
      ensures forall c :: DataLba(c) in w.log ==> w.log[DataLba(c)] == old(w.log)[DataLba(c)]
    {
      hide Live, AllGood, SameMeta, HasAll, Consistent, BitsTracked, TableFits, Logged;
      FlushSectors(0, g.ts, f, from);
      assert forall q: nat :: q < |table| ==> q / SECTOR_WORDS < g.ts;
    }

    /** minfs_flush_node: the sectors that hold record x, with whatever else they hold. */
    method FlushNode(x: nat, ghost f: Frame, ghost from: nat)
      requires InTx(f, from) && TableFits(f, table) && x < g.n
      modifies this`w, this`seen
      ensures InTx(f, from) && Extends(old(seen), seen)
      ensures (forall q :: 0 <= q < |table| && q / NODE_WORDS != x ==> WordAt(old(w.log), q) == table[q]) ==> TableSynced(w.log, table)
      ensures FlushedWords(TableOf(old(w.log), g), table, w.log, x)
      ensures forall c :: BitAt(w.log, c) == BitAt(old(w.log), c)
      ensures forall c :: DataLba(c) in w.log <==> DataLba(c) in old(w.log)
      ensures forall c :: DataLba(c) in w.log ==> w.log[DataLba(c)] == old(w.log)[DataLba(c)]
    {
      hide Live, AllGood, SameMeta, HasAll, Consistent, BitsTracked, TableFits, WordAt, Logged;
      var first := x * NODE_WORDS / SECTOR_WORDS;
      var last := ((x + 1) * NODE_WORDS - 1) / SECTOR_WORDS;
      RecordSectors(g, x);
      FlushSectors(first, last + 1, f, from);
      forall q | 0 <= q < |table| && (forall r :: 0 <= r < |table| && r / NODE_WORDS != x ==> WordAt(old(w.log), r) == table[r])
        ensures WordAt(w.log, q) == table[q]
      {
        if !(first <= q / SECTOR_WORDS < last + 1) { assert q / NODE_WORDS != x; }
      }
      forall q | 0 <= q < |table|
        ensures WordAt(w.log, q) == table[q] || (q / NODE_WORDS != x && WordAt(w.log, q) == TableOf(old(w.log), g)[q])
      {
        if !(first <= q / SECTOR_WORDS < last + 1) { assert q / NODE_WORDS != x; }
      }
    }

    /** Record x is on the device as in t; any other word is as in t or as in l. */
    static ghost predicate FlushedWords(l: Table, t: Table, d: Disk, x: nat) {
      |l| == |t| && forall q :: 0 <= q < |t| ==> WordAt(d, q) == t[q] || (q / NODE_WORDS != x && WordAt(d, q) == l[q])
    }

    /** Every word of record x lies in the sectors that FlushNode writes, and these are in the table area. */
    static lemma RecordSectors(g: Geo, x: nat)
      requires GeoOk(g) && x < g.n
      ensures x * NODE_WORDS / SECTOR_WORDS <= ((x + 1) * NODE_WORDS - 1) / SECTOR_WORDS < g.ts
      ensures forall q: nat :: q / NODE_WORDS == x ==>
        x * NODE_WORDS / SECTOR_WORDS <= q / SECTOR_WORDS <= ((x + 1) * NODE_WORDS - 1) / SECTOR_WORDS
    {
      assert (x + 1) * NODE_WORDS <= g.n * NODE_WORDS;
      forall q: nat | q / NODE_WORDS == x
        ensures x * NODE_WORDS / SECTOR_WORDS <= q / SECTOR_WORDS <= ((x + 1) * NODE_WORDS - 1) / SECTOR_WORDS
      {
        assert x * NODE_WORDS <= q <= (x + 1) * NODE_WORDS - 1;
      }
    }

    // ----- blocks ------------------------------------------------------------------------------------

    method BitSet(b: nat, v: bool)
      requires |bitmap| == |bdirty| * SECTOR_BITS && b < |bitmap|
      modifies this`bitmap, this`bdirty
      ensures bitmap == old(bitmap)[b := v] && |bdirty| == |old(bdirty)|
      ensures BitsTracked(w.log, old(bitmap), old(bdirty)) ==> BitsTracked(w.log, bitmap, bdirty)
    {
      bitmap := bitmap[b := v];
      bdirty := bdirty[b / SECTOR_BITS := true];
    }

    /** minfs_alloc_block: the first unmarked data block, if there is one. */
    method AllocBlock() returns (ok: bool, b: nat)
      requires |bitmap| == |bdirty| * SECTOR_BITS && g.nb <= |bitmap|
      modifies this`bitmap, this`bdirty
      ensures ok <==> exists c :: 0 <= c < g.nb && !old(bitmap)[c]
      ensures ok ==> b < g.nb && !old(bitmap)[b] && (forall c :: 0 <= c < b ==> old(bitmap)[c]) && bitmap == old(bitmap)[b := true]
      ensures !ok ==> bitmap == old(bitmap) && bdirty == old(bdirty)
      ensures |bdirty| == |old(bdirty)|
      ensures BitsTracked(w.log, old(bitmap), old(bdirty)) ==> BitsTracked(w.log, bitmap, bdirty)
    {
      b := 0;
      while b < g.nb
        invariant 0 <= b <= g.nb && bitmap == old(bitmap) && bdirty == old(bdirty)
        invariant forall c :: 0 <= c < b ==> bitmap[c]
      {
        if !bitmap[b] {
          BitSet(b, true);
          return true, b;
        }
        b := b + 1;
      }
      return false, 0;
    }

    /** The table differs from `t` at most in words of record x. */
    static ghost predicate OnlyRecord(t: Table, u: Table, x: nat) {
      |u| == |t| && forall q :: 0 <= q < |t| && q / NODE_WORDS != x ==> u[q] == t[q]
    }

    ghost predicate MemOk()
      reads this
    {
      && GeoOk(g) && |table| == g.n * NODE_WORDS && |bitmap| == g.bs * SECTOR_BITS && |bdirty| == g.bs
      && Consistent(table, g.n, g.nb, bitmap)
    }

    /** minfs_release_file_blocks: the file's blocks are unmarked and its record is empty. */
    method ReleaseBlocks(x: nat)
      requires MemOk() && IsFile(table, g.n, x)
      modifies this`table, this`bitmap, this`bdirty
      ensures MemOk() && OnlyRecord(old(table), table, x)
      ensures forall k :: 0 <= k < NODE_WORDS ==>
        Word(table, x, k) == if k == COUNT || k == SIZE then 0 else if k >= FIRST_DIRECT then NONE else Word(old(table), x, k)
      ensures forall b :: 0 <= b < |bitmap| ==>
        (bitmap[b] <==> old(bitmap)[b] && forall j :: 0 <= j < DIRECT ==> old(table)[Pos(x, j)] != b)
      ensures BitsTracked(w.log, old(bitmap), old(bdirty)) ==> BitsTracked(w.log, bitmap, bdirty)
    {
      hide Consistent, BitsTracked, Logged;
      ghost var t0 := table;
      var j := 0;
      while j < DIRECT
        invariant 0 <= j <= DIRECT && MemOk() && IsFile(table, g.n, x)
        invariant OnlyRecord(t0, table, x)
        invariant forall k :: 0 <= k < NODE_WORDS ==> Word(table, x, k) == if FIRST_DIRECT <= k < FIRST_DIRECT + j then NONE else Word(t0, x, k)
        invariant forall b :: 0 <= b < |bitmap| ==> (bitmap[b] <==> old(bitmap)[b] && forall i :: 0 <= i < j ==> t0[Pos(x, i)] != b)
        invariant BitsTracked(w.log, old(bitmap), old(bdirty)) ==> BitsTracked(w.log, bitmap, bdirty)
      {
        var b := table[Pos(x, j)];
        assert b == Word(t0, x, FIRST_DIRECT + j) == t0[Pos(x, j)];
        if b != NONE {
          DropBlock(table, g.n, g.nb, bitmap, x, j);
          if b < g.nb { BitSet(b, false); }
          SetWord(table, x, FIRST_DIRECT + j, NONE);
          table := table[Pos(x, j) := NONE];
        }
        j := j + 1;
      }
      ghost var t1 := table;
      OtherWord(table, g.n, g.nb, bitmap, x, COUNT, 0);
      SetWord(table, x, COUNT, 0);
      table := table[x * NODE_WORDS + COUNT := 0];
      ghost var t2 := table;
      OtherWord(table, g.n, g.nb, bitmap, x, SIZE, 0);
      SetWord(table, x, SIZE, 0);
      table := table[x * NODE_WORDS + SIZE := 0];
      forall k | 0 <= k < NODE_WORDS
        ensures Word(table, x, k) == if k == COUNT || k == SIZE then 0 else if k >= FIRST_DIRECT then NONE else Word(t0, x, k)
      {
        assert k != SIZE ==> Word(table, x, k) == Word(t2, x, k);
        assert k != COUNT ==> Word(t2, x, k) == Word(t1, x, k);
      }
    }

    /** Reserving blocks did nothing but set direct words of x to NONE or to blocks that were free. */
    static ghost predicate Grown(t0: Table, bits0: seq<bool>, t: Table, nb: nat, x: nat)
      requires (x + 1) * NODE_WORDS <= |t0|
    {
      && OnlyRecord(t0, t, x)
      && (forall k :: 0 <= k < FIRST_DIRECT && k != COUNT && k != SIZE ==> Word(t, x, k) == Word(t0, x, k))
      && (forall j :: 0 <= j < DIRECT ==>
            t[Pos(x, j)] == t0[Pos(x, j)] || t[Pos(x, j)] == NONE || (t[Pos(x, j)] < nb <= |bits0| && !bits0[t[Pos(x, j)]]))
    }

    static lemma GrownFramed(f: Frame, t: Table)
      requires f.x < f.g.n && |f.t0| == |f.l0| == f.g.n * NODE_WORDS && Grown(f.t0, f.bits0, t, f.g.nb, f.x) && !f.rec && f.grow
      ensures TableFits(f, t)
    {
      assert Word(t, f.x, 0) == Word(f.t0, f.x, 0) && Word(t, f.x, PARENT) == Word(f.t0, f.x, PARENT);
      forall i, k | 0 <= i < f.g.n && 0 <= k < NODE_WORDS && Foreign(f.t0, f.x, i, k) ensures Word(t, i, k) == Word(f.t0, i, k) {
        assert (i * NODE_WORDS + k) / NODE_WORDS == i;
      }
    }

    /** Leaving a transaction that had found the filesystem dirty: it stays dirty. */
    lemma StaysDirty(f: Frame, from: nat)
      requires InTx(f, from) && w.disk == w.log && MemOk() && CacheApart()
      ensures Idle()
    {
      hide Live, AllGood, HasAll, Consistent, BitsTracked, Apart, Logged;
    }

    /** The end of every operation: flush, then clear the marker if this operation set it. */
    method Finish(started: bool, ghost f: Frame, ghost from: nat)
      requires InTx(f, from) && MemOk() && (if started then TableSynced(w.log, table) && BitsSynced(w.log, bitmap) else CacheApart())
      modifies this`w, this`seen, this`state
      ensures Idle() && state == (if started then CLEAN else DIRTY)
      ensures AllGood(f, seen, from) && Extends(old(seen), seen) && Live(f, w) && w.disk == w.log
      ensures forall q :: WordAt(w.log, q) == WordAt(old(w.log), q)
      ensures forall b :: DataLba(b) in w.log <==> DataLba(b) in old(w.log)
      ensures forall b :: DataLba(b) in w.log ==> w.log[DataLba(b)] == old(w.log)[DataLba(b)]
    {
      hide Live, AllGood, SameMeta, HasAll, Consistent, BitsTracked, TableSynced, BitsSynced, Apart, Logged;
      Flush(f, from);
      if started {
        ghost var d := w.log;
        TxEnd(f, from);
        SameMetaWords(d, w.log);
      } else {
        StaysDirty(f, from);
      }
    }

    /** minfs_open with O_TRUNC: the file becomes empty. */
    method Truncate(x: nat)
      requires Idle() && x < g.n
      modifies this
      ensures Idle() && state == old(state)
      ensures AllGood(old(FrameNow(x)), seen, |old(seen)|) && Extends(old(seen), seen) && Live(old(FrameNow(x)), w)
      ensures !IsFile(old(table), g.n, x) ==> table == old(table) && bitmap == old(bitmap) && w == old(w)
      ensures IsFile(old(table), g.n, x) ==>
        && OnlyRecord(old(table), table, x)
        && (forall k :: 0 <= k < NODE_WORDS ==>
              Word(table, x, k) == if k == COUNT || k == SIZE then 0 else if k >= FIRST_DIRECT then NONE else Word(old(table), x, k))
        && (forall b :: 0 <= b < |bitmap| ==>
              (bitmap[b] <==> old(bitmap)[b] && forall j :: 0 <= j < DIRECT ==> old(table)[Pos(x, j)] != b))
    {
      hide Live, AllGood, SameMeta, HasAll, Consistent, BitsTracked, BitsSynced, WordAt, BitAt, Apart, FlushedWords, Logged;
      ghost var f, from := FrameNow(x), |seen|;
      AllGoodEmpty(f, seen);
      StartLive(f);
      if !FileWord(table[x * NODE_WORDS]) { return; }
      ghost var t0 := table;
      var started := TxBegin(f);
      SameMetaTables(f.w0.log, w.log, g);
      ghost var d1 := w.log;
      ReleaseBlocks(x);
      GrownByRelease(t0, bitmap, f, table);
      GrownFramed(f, table);
      SyncedElsewhere(w.log, t0, table, x);
      FlushBitmap(f, from);
      BitsCarry(w.log, bitmap);
      SameLog(d1, w.log, g);
      FlushNode(x, f, from);
      BitsCarry(w.log, bitmap);
      ReleasedApart(f, table, bitmap, w.log);
      Finish(started, f, from);
    }

    static lemma SameLog(d0: Disk, d: Disk, g: Geo)
      requires forall q :: WordAt(d, q) == WordAt(d0, q)
      ensures TableOf(d, g) == TableOf(d0, g)
    {
    }

    /** Words of the record that Advanced speaks of, from a change of record x alone. */
    static lemma RecordWords(t0: Table, t: Table, n: nat, x: nat)
      requires |t0| == n * NODE_WORDS && OnlyRecord(t0, t, x)
      ensures forall i :: 0 <= i < n && i != x ==> t[i * NODE_WORDS] == t0[i * NODE_WORDS]
      ensures forall i, j :: 0 <= i < n && 0 <= j < DIRECT && i != x ==> t[Pos(i, j)] == t0[Pos(i, j)]
      ensures forall i :: 0 <= i < n && i != x ==> Pair(t, i) == Pair(t0, i)
    {
      forall i | 0 <= i < n && i != x ensures Pair(t, i) == Pair(t0, i) {
        assert i * NODE_WORDS / NODE_WORDS == i && (i * NODE_WORDS + PARENT) / NODE_WORDS == i;
      }
      forall i, j | 0 <= i < n && 0 <= j < DIRECT && i != x ensures t[Pos(i, j)] == t0[Pos(i, j)] {
        assert Pos(i, j) / NODE_WORDS == i;
      }
      forall i | 0 <= i < n && i != x ensures t[i * NODE_WORDS] == t0[i * NODE_WORDS] {
        assert i * NODE_WORDS / NODE_WORDS == i;
      }
    }

    /** What was known when the operation started. */
    static ghost predicate StartApart(f: Frame) {
      && GeoOk(f.g) && Apart(f.l0, f.t0, f.g.n, f.g.nb, f.bits0) && Consistent(f.t0, f.g.n, f.g.nb, f.bits0)
      && SameNodes(f.l0, f.t0, f.g.n)
    }

    static lemma FlushedLog(f: Frame, t: Table, d: Disk)
      requires |t| == |f.l0| == f.g.n * NODE_WORDS && f.x < f.g.n && FlushedWords(f.l0, t, d, f.x)
      ensures var l := TableOf(d, f.g);
        && (forall w :: 0 <= w < |l| ==> l[w] == f.l0[w] || l[w] == t[w])
        && (forall w :: f.x * NODE_WORDS <= w < (f.x + 1) * NODE_WORDS ==> l[w] == t[w])
    {
      var l := TableOf(d, f.g);
      forall w | f.x * NODE_WORDS <= w < (f.x + 1) * NODE_WORDS ensures l[w] == t[w] { assert w / NODE_WORDS == f.x; }
    }

    static lemma ReleasedApart(f: Frame, t: Table, bits: seq<bool>, d: Disk)
      requires StartApart(f) && IsFile(f.t0, f.g.n, f.x) && OnlyRecord(f.t0, t, f.x) && FlushedWords(f.l0, t, d, f.x)
      requires Consistent(t, f.g.n, f.g.nb, bits) && |bits| == |f.bits0|
      requires forall k :: FIRST_DIRECT <= k < NODE_WORDS ==> Word(t, f.x, k) == NONE
      requires forall b :: 0 <= b < |bits| ==> (bits[b] <==> f.bits0[b] && forall j :: 0 <= j < DIRECT ==> f.t0[Pos(f.x, j)] != b)
      ensures Apart(TableOf(d, f.g), t, f.g.n, f.g.nb, bits) && SameNodes(TableOf(d, f.g), t, f.g.n)
    {
      hide Apart, Consistent, OnlyRecord, FlushedWords;
      var n, nb, x := f.g.n, f.g.nb, f.x;
      ApartSizes(f.l0, f.t0, n, nb, f.bits0);
      ConsistentSize(t, n, nb, bits);
      RecordWords(f.t0, t, n, x);
      FlushedLog(f, t, d);
      forall j | 0 <= j < DIRECT ensures t[Pos(x, j)] == NONE { assert Word(t, x, FIRST_DIRECT + j) == NONE; }
      forall b | 0 <= b < nb && f.bits0[b] && !bits[b] ensures exists j :: Ref(f.t0, n, nb, x, j) && f.t0[Pos(x, j)] == b {
        var j :| 0 <= j < DIRECT && f.t0[Pos(x, j)] == b;
        assert Ref(f.t0, n, nb, x, j);
      }
      ApartFlushed(f.l0, f.t0, f.bits0, TableOf(d, f.g), t, bits, n, nb, x);
      SameNodesOn(f.l0, f.t0, TableOf(d, f.g), t, n, x);
    }

    static lemma ApartSizes(l: Table, t: Table, n: nat, nb: nat, bits: seq<bool>)
      requires Apart(l, t, n, nb, bits)
      ensures |l| == |t| == n * NODE_WORDS && nb <= |bits|
    {
    }

    /** A file that grew keeps out of the others' way, whether or not its record was written through. */
    static lemma GrownApart(f: Frame, t: Table, bits: seq<bool>, d: Disk)
      requires StartApart(f) && IsFile(f.t0, f.g.n, f.x) && Consistent(t, f.g.n, f.g.nb, bits) && IsFile(t, f.g.n, f.x)
      requires Grown(f.t0, f.bits0, t, f.g.nb, f.x) && |bits| == |f.bits0| && (forall b :: 0 <= b < |bits| && f.bits0[b] ==> bits[b])
      requires FlushedWords(f.l0, t, d, f.x) || TableOf(d, f.g) == f.l0
      ensures Apart(TableOf(d, f.g), t, f.g.n, f.g.nb, bits) && SameNodes(TableOf(d, f.g), t, f.g.n)
    {
      hide Apart, Consistent, OnlyRecord, FlushedWords;
      var n, nb, x := f.g.n, f.g.nb, f.x;
      ApartSizes(f.l0, f.t0, n, nb, f.bits0);
      ConsistentSize(t, n, nb, bits);
      RecordWords(f.t0, t, n, x);
      if FlushedWords(f.l0, t, d, f.x) {
        FlushedLog(f, t, d);
        ApartFlushed(f.l0, f.t0, f.bits0, TableOf(d, f.g), t, bits, n, nb, x);
      } else {
        ApartUnflushed(f.l0, f.t0, f.bits0, t, bits, n, nb, x);
      }
      assert Word(t, x, 0) == Word(f.t0, x, 0) && Word(t, x, PARENT) == Word(f.t0, x, PARENT);
      SameNodesOn(f.l0, f.t0, TableOf(d, f.g), t, n, x);
    }

    static lemma AllGoodEmpty(f: Frame, seen: seq<Disk>)
      ensures AllGood(f, seen, |seen|)
    {
    }

    static lemma GrownByRelease(t0: Table, bits: seq<bool>, f: Frame, t: Table)
      requires f.t0 == t0 && f.x < f.g.n && |t0| == f.g.n * NODE_WORDS && OnlyRecord(t0, t, f.x)
      requires forall k :: 0 <= k < NODE_WORDS ==>
        Word(t, f.x, k) == if k == COUNT || k == SIZE then 0 else if k >= FIRST_DIRECT then NONE else Word(t0, f.x, k)
      ensures Grown(t0, f.bits0, t, f.g.nb, f.x)
    {
      forall j | 0 <= j < DIRECT ensures t[Pos(f.x, j)] == NONE { assert t[Pos(f.x, j)] == Word(t, f.x, FIRST_DIRECT + j); }
    }

    /** What was on the device before the record changed is there for all other records. */
    static lemma SyncedElsewhere(d: Disk, t0: Table, t: Table, x: nat)
      requires OnlyRecord(t0, t, x)
      ensures TableSynced(d, t0) ==> forall q :: 0 <= q < |t| && q / NODE_WORDS != x ==> WordAt(d, q) == t[q]
    {
    }

    static lemma BitsCarry(d: Disk, bits: seq<bool>)
      ensures BitsSynced(d, bits) <==> forall b :: 0 <= b < |bits| ==> BitAt(d, b) == bits[b]
    {
    }

    /**
     minfs_ensure_file_blocks: gives the file blocks up to `needed`. Succeeds exactly when the
     file may be that long and enough blocks are unmarked; otherwise no mark is left behind.
     */
    method EnsureBlocks(x: nat, needed: nat) returns (ok: bool)
      requires MemOk() && IsFile(table, g.n, x)
      modifies this`table, this`bitmap, this`bdirty
      ensures MemOk() && IsFile(table, g.n, x) && Grown(old(table), old(bitmap), table, g.nb, x)
      ensures Word(table, x, SIZE) == Word(old(table), x, SIZE)
      ensures var c := Word(old(table), x, COUNT);
        ok <==> needed <= DIRECT && (needed <= c || needed - c <= FreeBlocks(old(bitmap), g.nb))
      ensures var c := Word(old(table), x, COUNT);
        ok ==>
          && Word(table, x, COUNT) == (if needed <= c then c else needed)
          && (forall j :: 0 <= j < DIRECT && !(c <= j < needed) ==> table[Pos(x, j)] == old(table)[Pos(x, j)])
          && (forall j :: c <= j < needed ==> table[Pos(x, j)] < g.nb && !old(bitmap)[table[Pos(x, j)]])
          && (forall b :: 0 <= b < |bitmap| && old(bitmap)[b] ==> bitmap[b])
          && FreeBlocks(bitmap, g.nb) == FreeBlocks(old(bitmap), g.nb) - (if needed <= c then 0 else needed - c)
          && (needed <= c ==> table == old(table) && bitmap == old(bitmap) && bdirty == old(bdirty))
      ensures !ok ==> bitmap == old(bitmap) && Word(table, x, COUNT) == Word(old(table), x, COUNT)
      ensures BitsTracked(w.log, old(bitmap), old(bdirty)) ==> BitsTracked(w.log, bitmap, bdirty)
    {
      hide Consistent, BitsTracked, FreeBlocks, Logged;
      if needed > DIRECT { return false; }
      var c := table[x * NODE_WORDS + COUNT];
      assert c == Word(table, x, COUNT);
      if needed <= c { return true; }
      ghost var t0, bits0 := table, bitmap;
      var taken: seq<nat> := [];
      var i := c;
      while i < needed
        invariant c <= i <= needed && |taken| == i - c
        invariant MemOk() && IsFile(table, g.n, x) && OnlyRecord(t0, table, x)
        invariant Reserved(t0, bits0, table, bitmap, taken, x, c, g.nb)
        invariant FreeBlocks(bitmap, g.nb) == FreeBlocks(bits0, g.nb) - (i - c)
        invariant BitsTracked(w.log, old(bitmap), old(bdirty)) ==> BitsTracked(w.log, bitmap, bdirty)
      {
        FreeBlocksNone(bitmap, g.nb);
        ghost var bits := bitmap;
        var got, blk := AllocBlock();
        if !got {
          Rollback(x, c, taken, t0, bits0);
          return false;
        }
        FreeBlocksTake(bits, g.nb, blk);
        TakeBlock(table, g.n, g.nb, bits, x, i, blk);
        SetWord(table, x, FIRST_DIRECT + i, blk);
        ReservedStep(t0, bits0, table, bits, taken, x, c, g.nb, blk);
        table := table[Pos(x, i) := blk];
        taken := taken + [blk];
        i := i + 1;
      }
      OtherWord(table, g.n, g.nb, bitmap, x, COUNT, needed);
      SetWord(table, x, COUNT, needed);
      ReservedEnd(t0, bits0, table, bitmap, taken, x, c, g.nb, needed);
      table := table[x * NODE_WORDS + COUNT := needed];
      return true;
    }

    /** Progress of a reservation: blocks were added after the first c and marked; the rest is as it was. */
    static ghost predicate Reserved(t0: Table, bits0: seq<bool>, t: Table, bits: seq<bool>, a: seq<nat>, x: nat, c: nat, nb: nat)
      requires (x + 1) * NODE_WORDS <= |t0| == |t|
    {
      && c + |a| <= DIRECT && |bits| == |bits0| && nb <= |bits0|
      && (forall j :: 0 <= j < DIRECT ==> t[Pos(x, j)] == if c <= j < c + |a| then a[j - c] else t0[Pos(x, j)])
      && (forall k :: 0 <= k < FIRST_DIRECT ==> Word(t, x, k) == Word(t0, x, k))
      && (forall m :: 0 <= m < |a| ==> a[m] < nb && !bits0[a[m]])
      && (forall b :: 0 <= b < |bits| ==> (bits[b] <==> bits0[b] || b in a))
      && (forall m, m' :: 0 <= m < m' < |a| ==> a[m] != a[m'])
    }

    static lemma ReservedStep(t0: Table, bits0: seq<bool>, t: Table, bits: seq<bool>, a: seq<nat>, x: nat, c: nat, nb: nat, blk: nat)
      requires (x + 1) * NODE_WORDS <= |t0| == |t| && Reserved(t0, bits0, t, bits, a, x, c, nb)
      requires blk < nb && !bits[blk] && c + |a| < DIRECT
      ensures Reserved(t0, bits0, t[Pos(x, c + |a|) := blk], bits[blk := true], a + [blk], x, c, nb)
    {
      SetWord(t, x, FIRST_DIRECT + c + |a|, blk);
      forall j | 0 <= j < DIRECT && j != c + |a| ensures Pos(x, j) != Pos(x, c + |a|) { }
    }

    static lemma ReservedEnd(t0: Table, bits0: seq<bool>, t: Table, bits: seq<bool>, a: seq<nat>, x: nat, c: nat, nb: nat, needed: nat)
      requires (x + 1) * NODE_WORDS <= |t0| == |t| && Reserved(t0, bits0, t, bits, a, x, c, nb) && OnlyRecord(t0, t, x)
      requires needed == c + |a|
      ensures var u := t[x * NODE_WORDS + COUNT := needed];
        && OnlyRecord(t0, u, x) && Grown(t0, bits0, u, nb, x)
        && (forall j :: 0 <= j < DIRECT && !(c <= j < needed) ==> u[Pos(x, j)] == t0[Pos(x, j)])
        && (forall j :: c <= j < needed ==> u[Pos(x, j)] < nb && !bits0[u[Pos(x, j)]])
    {
      var u := t[x * NODE_WORDS + COUNT := needed];
      SetWord(t, x, COUNT, needed);
      forall j | 0 <= j < DIRECT ensures u[Pos(x, j)] == t[Pos(x, j)] { }
    }

    /** Undoes a reservation that could not be completed. */
    method Rollback(x: nat, c: nat, taken: seq<nat>, ghost t0: Table, ghost bits0: seq<bool>)
      requires MemOk() && IsFile(table, g.n, x) && OnlyRecord(t0, table, x) && |t0| == |table|
      requires Reserved(t0, bits0, table, bitmap, taken, x, c, g.nb)
      modifies this`table, this`bitmap, this`bdirty
      ensures MemOk() && IsFile(table, g.n, x) && bitmap == bits0 && Grown(t0, bits0, table, g.nb, x)
      ensures forall k :: 0 <= k < FIRST_DIRECT ==> Word(table, x, k) == Word(t0, x, k)
      ensures BitsTracked(w.log, old(bitmap), old(bdirty)) ==> BitsTracked(w.log, bitmap, bdirty)
    {
      hide Consistent, BitsTracked, Logged;
      var m := 0;
      while m < |taken|
        invariant 0 <= m <= |taken| && MemOk() && IsFile(table, g.n, x) && OnlyRecord(t0, table, x)
        invariant forall k :: 0 <= k < FIRST_DIRECT ==> Word(table, x, k) == Word(t0, x, k)
        invariant forall j :: 0 <= j < DIRECT ==>
          table[Pos(x, j)] == if c <= j < c + m then NONE else if c + m <= j < c + |taken| then taken[j - c] else t0[Pos(x, j)]
        invariant forall b :: 0 <= b < |bitmap| ==> (bitmap[b] <==> bits0[b] || b in taken[m..])
        invariant BitsTracked(w.log, old(bitmap), old(bdirty)) ==> BitsTracked(w.log, bitmap, bdirty)
      {
        assert table[Pos(x, c + m)] == taken[m] < g.nb;
        DropBlock(table, g.n, g.nb, bitmap, x, c + m);
        SetWord(table, x, FIRST_DIRECT + c + m, NONE);
        assert taken[m..] == [taken[m]] + taken[m + 1..];
        BitSet(taken[m], false);
        table := table[Pos(x, c + m) := NONE];
        m := m + 1;
      }
    }

    /** Writing node x's own blocks is always allowed: they are marked for x, or were free at the start. */
    static lemma OwnBlock(f: Frame, t: Table, bits: seq<bool>, j: nat)
      requires !f.rec && f.x < f.g.n && |f.t0| == f.g.n * NODE_WORDS == |t| && j < DIRECT
      requires Grown(f.t0, f.bits0, t, f.g.nb, f.x)
      ensures t[Pos(f.x, j)] != NONE ==> !ForeignBlock(f, t[Pos(f.x, j)])
    {
    }

    /** Some state in which data sectors can be written: nothing else changes by it. */
    ghost predicate CanWriteData(f: Frame, from: nat)
      reads this
    {
      && MemOk() && Shape() && f.g == g && !f.rec && f.x < g.n && Live(f, w) && AllGood(f, seen, from)
      && SameMeta(w.disk, w.log) && StateOf(w.disk) == StateOf(w.log) == state && BitsTracked(w.log, bitmap, bdirty)
      && |f.t0| == |table| && Grown(f.t0, f.bits0, table, g.nb, f.x)
    }

    method PutData(x: nat, j: nat, bytes: seq<nat>, ghost f: Frame, ghost from: nat)
      requires CanWriteData(f, from) && f.x == x && j < DIRECT && table[Pos(x, j)] < g.nb && |bytes| == BLOCK_SIZE
      modifies this`w, this`seen
      ensures CanWriteData(f, from) && Extends(old(seen), seen) && SameMeta(old(w.log), w.log)
      ensures w.log == old(w.log)[DataLba(table[Pos(x, j)]) := DataSec(bytes)]
    {
      hide Live, AllGood, Consistent, BitsTracked, Grown, HasAll, ForeignBlock, SameMeta, Logged;
      var b := table[Pos(x, j)];
      OwnBlock(f, table, bitmap, j);
      DataPutFacts(w.log, g, b, bytes, bitmap, bdirty);
      DataPutLive(f, w, b, DataSec(bytes));
      SameMetaVia(w.disk, w.log, w.log[DataLba(b) := DataSec(bytes)]);
      Put(DataLba(b), DataSec(bytes), f, from);
    }

    static lemma SameMetaVia(a: Disk, b: Disk, c: Disk)
      requires SameMeta(a, b) && SameMeta(b, c)
      ensures SameMeta(a, c)
    {
    }

    static lemma DataPutLive(f: Frame, w: Wb<Lba, Sector>, b: nat, sec: Sector)
      requires Live(f, w) && b < f.g.nb && sec.DataSec? && |sec.bytes| == BLOCK_SIZE && !ForeignBlock(f, b)
      ensures Live(f, Wb(w.disk, w.log[DataLba(b) := sec]))
    {
      hide Consistent;
      DataPutMeta(w.log, b, sec);
      FramedData(f, w.log, b, sec);
    }

    static lemma DataPutFacts(d: Disk, g: Geo, b: nat, bytes: seq<nat>, bits: seq<bool>, bdirty: seq<bool>)
      requires HasAll(d, g) && b < g.nb && |bytes| == BLOCK_SIZE && BitsTracked(d, bits, bdirty)
      ensures DataLba(b) in d
      ensures var d' := d[DataLba(b) := DataSec(bytes)];
        HasAll(d', g) && BitsTracked(d', bits, bdirty) && SameMeta(d, d') && StateOf(d') == StateOf(d)
    {
      DataPutMeta(d, b, DataSec(bytes));
    }

    /** The file has every block below `limit` that n bytes at offset reach. */
    static ghost predicate NoHole(t: Table, x: nat, offset: nat, n: nat, limit: nat)
      requires (x + 1) * NODE_WORDS <= |t| && limit <= DIRECT
    {
      forall j :: offset / BLOCK_SIZE <= j < limit && j * BLOCK_SIZE < offset + n && n > 0 ==> t[Pos(x, j)] != NONE
    }

    /** There is room for n bytes at offset: enough unmarked blocks, and no hole among the blocks the file has. */
    static ghost predicate CanStore(t: Table, bits: seq<bool>, nb: nat, x: nat, offset: nat, n: nat)
      requires (x + 1) * NODE_WORDS <= |t| && nb <= |bits|
    {
      var c, needed := Word(t, x, COUNT), BlocksFor(offset + n);
      (needed <= c || needed - c <= FreeBlocks(bits, nb)) && NoHole(t, x, offset, n, Min(c, DIRECT))
    }

    /** Once the blocks are there, a write meets a hole exactly if the file had one. */
    static lemma StoreExact(t0: Table, t: Table, bits: seq<bool>, nb: nat, x: nat, offset: nat, n: nat, ok: bool)
      requires (x + 1) * NODE_WORDS <= |t0| == |t| && nb <= |bits| && nb <= NONE && offset + n <= MAX_FILE
      requires var c, needed := Word(t0, x, COUNT), BlocksFor(offset + n);
        && (ok <==> needed <= c || needed - c <= FreeBlocks(bits, nb))
        && (ok ==> forall j :: 0 <= j < DIRECT && !(c <= j < needed) ==> t[Pos(x, j)] == t0[Pos(x, j)])
        && (ok ==> forall j :: c <= j < needed ==> t[Pos(x, j)] < nb)
      ensures CanStore(t0, bits, nb, x, offset, n) <==> ok && NoHole(t, x, offset, n, DIRECT)
    {
      hide FreeBlocks;
      var c, needed := Word(t0, x, COUNT), BlocksFor(offset + n);
      forall j | 0 <= j < DIRECT && j * BLOCK_SIZE < offset + n ensures j < needed { }
    }

    /** The copy loop of minfs_write; stops at a hole. */
    method WriteBlocks(x: nat, offset: nat, data: seq<nat>, oldBlocks: nat, ghost f: Frame, ghost from: nat) returns (ok: bool)
      requires CanWriteData(f, from) && f.x == x && IsFile(table, g.n, x) && offset + |data| <= MAX_FILE
      modifies this`w, this`seen
      ensures CanWriteData(f, from) && Extends(old(seen), seen) && SameMeta(old(w.log), w.log)
      ensures ok ==> WrittenTo(table, old(w.log), w.log, x, offset, data, |data|, oldBlocks, g.nb)
      ensures ok <==> NoHole(table, x, offset, |data|, DIRECT)
      ensures SameOtherBlocks(table, old(w.log), w.log, x)
    {
      hide Live, AllGood, Consistent, BitsTracked, Grown, HasAll, SameMeta, WrittenTo, SameOtherBlocks, StateOf, ChunkBytes, Logged;
      ghost var d0 := w.log;
      SameMetaRefl(d0);
      NothingWritten(table, d0, x, offset, data, oldBlocks, g.nb);
      var done := 0;
      while done < |data|
        invariant 0 <= done <= |data| && CanWriteData(f, from) && Extends(old(seen), seen) && SameMeta(d0, w.log)
        invariant WrittenTo(table, d0, w.log, x, offset, data, done, oldBlocks, g.nb)
        invariant done == |data| || done == 0 || (offset + done) % BLOCK_SIZE == 0
        invariant forall j :: offset / BLOCK_SIZE <= j < DIRECT && j * BLOCK_SIZE < offset + done && done > 0 ==> table[Pos(x, j)] != NONE
        invariant SameOtherBlocks(table, d0, w.log, x)
      {
        var fileOff := offset + done;
        var bi, bo := fileOff / BLOCK_SIZE, fileOff % BLOCK_SIZE;
        var chunk := BLOCK_SIZE - bo;
        if chunk > |data| - done { chunk := |data| - done; }
        var blk := table[Pos(x, bi)];
        if blk == NONE { return false; }
        BlockThere(table, g, bitmap, w.log, x, bi);
        var part := data[done..done + chunk];
        var bytes := ChunkBytes(w.log[DataLba(blk)].bytes, bi < oldBlocks, bo, part);
        ghost var d1 := w.log;
        PutData(x, bi, bytes, f, from);
        SameMetaVia(d0, d1, w.log);
        OneChunk(table, g, bitmap, d0, d1, w.log, x, offset, data, done, oldBlocks, bytes);
        OtherBlocksStep(table, g, d0, d1, x, bi, DataSec(bytes));
        done := done + chunk;
      }
      return true;
    }

    static lemma NothingWritten(t: Table, d: Disk, x: nat, offset: nat, data: seq<nat>, oldBlocks: nat, nb: nat)
      requires (x + 1) * NODE_WORDS <= |t|
      ensures WrittenTo(t, d, d, x, offset, data, 0, oldBlocks, nb) && SameOtherBlocks(t, d, d, x)
    {
    }

    /** Data blocks that x does not reference hold what they held. */
    static ghost predicate SameOtherBlocks(t: Table, d0: Disk, d: Disk, x: nat)
      requires (x + 1) * NODE_WORDS <= |t|
    {
      && (forall b :: DataLba(b) in d <==> DataLba(b) in d0)
      && (forall b :: DataLba(b) in d && (forall j :: 0 <= j < DIRECT ==> t[Pos(x, j)] != b) ==> d[DataLba(b)] == d0[DataLba(b)])
    }

    static lemma OtherBlocksStep(t: Table, g: Geo, d0: Disk, d1: Disk, x: nat, bi: nat, sec: Sector)
      requires (x + 1) * NODE_WORDS <= |t| && bi < DIRECT && SameOtherBlocks(t, d0, d1, x) && DataLba(t[Pos(x, bi)]) in d1
      ensures SameOtherBlocks(t, d0, d1[DataLba(t[Pos(x, bi)]) := sec], x)
    {
    }

    static lemma BlockThere(t: Table, g: Geo, bits: seq<bool>, d: Disk, x: nat, j: nat)
      requires Consistent(t, g.n, g.nb, bits) && GeoOk(g) && HasAll(d, g) && IsFile(t, g.n, x) && j < DIRECT && t[Pos(x, j)] != NONE
      ensures t[Pos(x, j)] < g.nb && DataLba(t[Pos(x, j)]) in d
      ensures d[DataLba(t[Pos(x, j)])].DataSec? && |d[DataLba(t[Pos(x, j)])].bytes| == BLOCK_SIZE
    {
      assert 0 <= x < g.n && 0 <= j < DIRECT;
    }

    /** One more chunk: the block that was written, and every other block of the file. */
    static lemma OneChunk(t: Table, g: Geo, bits: seq<bool>, d0: Disk, d1: Disk, d2: Disk, x: nat, offset: nat, data: seq<nat>,
                          done: nat, oldBlocks: nat, bytes: seq<nat>)
      requires |t| == g.n * NODE_WORDS && Consistent(t, g.n, g.nb, bits) && GeoOk(g) && IsFile(t, g.n, x)
      requires done < |data| && offset + |data| <= MAX_FILE && |bytes| == BLOCK_SIZE
      requires done == 0 || (offset + done) % BLOCK_SIZE == 0
      requires WrittenTo(t, d0, d1, x, offset, data, done, oldBlocks, g.nb)
      requires var bi, bo := (offset + done) / BLOCK_SIZE, (offset + done) % BLOCK_SIZE;
        var chunk := Min(BLOCK_SIZE - bo, |data| - done);
        && t[Pos(x, bi)] < g.nb && d2 == d1[DataLba(t[Pos(x, bi)]) := DataSec(bytes)]
        && DataLba(t[Pos(x, bi)]) in d1 && d1[DataLba(t[Pos(x, bi)])].DataSec? && |d1[DataLba(t[Pos(x, bi)])].bytes| == BLOCK_SIZE
        && (forall p :: 0 <= p < BLOCK_SIZE ==>
              bytes[p] == if bo <= p < bo + chunk then data[done + (p - bo)]
                          else if bi < oldBlocks then d1[DataLba(t[Pos(x, bi)])].bytes[p] else 0)
      ensures WrittenTo(t, d0, d2, x, offset, data, done + Min(BLOCK_SIZE - (offset + done) % BLOCK_SIZE, |data| - done), oldBlocks, g.nb)
    {
      hide Consistent;
      var bi, bo := (offset + done) / BLOCK_SIZE, (offset + done) % BLOCK_SIZE;
      var chunk := Min(BLOCK_SIZE - bo, |data| - done);
      var b := t[Pos(x, bi)];
      forall off | 0 <= off < MAX_FILE && t[Pos(x, off / BLOCK_SIZE)] < g.nb
        ensures ByteAt(t, d2, x, off) ==
          if offset <= off < offset + (done + chunk) then data[off - offset]
          else if off / BLOCK_SIZE >= oldBlocks && offset / BLOCK_SIZE <= off / BLOCK_SIZE &&
            off / BLOCK_SIZE * BLOCK_SIZE < offset + (done + chunk) then 0
          else ByteAt(t, d0, x, off)
      {
        assert off == off / BLOCK_SIZE * BLOCK_SIZE + off % BLOCK_SIZE;
        if off / BLOCK_SIZE == bi {
          assert ByteAt(t, d2, x, off) == bytes[off % BLOCK_SIZE];
          assert ByteAt(t, d1, x, off) == d1[DataLba(b)].bytes[off % BLOCK_SIZE];
        } else {
          DistinctBlocks(t, g, bits, x, bi, off / BLOCK_SIZE);
          assert ByteAt(t, d2, x, off) == ByteAt(t, d1, x, off);
        }
      }
    }

    static lemma DistinctBlocks(t: Table, g: Geo, bits: seq<bool>, x: nat, j: nat, k: nat)
      requires Consistent(t, g.n, g.nb, bits) && IsFile(t, g.n, x) && j < DIRECT && k < DIRECT && j != k
      requires t[Pos(x, j)] < g.nb && t[Pos(x, k)] < g.nb
      ensures t[Pos(x, j)] != t[Pos(x, k)]
    {
      assert Ref(t, g.n, g.nb, x, j) && Ref(t, g.n, g.nb, x, k);
    }

    /** The number of bytes a write of n bytes at offset can store. */
    static function Clipped(offset: nat, n: nat): nat { if offset >= MAX_FILE then 0 else if offset + n > MAX_FILE then MAX_FILE - offset else n }

    static function BlocksFor(size: nat): nat { if size == 0 then 0 else (size + BLOCK_SIZE - 1) / BLOCK_SIZE }

    /** The least number of blocks of 512 bytes that hold the size. */
    static lemma BlocksLeast(size: nat)
      ensures BlocksFor(size) * 512 >= size
      ensures forall c: nat :: c * 512 >= size ==> c >= BlocksFor(size)
    {
    }

    static lemma BlocksBound(end: nat)
      requires end <= MAX_FILE
      ensures BlocksFor(end) <= DIRECT
    {
    }

    /** The write changes the file's block count or its size. */
    static predicate Grows(t: Table, x: nat, end: nat)
      requires (x + 1) * NODE_WORDS <= |t|
    {
      BlocksFor(end) > Word(t, x, COUNT) || end > Word(t, x, SIZE)
    }

    /**
     minfs_write. On success the bytes are in the file, bytes around them in blocks the file had
     are as before, and the size covers them. A growing write that runs out of blocks or meets a
     hole fails under the marker and leaves it set; what it reserved stays reserved unless the
     blocks ran out. In every disk a crash can find, other files are intact.
     */
    method Write(x: nat, offset: nat, data: seq<nat>) returns (rc: int)
      requires Idle() && x < g.n
      modifies this
      ensures Idle() && AllGood(old(FrameNow(x)), seen, |old(seen)|) && Extends(old(seen), seen) && Live(old(FrameNow(x)), w)
      ensures rc == -1 || rc == Clipped(offset, |data|)
      ensures rc >= 0 ==> offset < 65536 && rc == if offset + |data| <= 65536 then |data| else 65536 - offset
      ensures rc >= 0 <==>
        IsFile(old(table), g.n, x) && offset < MAX_FILE && CanStore(old(table), old(bitmap), g.nb, x, offset, Clipped(offset, |data|))
      ensures !IsFile(old(table), g.n, x) || offset >= MAX_FILE ==> rc == -1 && table == old(table) && bitmap == old(bitmap) && w == old(w)
      ensures state == DIRTY <==>
        old(state) == DIRTY || (IsFile(old(table), g.n, x) && offset < MAX_FILE && rc == -1 && Grows(old(table), x, offset + Clipped(offset, |data|)))
      ensures IsFile(old(table), g.n, x) ==>
        && IsFile(table, g.n, x) && Grown(old(table), old(bitmap), table, g.nb, x)
        && |bitmap| == |old(bitmap)| && (forall b :: 0 <= b < |bitmap| && old(bitmap)[b] ==> bitmap[b])
        && SameOtherBlocks(table, old(w.log), w.log, x)
      ensures IsFile(old(table), g.n, x) && rc == -1 ==>
        && Word(table, x, SIZE) == Word(old(table), x, SIZE) && SameMeta(old(w.log), w.log)
        && (offset < MAX_FILE && !Reservable(old(table), old(bitmap), g.nb, x, offset + Clipped(offset, |data|)) ==> bitmap == old(bitmap))
      ensures rc >= 0 ==>
        && Word(table, x, SIZE) == Max(Word(old(table), x, SIZE), offset + rc)
        && Word(table, x, COUNT) == Max(Word(old(table), x, COUNT), BlocksFor(offset + rc))
        && rc <= |data| && WrittenTo(table, old(w.log), w.log, x, offset, data[..rc], rc, Word(old(table), x, COUNT), g.nb)
        && (forall j :: 0 <= j < DIRECT && !(Word(old(table), x, COUNT) <= j < BlocksFor(offset + rc)) ==> table[Pos(x, j)] == old(table)[Pos(x, j)])
        && NoHole(table, x, offset, rc, DIRECT)
        && FreeBlocks(bitmap, g.nb) == FreeBlocks(old(bitmap), g.nb) - Max(0, BlocksFor(offset + rc) - Word(old(table), x, COUNT))
    {
      hide Live, AllGood, SameMeta, HasAll, Consistent, BitsTracked, BitsSynced, WordAt, BitAt, Grown, WrittenTo, SameOtherBlocks,
           TableFits, FreeBlocks, OnlyRecord, TableSynced, CanStore, NoHole, Apart, Logged;
      ghost var f, from := FrameNow(x), |seen|;
      AllGoodEmpty(f, seen);
      StartLive(f);
      SameMetaRefl(w.log);
      GrownRefl(table, bitmap, g, x);
      NothingWritten(table, w.log, x, 0, [], 0, g.nb);
      if !FileWord(table[x * NODE_WORDS]) { return -1; }
      if offset >= MAX_FILE { return -1; }
      var size := |data|;
      if offset + size > MAX_FILE { size := MAX_FILE - offset; }
      var part := data[..size];
      var oldSize := table[x * NODE_WORDS + SIZE];
      var oldBlocks := table[x * NODE_WORDS + COUNT];
      assert oldSize == Word(table, x, SIZE) && oldBlocks == Word(table, x, COUNT);
      var end := offset + size;
      var needed := BlocksFor(end);
      var meta := needed > oldBlocks || end > oldSize;
      ghost var t0 := table;
      StartData(f, from);
      if !meta {
        var ok := WriteBlocks(x, offset, part, oldBlocks, f, from);
        StoreExact(t0, t0, bitmap, g.nb, x, offset, size, true);
        IdleAgain(f, from);
        return if ok then size else -1;
      }
      rc := WriteGrowing(x, offset, part, f, from);
    }

    /** Enough blocks are unmarked for the file to reach `end`. */
    static predicate Reservable(t: Table, bits: seq<bool>, nb: nat, x: nat, end: nat)
      requires (x + 1) * NODE_WORDS <= |t| && nb <= |bits|
    {
      var c, needed := Word(t, x, COUNT), BlocksFor(end);
      needed <= c || needed - c <= FreeBlocks(bits, nb)
    }

    /** The part of minfs_write that changes metadata as well, under the marker. */
    method WriteGrowing(x: nat, offset: nat, part: seq<nat>, ghost f: Frame, ghost from: nat) returns (rc: int)
      requires Idle() && x < g.n && IsFile(table, g.n, x) && f == FrameNow(x) && from == |seen| && offset + |part| <= MAX_FILE
      requires Grows(table, x, offset + |part|)
      modifies this
      ensures Idle() && AllGood(f, seen, from) && Extends(old(seen), seen) && Live(f, w)
      ensures rc == if CanStore(old(table), old(bitmap), g.nb, x, offset, |part|) then |part| else -1
      ensures state == if rc == -1 then DIRTY else old(state)
      ensures IsFile(table, g.n, x) && Grown(old(table), old(bitmap), table, g.nb, x)
      ensures |bitmap| == |old(bitmap)| && (forall b :: 0 <= b < |bitmap| && old(bitmap)[b] ==> bitmap[b])
      ensures SameOtherBlocks(table, old(w.log), w.log, x)
      ensures rc == -1 ==>
        && Word(table, x, SIZE) == Word(old(table), x, SIZE) && SameMeta(old(w.log), w.log)
        && (!Reservable(old(table), old(bitmap), g.nb, x, offset + |part|) ==> bitmap == old(bitmap))
      ensures rc >= 0 ==>
        && Word(table, x, SIZE) == Max(Word(old(table), x, SIZE), offset + |part|)
        && Word(table, x, COUNT) == Max(Word(old(table), x, COUNT), BlocksFor(offset + |part|))
        && WrittenTo(table, old(w.log), w.log, x, offset, part, |part|, Word(old(table), x, COUNT), g.nb)
        && NoHole(table, x, offset, |part|, DIRECT)
        && FreeBlocks(bitmap, g.nb) == FreeBlocks(old(bitmap), g.nb) - Max(0, BlocksFor(offset + |part|) - Word(old(table), x, COUNT))
        && (forall j :: 0 <= j < DIRECT && !(Word(old(table), x, COUNT) <= j < BlocksFor(offset + |part|)) ==>
          table[Pos(x, j)] == old(table)[Pos(x, j)])
    {
      hide Live, AllGood, SameMeta, HasAll, Consistent, BitsTracked, BitsSynced, WordAt, BitAt, Grown, WrittenTo, SameOtherBlocks,
           TableFits, FreeBlocks, OnlyRecord, TableSynced, CanStore, NoHole, Apart, FileWord, SameNodes, StateOf, Logged, BlocksFor;
      var size, end := |part|, offset + |part|;
      var needed := BlocksFor(end);
      BlocksBound(end);
      var oldSize := table[x * NODE_WORDS + SIZE];
      var oldBlocks := table[x * NODE_WORDS + COUNT];
      assert oldSize == Word(table, x, SIZE) && oldBlocks == Word(table, x, COUNT);
      ghost var t0, d0 := table, w.log;
      GrownRefl(t0, bitmap, g, x);
      var started := TxBegin(f);
      SameMetaTables(d0, w.log, g);
      ghost var d1 := w.log;
      var ok := EnsureBlocks(x, needed);
      MemToData(f, from);
      StoreExact(t0, table, f.bits0, g.nb, x, offset, size, ok);
      if !ok {
        DirtyIdle(f, from);
        NothingWritten(table, d1, x, 0, [], 0, g.nb);
        SameOthersVia(table, d0, d1, w.log, x);
        return -1;
      }
      ok := WriteBlocks(x, offset, part, oldBlocks, f, from);
      SameMetaTables(d1, w.log, g);
      SameMetaVia(d0, d1, w.log);
      SameOthersVia(table, d0, d1, w.log, x);
      if !ok {
        DirtyIdle(f, from);
        return -1;
      }
      WrittenSameData(table, d0, d1, w.log, x, offset, part, size, oldBlocks, g.nb);
      SyncedVia(d1, w.log, t0, f.bits0);
      CommitWrite(x, offset, part, needed > oldBlocks, oldSize, oldBlocks, started, f, from, d0);
      return size;
    }

    /** The end of minfs_write: size and metadata, once the bytes are in place. */
    method CommitWrite(x: nat, offset: nat, part: seq<nat>, bitmapChanged: bool, oldSize: nat, oldBlocks: nat, started: bool,
                       ghost f: Frame, ghost from: nat, ghost d0: Disk)
      requires CanWriteData(f, from) && f.x == x && state == DIRTY && IsFile(table, g.n, x)
      requires StartApart(f) && f.grow && IsFile(f.t0, g.n, x) && TableOf(w.log, g) == f.l0 && MarksGrown(f)
      requires |f.t0| == |f.l0| == |table| && Grown(f.t0, f.bits0, table, g.nb, x) && Word(table, x, SIZE) == oldSize
      requires started ==> TableSynced(w.log, f.t0) && BitsSynced(w.log, f.bits0)
      requires !bitmapChanged ==> bitmap == f.bits0 && Word(table, x, COUNT) == oldBlocks && table == f.t0 && offset + |part| > oldSize
      requires bitmapChanged ==> Word(table, x, COUNT) != oldBlocks
      requires WrittenTo(table, d0, w.log, x, offset, part, |part|, oldBlocks, g.nb) && NoHole(table, x, offset, |part|, DIRECT)
      requires SameOtherBlocks(table, d0, w.log, x)
      modifies this`w, this`seen, this`state, this`table, this`bdirty
      ensures Idle() && state == (if started then CLEAN else DIRTY)
      ensures AllGood(f, seen, from) && Extends(old(seen), seen) && Live(f, w)
      ensures table == if offset + |part| > oldSize then old(table)[x * NODE_WORDS + SIZE := offset + |part|] else old(table)
      ensures Grown(f.t0, f.bits0, table, g.nb, x) && IsFile(table, g.n, x)
      ensures Word(table, x, SIZE) == Max(oldSize, offset + |part|) && Word(table, x, COUNT) == Word(old(table), x, COUNT)
      ensures forall j :: 0 <= j < DIRECT ==> table[Pos(x, j)] == old(table)[Pos(x, j)]
      ensures WrittenTo(table, d0, w.log, x, offset, part, |part|, oldBlocks, g.nb) && NoHole(table, x, offset, |part|, DIRECT)
      ensures SameOtherBlocks(table, d0, w.log, x)
    {
      hide Live, AllGood, SameMeta, HasAll, Consistent, BitsTracked, BitsSynced, WordAt, BitAt, Grown, WrittenTo, SameOtherBlocks,
           TableFits, TableSynced, NoHole, Apart, FileWord, SameNodes, StateOf, Logged, StartApart, MarksGrown;
      ghost var t1, d2 := table, w.log;
      FinishWrite(x, offset + |part|, bitmapChanged, oldSize, oldBlocks, started, f, from);
      SetWord(t1, x, SIZE, offset + |part|);
      WrittenKept(t1, table, offset + |part|, d0, d2, w.log, x, offset, part, |part|, oldBlocks, g.nb);
      HolesKept(t1, table, x, offset, |part|);
    }

    static lemma SameOthersVia(t: Table, d0: Disk, d1: Disk, d: Disk, x: nat)
      requires (x + 1) * NODE_WORDS <= |t| && SameOtherBlocks(t, d1, d, x)
      requires forall b :: DataLba(b) in d1 <==> DataLba(b) in d0
      requires forall b :: DataLba(b) in d1 ==> d1[DataLba(b)] == d0[DataLba(b)]
      ensures SameOtherBlocks(t, d0, d, x)
    {
    }

    static lemma HolesKept(t: Table, u: Table, x: nat, offset: nat, n: nat)
      requires (x + 1) * NODE_WORDS <= |t| == |u| && NoHole(t, x, offset, n, DIRECT)
      requires forall j :: 0 <= j < DIRECT ==> u[Pos(x, j)] == t[Pos(x, j)]
      ensures NoHole(u, x, offset, n, DIRECT)
    {
    }

    /** minfs_read: bytes up to the end of the file, zeros where the file has no block. */
    method Read(x: nat, offset: nat, size: nat) returns (rc: int, bytes: seq<nat>)
      requires Idle() && x < g.n && (IsFile(table, g.n, x) ==> Word(table, x, COUNT) <= DIRECT)
      ensures !IsFile(table, g.n, x) ==> rc == -1 && bytes == []
      ensures IsFile(table, g.n, x) ==>
        && rc == |bytes| == (if offset >= Word(table, x, SIZE) then 0 else Min(size, Word(table, x, SIZE) - offset))
        && forall p :: 0 <= p < rc ==> bytes[p] == FileByte(table, w.log, x, offset + p)
    {
      hide SameMeta, BitsTracked, BitsSynced, TableSynced, Consistent, Apart, HasAll, FileByte, Logged;
      bytes := [];
      if !FileWord(table[x * NODE_WORDS]) { return -1, []; }
      var fileSize := table[x * NODE_WORDS + SIZE];
      assert fileSize == Word(table, x, SIZE);
      if offset >= fileSize { return 0, []; }
      var want := Min(size, fileSize - offset);
      while |bytes| < want
        invariant |bytes| <= want
        invariant forall p :: 0 <= p < |bytes| ==> bytes[p] == FileByte(table, w.log, x, offset + p)
        decreases want - |bytes|
      {
        var fileOff := offset + |bytes|;
        var bi, bo := fileOff / BLOCK_SIZE, fileOff % BLOCK_SIZE;
        var chunk := Min(BLOCK_SIZE - bo, want - |bytes|);
        var part := seq(chunk, p => 0);
        if bi < table[x * NODE_WORDS + COUNT] && table[Pos(x, bi)] != NONE {
          BlockThere(table, g, bitmap, w.log, x, bi);
          part := w.log[DataLba(table[Pos(x, bi)])].bytes[bo..bo + chunk];
        }
        ChunkRead(table, w.log, x, fileOff, part);
        bytes := bytes + part;
      }
      return want, bytes;
    }

    /** One chunk read from the block of fileOff, or zeros if there is none, is that part of the file. */
    static lemma ChunkRead(t: Table, d: Disk, x: nat, fileOff: nat, part: seq<nat>)
      requires (x + 1) * NODE_WORDS <= |t| && Word(t, x, COUNT) <= DIRECT && fileOff % BLOCK_SIZE + |part| <= BLOCK_SIZE
      requires var bi := fileOff / BLOCK_SIZE;
        if bi < Word(t, x, COUNT) && t[Pos(x, bi)] != NONE then
          var l := DataLba(t[Pos(x, bi)]);
          l in d && d[l].DataSec? && |d[l].bytes| == BLOCK_SIZE && part == d[l].bytes[fileOff % BLOCK_SIZE..fileOff % BLOCK_SIZE + |part|]
        else part == seq(|part|, p => 0)
      ensures forall p :: 0 <= p < |part| ==> part[p] == FileByte(t, d, x, fileOff + p)
    {
      forall p | 0 <= p < |part| ensures part[p] == FileByte(t, d, x, fileOff + p) {
        assert (fileOff + p) / BLOCK_SIZE == fileOff / BLOCK_SIZE && (fileOff + p) % BLOCK_SIZE == fileOff % BLOCK_SIZE + p;
      }
    }

    static function Max(a: int, b: int): int { if a < b then b else a }

    static lemma GrownRefl(t: Table, bits: seq<bool>, g: Geo, x: nat)
      requires x < g.n && |t| == g.n * NODE_WORDS
      ensures Grown(t, bits, t, g.nb, x)
    {
    }

    lemma StartData(f: Frame, from: nat)
      requires Idle() && StartsAs(f) && f.x < g.n && from == |seen|
      ensures CanWriteData(f, from)
    {
      hide Consistent, BitsTracked, Live, AllGood, Logged;
      StartLive(f);
      GrownRefl(table, bitmap, g, f.x);
    }

    lemma IdleAgain(f: Frame, from: nat)
      requires CanWriteData(f, from) && state in {CLEAN, DIRTY} && SameMeta(f.w0.log, w.log) && f.l0 == TableOf(f.w0.log, g)
      requires table == f.t0 && bitmap == f.bits0 && StartApart(f)
      requires state == CLEAN ==> TableSynced(f.w0.log, table) && BitsSynced(f.w0.log, bitmap)
      ensures Idle() && AllGood(f, seen, from) && Live(f, w)
    {
      hide Consistent, BitsTracked, Live, AllGood, HasAll, Grown, Apart, Logged;
      SameMetaTables(f.w0.log, w.log, g);
    }

    /** A write that failed under the marker: memory may be ahead of the cache, and nothing is lost. */
    lemma DirtyIdle(f: Frame, from: nat)
      requires CanWriteData(f, from) && state == DIRTY && StartApart(f) && TableOf(w.log, g) == f.l0
      requires IsFile(f.t0, g.n, f.x) && IsFile(table, g.n, f.x) && MarksGrown(f)
      ensures Idle() && AllGood(f, seen, from) && Live(f, w)
    {
      hide Consistent, BitsTracked, Live, AllGood, HasAll, Grown, Apart, FlushedWords, StartApart, Logged;
      GrownApart(f, table, bitmap, w.log);
    }

    lemma MemToData(f: Frame, from: nat)
      requires InTx(f, from) && MemOk() && SameMeta(w.disk, w.log) && f.x < g.n && !f.rec
      requires |f.t0| == |table| && Grown(f.t0, f.bits0, table, g.nb, f.x)
      ensures CanWriteData(f, from)
    {
      hide Consistent, BitsTracked, Live, AllGood, HasAll, Grown, SameMeta, Logged;
    }

    static lemma WrittenSameData(t: Table, d0: Disk, d1: Disk, d: Disk, x: nat, offset: nat, data: seq<nat>, done: nat, oldBlocks: nat, nb: nat)
      requires (x + 1) * NODE_WORDS <= |t| && done <= |data|
      requires forall b :: DataLba(b) in d1 <==> DataLba(b) in d0
      requires forall b :: DataLba(b) in d1 ==> d1[DataLba(b)] == d0[DataLba(b)]
      requires WrittenTo(t, d1, d, x, offset, data, done, oldBlocks, nb) && SameOtherBlocks(t, d1, d, x)
      ensures WrittenTo(t, d0, d, x, offset, data, done, oldBlocks, nb) && SameOtherBlocks(t, d0, d, x)
    {
      forall off | 0 <= off < MAX_FILE && t[Pos(x, off / BLOCK_SIZE)] < nb ensures ByteAt(t, d0, x, off) == ByteAt(t, d1, x, off) { }
    }

    /** Metadata changes do not disturb what was written. */
    static lemma WrittenKept(t: Table, t': Table, v: nat, d0: Disk, d: Disk, d': Disk, x: nat, offset: nat, data: seq<nat>,
      done: nat, oldBlocks: nat, nb: nat)
      requires (x + 1) * NODE_WORDS <= |t| == |t'| && done <= |data|
      requires t' == t || t' == t[x * NODE_WORDS + SIZE := v]
      requires forall b :: DataLba(b) in d' <==> DataLba(b) in d
      requires forall b :: DataLba(b) in d' ==> d'[DataLba(b)] == d[DataLba(b)]
      requires WrittenTo(t, d0, d, x, offset, data, done, oldBlocks, nb) && SameOtherBlocks(t, d0, d, x)
      ensures WrittenTo(t', d0, d', x, offset, data, done, oldBlocks, nb) && SameOtherBlocks(t', d0, d', x)
      ensures forall j :: 0 <= j < DIRECT ==> t'[Pos(x, j)] == t[Pos(x, j)]
    {
      forall off | 0 <= off < MAX_FILE
        ensures ByteAt(t', d', x, off) == ByteAt(t, d, x, off) && ByteAt(t', d0, x, off) == ByteAt(t, d0, x, off)
      {
        assert t'[Pos(x, off / BLOCK_SIZE)] == t[Pos(x, off / BLOCK_SIZE)];
      }
    }

    static lemma SyncedVia(d1: Disk, d: Disk, t: Table, bits: seq<bool>)
      requires SameMeta(d1, d)
      ensures TableSynced(d1, t) ==> TableSynced(d, t)
      ensures BitsSynced(d1, bits) ==> BitsSynced(d, bits)
    {
    }

    /** The metadata part of a write: the new size, the bitmap and the record, then the marker. */
    method FinishWrite(x: nat, end: nat, bitmapChanged: bool, oldSize: nat, oldBlocks: nat, started: bool, ghost f: Frame, ghost from: nat)
      requires CanWriteData(f, from) && f.x == x && state == DIRTY && IsFile(table, g.n, x)
      requires StartApart(f) && f.grow && IsFile(f.t0, g.n, x) && TableOf(w.log, g) == f.l0 && MarksGrown(f)
      requires |f.t0| == |f.l0| == |table| && Grown(f.t0, f.bits0, table, g.nb, x) && Word(table, x, SIZE) == oldSize
      requires started ==> TableSynced(w.log, f.t0) && BitsSynced(w.log, f.bits0)
      requires !bitmapChanged ==> bitmap == f.bits0 && Word(table, x, COUNT) == oldBlocks && table == f.t0 && end > oldSize
      requires bitmapChanged ==> Word(table, x, COUNT) != oldBlocks
      modifies this`w, this`seen, this`state, this`table, this`bdirty
      ensures Idle() && state == (if started then CLEAN else DIRTY)
      ensures AllGood(f, seen, from) && Extends(old(seen), seen) && Live(f, w)
      ensures table == if end > oldSize then old(table)[x * NODE_WORDS + SIZE := end] else old(table)
      ensures Grown(f.t0, f.bits0, table, g.nb, x) && IsFile(table, g.n, x)
      ensures forall b :: DataLba(b) in w.log <==> DataLba(b) in old(w.log)
      ensures forall b :: DataLba(b) in w.log ==> w.log[DataLba(b)] == old(w.log)[DataLba(b)]
    {
      hide Live, AllGood, SameMeta, HasAll, Consistent, BitsTracked, BitsSynced, WordAt, BitAt, TableFits, TableSynced,
        Apart, FlushedWords, StartApart, Logged;
      ghost var d1 := w.log;
      if end > table[x * NODE_WORDS + SIZE] {
        OtherWord(table, g.n, g.nb, bitmap, x, SIZE, end);
        SetWord(table, x, SIZE, end);
        GrownSize(f, table, end);
        table := table[x * NODE_WORDS + SIZE := end];
      }
      GrownFramed(f, table);
      SyncedElsewhere(w.log, f.t0, table, x);
      BitsCarry(w.log, f.bits0);
      if bitmapChanged { FlushBitmap(f, from); }
      BitsCarry(w.log, bitmap);
      SameLog(d1, w.log, g);
      if table[x * NODE_WORDS + SIZE] != oldSize || table[x * NODE_WORDS + COUNT] != oldBlocks {
        FlushNode(x, f, from);
      }
      BitsCarry(w.log, bitmap);
      GrownApart(f, table, bitmap, w.log);
      Finish(started, f, from);
    }

    /** Reserving blocks for the file only added marks. */
    ghost predicate MarksGrown(f: Frame)
      reads this
    {
      |bitmap| == |f.bits0| && forall b :: 0 <= b < |bitmap| && f.bits0[b] ==> bitmap[b]
    }

    static lemma GrownSize(f: Frame, t: Table, v: nat)
      requires f.x < f.g.n && |f.t0| == f.g.n * NODE_WORDS == |t| && Grown(f.t0, f.bits0, t, f.g.nb, f.x)
      ensures Grown(f.t0, f.bits0, t[f.x * NODE_WORDS + SIZE := v], f.g.nb, f.x)
    {
      SetWord(t, f.x, SIZE, v);
    }

    // ----- recovery ------------------------------------------------------------------------------------

    /** Progress of rebuilding node i: its first j direct words are done, the rest of the table from i on is as found. */
    static ghost predicate RebuiltTo(t0: Table, t: Table, n: nat, nb: nat, i: nat, j: nat)
      requires |t0| == n * NODE_WORDS
    {
      && |t| == |t0| && j <= DIRECT
      && (forall r, k :: 0 <= r < n && 0 <= k < NODE_WORDS ==>
            Word(t, r, k) == if r < i || (r == i && FIRST_DIRECT <= k < FIRST_DIRECT + j && IsFile(t0, n, i))
                             then RebuiltWord(t0, n, nb, r, k) else Word(t0, r, k))
    }

    /** minfs_rebuild_bitmap_from_nodes, for any table at all. */
    method Rebuild()
      requires GeoOk(g) && |table| == g.n * NODE_WORDS && |bitmap| == g.bs * SECTOR_BITS && |bdirty| == g.bs
      modifies this`table, this`bitmap, this`bdirty
      ensures IsRebuilt(old(table), table, g.n, g.nb) && |bitmap| == |old(bitmap)| && |bdirty| == g.bs
      ensures MarksKept(old(table), g.n, g.nb, bitmap)
      ensures BitsTracked(w.log, bitmap, bdirty)
    {
      hide Claimed, Kept, IsRebuilt, RebuiltWord;
      ghost var t0 := table;
      bitmap := seq(|bitmap|, b => false);
      bdirty := seq(|bdirty|, s => true);
      RebuildStart(t0, g.n, g.nb);
      var i := 0;
      while i < g.n
        invariant 0 <= i <= g.n && RebuiltTo(t0, table, g.n, g.nb, i, 0)
        invariant |bitmap| == |old(bitmap)| && |bdirty| == g.bs && (forall s :: 0 <= s < g.bs ==> bdirty[s])
        invariant forall b :: 0 <= b < |bitmap| ==> (bitmap[b] <==> Claimed(t0, g.n, g.nb, i, 0, b))
      {
        assert Word(table, i, 0) == Word(t0, i, 0);
        forall b | 0 <= b < |bitmap| { ClaimedRow(t0, g.n, g.nb, i, b); }
        if FileWord(table[i * NODE_WORDS]) {
          RebuildNode(i, t0);
        } else {
          RebuildSkip(t0, table, g.n, g.nb, i);
        }
        i := i + 1;
      }
      RebuildEnd(t0, table, g.n, g.nb, bitmap);
    }

    method RebuildNode(i: nat, ghost t0: Table)
      requires GeoOk(g) && |t0| == g.n * NODE_WORDS == |table| && |bitmap| == g.bs * SECTOR_BITS && |bdirty| == g.bs
      requires IsFile(t0, g.n, i) && RebuiltTo(t0, table, g.n, g.nb, i, 0)
      requires forall s :: 0 <= s < g.bs ==> bdirty[s]
      requires forall b :: 0 <= b < |bitmap| ==> (bitmap[b] <==> Claimed(t0, g.n, g.nb, i, 0, b))
      modifies this`table, this`bitmap, this`bdirty
      ensures RebuiltTo(t0, table, g.n, g.nb, i + 1, 0)
      ensures |bitmap| == |old(bitmap)| && |bdirty| == g.bs && (forall s :: 0 <= s < g.bs ==> bdirty[s])
      ensures forall b :: 0 <= b < |bitmap| ==> (bitmap[b] <==> Claimed(t0, g.n, g.nb, i, DIRECT, b))
    {
      hide Claimed, RebuiltTo, RebuiltWord;
      var valid := 0;
      var j := 0;
      while j < DIRECT
        invariant 0 <= j <= DIRECT && |table| == |t0| && RebuiltTo(t0, table, g.n, g.nb, i, j)
        invariant |bitmap| == |old(bitmap)| && |bdirty| == g.bs && (forall s :: 0 <= s < g.bs ==> bdirty[s])
        invariant forall b :: 0 <= b < |bitmap| ==> (bitmap[b] <==> Claimed(t0, g.n, g.nb, i, j, b))
        invariant valid == KeptCount(t0, g.n, g.nb, i, j)
      {
        var blk := table[Pos(i, j)];
        RebuiltAhead(t0, table, g.n, g.nb, i, j);
        forall b | 0 <= b < |bitmap| { ClaimedStep(t0, g.n, g.nb, i, j, b); }
        if blk == NONE {
        } else if blk >= g.nb || bitmap[blk] {
          table := table[Pos(i, j) := NONE];
        } else {
          bitmap := bitmap[blk := true];
          bdirty := bdirty[blk / SECTOR_BITS := true];
          valid := valid + 1;
        }
        j := j + 1;
      }
      RebuiltNode(t0, table, g.n, g.nb, i);
      table := table[i * NODE_WORDS + COUNT := valid];
      if table[i * NODE_WORDS + SIZE] > valid * BLOCK_SIZE {
        table := table[i * NODE_WORDS + SIZE := valid * BLOCK_SIZE];
      }
    }

    static lemma RebuildStart(t0: Table, n: nat, nb: nat)
      requires |t0| == n * NODE_WORDS
      ensures RebuiltTo(t0, t0, n, nb, 0, 0) && forall b :: !Claimed(t0, n, nb, 0, 0, b)
    {
    }

    static lemma RebuildSkip(t0: Table, t: Table, n: nat, nb: nat, i: nat)
      requires |t0| == n * NODE_WORDS && i < n && RebuiltTo(t0, t, n, nb, i, 0) && !IsFile(t0, n, i)
      ensures RebuiltTo(t0, t, n, nb, i + 1, 0)
    {
      hide Kept;
      forall r, k | 0 <= r < n && 0 <= k < NODE_WORDS
        ensures Word(t, r, k) == if r < i + 1 then RebuiltWord(t0, n, nb, r, k) else Word(t0, r, k)
      {
      }
    }

    static lemma RebuildEnd(t0: Table, t: Table, n: nat, nb: nat, bits: seq<bool>)
      requires |t0| == n * NODE_WORDS && RebuiltTo(t0, t, n, nb, n, 0) && nb <= |bits|
      requires forall b :: 0 <= b < |bits| ==> (bits[b] <==> Claimed(t0, n, nb, n, 0, b))
      ensures IsRebuilt(t0, t, n, nb) && MarksKept(t0, n, nb, bits)
    {
      hide Claimed, Kept, RebuiltWord;
      forall b | 0 <= b < |bits| { ClaimedAll(t0, n, nb, b); }
    }

    /** What the loop finds at direct[j], and that clearing it, or leaving it, is what rebuilding asks for. */
    static lemma RebuiltAhead(t0: Table, t: Table, n: nat, nb: nat, i: nat, j: nat)
      requires |t0| == n * NODE_WORDS && i < n && j < DIRECT && IsFile(t0, n, i) && RebuiltTo(t0, t, n, nb, i, j)
      ensures t[Pos(i, j)] == t0[Pos(i, j)]
      ensures Kept(t0, n, nb, i, j) ==> RebuiltTo(t0, t, n, nb, i, j + 1)
      ensures !Kept(t0, n, nb, i, j) ==> RebuiltTo(t0, t[Pos(i, j) := NONE], n, nb, i, j + 1)
      ensures t0[Pos(i, j)] == NONE ==> t[Pos(i, j) := NONE] == t
      ensures Kept(t0, n, nb, i, j) <==> t0[Pos(i, j)] < nb && !Claimed(t0, n, nb, i, j, t0[Pos(i, j)])
    {
      hide Claimed;
      assert Word(t, i, FIRST_DIRECT + j) == Word(t0, i, FIRST_DIRECT + j);
      var u := t[Pos(i, j) := NONE];
      forall r, k | 0 <= r < n && 0 <= k < NODE_WORDS && !(r == i && k == FIRST_DIRECT + j) ensures Word(u, r, k) == Word(t, r, k) { }
    }

    static lemma RebuiltNode(t0: Table, t: Table, n: nat, nb: nat, i: nat)
      requires |t0| == n * NODE_WORDS && i < n && IsFile(t0, n, i) && RebuiltTo(t0, t, n, nb, i, DIRECT)
      ensures var v := KeptCount(t0, n, nb, i, DIRECT);
        var u := t[i * NODE_WORDS + COUNT := v];
        && u[i * NODE_WORDS + SIZE] == Word(t0, i, SIZE)
        && RebuiltTo(t0, u[i * NODE_WORDS + SIZE := Min(Word(t0, i, SIZE), v * BLOCK_SIZE)], n, nb, i + 1, 0)
        && u[i * NODE_WORDS + SIZE := Word(t0, i, SIZE)] == u
    {
      hide Kept;
      var v := KeptCount(t0, n, nb, i, DIRECT);
      var u := t[i * NODE_WORDS + COUNT := v];
      assert Word(u, i, SIZE) == Word(t, i, SIZE) == Word(t0, i, SIZE);
      var z := u[i * NODE_WORDS + SIZE := Min(Word(t0, i, SIZE), v * BLOCK_SIZE)];
      forall r, k | 0 <= r < n && 0 <= k < NODE_WORDS && !(r == i && (k == COUNT || k == SIZE)) ensures Word(z, r, k) == Word(t, r, k) { }
    }

    // ----- directories -----------------------------------------------------------------------------------

    method CountChildren(p: nat) returns (c: nat)
      requires |table| == g.n * NODE_WORDS
      ensures c == Children(table, g.n, p, g.n) == |Kids(table, g.n, p, g.n)|
    {
      ChildrenAre(table, g.n, p, g.n);
      c := 0;
      var i := 0;
      while i < g.n
        invariant 0 <= i <= g.n && c == Children(table, g.n, p, i)
      {
        if UsedWord(table[i * NODE_WORDS]) && table[i * NODE_WORDS + PARENT] == p { c := c + 1; }
        i := i + 1;
      }
    }

    /** minfs_refresh_directory_sizes. */
    method RefreshDirs()
      requires |table| == g.n * NODE_WORDS
      modifies this`table
      ensures IsRefreshed(old(table), table, g.n)
      ensures forall i, k :: 0 <= i < g.n && 0 <= k < NODE_WORDS && !(k == SIZE && DirWord(Word(old(table), i, 0))) ==>
        Word(table, i, k) == Word(old(table), i, k)
      ensures forall i :: 0 <= i < g.n && DirWord(Word(old(table), i, 0)) ==>
        Word(table, i, SIZE) == |Kids(old(table), g.n, i, g.n)|
    {
      ghost var t0 := table;
      var i := 0;
      while i < g.n
        invariant 0 <= i <= g.n && |table| == |t0|
        invariant forall r, k :: 0 <= r < g.n && 0 <= k < NODE_WORDS ==>
          Word(table, r, k) == if r < i && k == SIZE && DirWord(Word(t0, r, 0)) then Children(t0, g.n, r, g.n) else Word(t0, r, k)
      {
        assert Word(table, i, 0) == Word(t0, i, 0);
        if DirWord(table[i * NODE_WORDS]) {
          var c := CountChildren(i);
          SameChildren(t0, table, g.n, i, g.n);
          ghost var t1 := table;
          table := table[i * NODE_WORDS + SIZE := c];
          forall r, k | 0 <= r < g.n && 0 <= k < NODE_WORDS && !(r == i && k == SIZE) ensures Word(table, r, k) == Word(t1, r, k) { }
        }
        i := i + 1;
      }
      forall r | 0 <= r < g.n ensures Children(t0, g.n, r, g.n) == |Kids(t0, g.n, r, g.n)| { ChildrenAre(t0, g.n, r, g.n); }
    }

    /** minfs_find_free_index. */
    method FindFreeIndex() returns (ok: bool, x: nat)
      requires |table| == g.n * NODE_WORDS
      ensures ok ==> 0 < x < g.n && !UsedWord(Word(table, x, 0)) && forall i :: 1 <= i < x ==> UsedWord(Word(table, i, 0))
      ensures !ok ==> forall i :: 1 <= i < g.n ==> UsedWord(Word(table, i, 0))
    {
      x := 1;
      while x < g.n
        invariant 1 <= x && (g.n >= 1 ==> x <= g.n) && forall i :: 1 <= i < x && i < g.n ==> UsedWord(Word(table, i, 0))
      {
        if !UsedWord(table[x * NODE_WORDS]) { return true, x; }
        x := x + 1;
      }
      return false, 0;
    }

    /** A record without blocks: word 0, parent and name as given, size and count 0, all direct words NONE. */
    static function Record(word0: nat, parent: nat, name: seq<nat>): (r: seq<nat>)
      requires |name| == FIRST_DIRECT - NAME
      ensures |r| == NODE_WORDS && r[0] == word0 && r[SIZE] == 0 && r[PARENT] == parent && r[COUNT] == 0
      ensures forall k :: FIRST_DIRECT <= k < NODE_WORDS ==> r[k] == NONE
    {
      [word0, 0, parent, 0] + name + seq(DIRECT, j => NONE)
    }

    /** minfs_disk_node_init. */
    static function Blank(): (r: seq<nat>)
      ensures |r| == NODE_WORDS && r[0] == 0 && r[PARENT] == NONE && forall k :: FIRST_DIRECT <= k < NODE_WORDS ==> r[k] == NONE
      ensures forall k :: 0 <= k < |r| ==> r[k] == if k == 2 || k >= 20 then 0xFFFF_FFFF else 0
    {
      Record(0, NONE, seq(FIRST_DIRECT - NAME, k => 0))
    }

    static function SetRecord(t: Table, x: nat, r: seq<nat>): (u: Table)
      requires (x + 1) * NODE_WORDS <= |t| && |r| == NODE_WORDS
      ensures |u| == |t| && OnlyRecord(t, u, x) && forall k :: 0 <= k < NODE_WORDS ==> Word(u, x, k) == r[k]
    {
      t[..x * NODE_WORDS] + r + t[(x + 1) * NODE_WORDS..]
    }

    /** Blanking or replacing record x and recomputing directory sizes stays within the frame of x. */
    static lemma RecordFramed(f: Frame, u: Table, v: Table, n: nat)
      requires f.g.n == n && f.x < n && |f.t0| == |f.l0| == n * NODE_WORDS && OnlyRecord(f.t0, u, f.x)
      requires Word(u, f.x, 0) == f.word0 && Word(u, f.x, PARENT) == f.parent0 && forall j :: 0 <= j < DIRECT ==> u[Pos(f.x, j)] == NONE
      requires IsRefreshed(u, v, n) && !f.rec
      ensures TableFits(f, v)
    {
      forall i, k | 0 <= i < n && 0 <= k < NODE_WORDS && Foreign(f.t0, f.x, i, k) ensures Word(v, i, k) == Word(f.t0, i, k) {
        assert (i * NODE_WORDS + k) / NODE_WORDS == i && i * NODE_WORDS / NODE_WORDS == i;
        assert Word(u, i, k) == Word(f.t0, i, k) && Word(u, i, 0) == Word(f.t0, i, 0);
      }
      assert Word(v, f.x, 0) == Word(u, f.x, 0) && Word(v, f.x, PARENT) == Word(u, f.x, PARENT);
      forall j | 0 <= j < DIRECT ensures v[Pos(f.x, j)] == NONE {
        assert u[Pos(f.x, j)] == NONE && Word(u, f.x, FIRST_DIRECT + j) == u[Pos(f.x, j)];
        assert Word(v, f.x, FIRST_DIRECT + j) == Word(u, f.x, FIRST_DIRECT + j) && Word(v, f.x, FIRST_DIRECT + j) == v[Pos(f.x, j)];
      }
    }

    /** The common end of create and unlink: sizes, the whole table, the marker. */
    method FinishNodes(started: bool, ghost f: Frame, ghost from: nat)
      requires InTx(f, from) && MemOk() && f.x < g.n && !f.rec && |f.t0| == |f.l0| == |table| && OnlyRecord(f.t0, table, f.x)
      requires Word(table, f.x, 0) == f.word0 && Word(table, f.x, PARENT) == f.parent0 && forall j :: 0 <= j < DIRECT ==> table[Pos(f.x, j)] == NONE
      requires started ==> BitsSynced(w.log, bitmap)
      modifies this`w, this`seen, this`state, this`table
      ensures Idle() && state == (if started then CLEAN else DIRTY)
      ensures AllGood(f, seen, from) && Extends(old(seen), seen) && Live(f, w) && IsRefreshed(old(table), table, g.n)
      ensures TableSynced(w.log, table)
      ensures forall b :: DataLba(b) in w.log <==> DataLba(b) in old(w.log)
      ensures forall b :: DataLba(b) in w.log ==> w.log[DataLba(b)] == old(w.log)[DataLba(b)]
    {
      hide Live, AllGood, SameMeta, HasAll, Consistent, BitsTracked, BitsSynced, WordAt, BitAt, TableFits, TableSynced, IsRefreshed, Apart, Logged;
      ghost var u := table;
      RefreshDirs();
      RefreshedSize(u, table, g.n);
      RefreshedConsistent(u, table, g.n, g.nb, bitmap);
      RecordFramed(f, u, table, g.n);
      BitsCarry(w.log, bitmap);
      FlushNodes(f, from);
      BitsCarry(w.log, bitmap);
      SyncedApart(w.log, g, table, bitmap);
      TableSyncedSame(w.log, table);
      Finish(started, f, from);
      TableSyncedSame(w.log, table);
    }

    static lemma RefreshedSize(t: Table, u: Table, n: nat)
      requires |t| == n * NODE_WORDS && IsRefreshed(t, u, n)
      ensures |u| == |t|
    {
    }

    /** The first word of a new record: used, and its type. */
    static function NewWord(isFile: bool): nat { 1 + 256 * (if isFile then 1 else 2) }

    /**
     minfs_create at the first free record; the name has been found to be new. `vnodeOk` is
     whether memory for the vnode was found; if it was not, the create fails under the marker
     and leaves it set.
     */
    method Create(parent: nat, isFile: bool, name: seq<nat>, vnodeOk: bool) returns (rc: int, x: nat)
      requires Idle() && |name| == FIRST_DIRECT - NAME
      modifies this
      ensures Idle() && Extends(old(seen), seen)
      ensures AllGood(old(FrameTo(x, NewWord(isFile), parent)), seen, |old(seen)|) && Live(old(FrameTo(x, NewWord(isFile), parent)), w)
      ensures rc == -1 || rc == 0
      ensures 0 < x <= g.n && (forall i :: 1 <= i < x ==> UsedWord(Word(old(table), i, 0)))
      ensures x < g.n ==> !UsedWord(Word(old(table), x, 0))
      ensures rc == 0 <==> vnodeOk && x < g.n
      ensures state == DIRTY <==> old(state) == DIRTY || (x < g.n && !vnodeOk)
      ensures bitmap == old(bitmap)
      ensures x == g.n ==> table == old(table) && w == old(w)
      ensures x < g.n && !vnodeOk ==> table == SetRecord(old(table), x, Blank())
      ensures rc == 0 ==>
        IsRefreshed(SetRecord(old(table), x, Record(NewWord(isFile), parent, name)), table, g.n) && TableSynced(w.log, table)
      ensures rc == 0 ==> Fresh(table, x, isFile, parent, name)
    {
      hide Live, AllGood, SameMeta, HasAll, Consistent, BitsTracked, BitsSynced, WordAt, BitAt, IsRefreshed, TableSynced, OnlyRecord, UsedWord,
           SetRecord, Record, Blank, Apart, Logged;
      var ok;
      ok, x := FindFreeIndex();
      if !ok {
        AllGoodEmpty(FrameTo(g.n, NewWord(isFile), parent), seen);
        StartLive(FrameTo(g.n, NewWord(isFile), parent));
        return -1, g.n;
      }
      ghost var f, from := FrameTo(x, NewWord(isFile), parent), |seen|;
      var started := TxBegin(f);
      var word0 := NewWord(isFile);
      ghost var t0 := table;
      if !vnodeOk {
        table := SetRecord(table, x, Blank());
        RecordEmpty(t0, table, g, bitmap, x);
        SameMetaTables(f.w0.log, w.log, g);
        BlankApart(f, table);
        DirtyAfterFail(f, from);
        return -1, x;
      }
      table := SetRecord(table, x, Record(word0, parent, name));
      RecordEmpty(t0, table, g, bitmap, x);
      ghost var t1 := table;
      FinishNodes(started, f, from);
      FreshRecord(t1, table, g.n, x, isFile, parent, name);
      return 0, x;
    }

    /** Record x as create makes it: in use, a file or a directory, empty, with the parent and the name, and without blocks. */
    static ghost predicate Fresh(t: Table, x: nat, isFile: bool, parent: nat, name: seq<nat>)
      requires (x + 1) * NODE_WORDS <= |t| && |name| == 16
    {
      && t[x * NODE_WORDS] == (if isFile then 257 else 513) && (isFile ==> t[x * NODE_WORDS + 1] == 0)
      && t[x * NODE_WORDS + 2] == parent && t[x * NODE_WORDS + 3] == 0
      && (forall j :: 0 <= j < 16 ==> Word(t, x, 4 + j) == name[j]) && (forall k :: 20 <= k < 148 ==> Word(t, x, k) == 0xFFFF_FFFF)
    }

    static lemma FreshRecord(t: Table, u: Table, n: nat, x: nat, isFile: bool, parent: nat, name: seq<nat>)
      requires |t| == n * NODE_WORDS && x < n && |name| == 16 && IsRefreshed(t, u, n)
      requires forall k :: 0 <= k < NODE_WORDS ==> Word(t, x, k) == Record(NewWord(isFile), parent, name)[k]
      ensures Fresh(u, x, isFile, parent, name)
    {
      var r := Record(NewWord(isFile), parent, name);
      forall k | 0 <= k < NODE_WORDS && (k != 1 || isFile) ensures Word(u, x, k) == r[k] { assert Word(t, x, k) == r[k]; }
      assert Word(u, x, 0) == u[x * NODE_WORDS] && Word(u, x, 1) == u[x * NODE_WORDS + 1] && Word(u, x, 2) == u[x * NODE_WORDS + 2];
      assert Word(u, x, 3) == u[x * NODE_WORDS + 3];
      forall j | 0 <= j < 16 ensures Word(u, x, 4 + j) == name[j] { assert r[4 + j] == name[j]; }
      forall k | 20 <= k < 148 ensures Word(u, x, k) == 0xFFFF_FFFF { assert r[k] == NONE; }
    }

    /** Blanking a free record in memory only. */
    static lemma BlankApart(f: Frame, t: Table)
      requires StartApart(f) && f.x < f.g.n && |f.t0| == f.g.n * NODE_WORDS && !UsedWord(Word(f.t0, f.x, 0))
      requires t == SetRecord(f.t0, f.x, Blank()) && Consistent(t, f.g.n, f.g.nb, f.bits0)
      ensures Apart(f.l0, t, f.g.n, f.g.nb, f.bits0) && SameNodes(f.l0, t, f.g.n)
    {
      hide Apart, Consistent, OnlyRecord, SetRecord;
      ApartSizes(f.l0, f.t0, f.g.n, f.g.nb, f.bits0);
      RecordWords(f.t0, t, f.g.n, f.x);
      assert Word(t, f.x, 0) == 0;
      ApartUnflushed(f.l0, f.t0, f.bits0, t, f.bits0, f.g.n, f.g.nb, f.x);
      SameNodesOn(f.l0, f.t0, f.l0, t, f.g.n, f.x);
    }

    static lemma RecordEmpty(t0: Table, t: Table, g: Geo, bits: seq<bool>, x: nat)
      requires GeoOk(g) && x < g.n && |t0| == g.n * NODE_WORDS == |t| && OnlyRecord(t0, t, x) && Consistent(t0, g.n, g.nb, bits)
      requires forall k :: FIRST_DIRECT <= k < NODE_WORDS ==> Word(t, x, k) == NONE
      ensures Consistent(t, g.n, g.nb, bits) && forall j :: 0 <= j < DIRECT ==> t[Pos(x, j)] == NONE
    {
      forall j | 0 <= j < DIRECT ensures t[Pos(x, j)] == NONE { assert Word(t, x, FIRST_DIRECT + j) == NONE; }
      EmptyRecord(t0, t, g.n, g.nb, bits, x);
    }

    lemma DirtyAfterFail(f: Frame, from: nat)
      requires InTx(f, from) && MemOk() && SameMeta(w.disk, w.log) && CacheApart()
      ensures Idle() && AllGood(f, seen, from) && Live(f, w)
    {
      hide Live, AllGood, HasAll, Consistent, BitsTracked, Apart, Logged;
    }

    /** minfs_unlink of node x, found by name: refuses the root and directories with children. */
    method Unlink(x: nat) returns (rc: int)
      requires Idle() && x < g.n && UsedWord(Word(table, x, 0))
      modifies this
      ensures Idle() && Extends(old(seen), seen) && AllGood(old(FrameTo(x, 0, NONE)), seen, |old(seen)|) && Live(old(FrameTo(x, 0, NONE)), w)
      ensures state == old(state)
      ensures rc == -1 <==> x == 0 || (DirWord(Word(old(table), x, 0)) && Children(old(table), g.n, x, g.n) != 0)
      ensures rc == -1 <==> x == 0 || (DirWord(Word(old(table), x, 0)) && exists i :: 0 <= i < g.n && ChildOf(old(table), g.n, i, x))
      ensures rc == -1 ==> table == old(table) && bitmap == old(bitmap) && w == old(w) && seen == old(seen)
      ensures rc != -1 ==>
        && rc == 0 && IsRefreshed(SetRecord(old(table), x, Blank()), table, g.n) && TableSynced(w.log, table)
        && (forall b :: 0 <= b < |bitmap| ==> (bitmap[b] <==> StillMarked(old(table), old(bitmap), x, b)))
    {
      hide Live, AllGood, SameMeta, HasAll, Consistent, BitsTracked, BitsSynced, WordAt, BitAt, IsRefreshed, TableSynced,
        StillMarked, OnlyRecord, Apart, Logged;
      ghost var f, from := FrameTo(x, 0, NONE), |seen|;
      AllGoodEmpty(f, seen);
      StartLive(f);
      NoChildren(table, g.n, x);
      if x == 0 { return -1; }
      if DirWord(table[x * NODE_WORDS]) {
        var c := CountChildren(x);
        if c != 0 { return -1; }
      }
      ghost var t0 := table;
      var started := TxBegin(f);
      DropFile(x, started, f, from);
      ghost var t1 := table;
      table := SetRecord(table, x, Blank());
      SameReplaced(t0, t1, x, Blank());
      RecordEmpty(t1, table, g, bitmap, x);
      FinishNodes(started, f, from);
      return 0;
    }

    /** Block b is marked once node x is gone. */
    static ghost predicate StillMarked(t: Table, bits: seq<bool>, x: nat, b: nat)
      requires (x + 1) * NODE_WORDS <= |t| && b < |bits|
    {
      bits[b] && (FileWord(Word(t, x, 0)) ==> forall j :: 0 <= j < DIRECT ==> t[Pos(x, j)] != b)
    }

    /** The blocks of a file about to be unlinked. */
    method DropFile(x: nat, started: bool, ghost f: Frame, ghost from: nat)
      requires InTx(f, from) && MemOk() && x < g.n && (started ==> BitsSynced(w.log, bitmap))
      modifies this`w, this`seen, this`table, this`bitmap, this`bdirty
      ensures InTx(f, from) && MemOk() && Extends(old(seen), seen) && OnlyRecord(old(table), table, x)
      ensures started ==> BitsSynced(w.log, bitmap)
      ensures |bitmap| == |old(bitmap)| && forall b :: 0 <= b < |bitmap| ==> (bitmap[b] <==> StillMarked(old(table), old(bitmap), x, b))
    {
      hide Live, AllGood, SameMeta, HasAll, Consistent, BitsTracked, BitsSynced, WordAt, BitAt, Logged;
      if FileWord(table[x * NODE_WORDS]) {
        ReleaseBlocks(x);
        FlushBitmap(f, from);
      }
    }

    /** Replacing record x forgets what it held. */
    static lemma SameReplaced(t0: Table, t1: Table, x: nat, r: seq<nat>)
      requires (x + 1) * NODE_WORDS <= |t0| && OnlyRecord(t0, t1, x) && |r| == NODE_WORDS
      ensures SetRecord(t1, x, r) == SetRecord(t0, x, r) && OnlyRecord(t0, SetRecord(t1, x, r), x)
    {
      forall q | 0 <= q < x * NODE_WORDS ensures t1[q] == t0[q] { assert q / NODE_WORDS != x; }
      forall q | (x + 1) * NODE_WORDS <= q < |t0| ensures t1[q] == t0[q] { assert q / NODE_WORDS != x; }
      assert t1[..x * NODE_WORDS] == t0[..x * NODE_WORDS];
      assert t1[(x + 1) * NODE_WORDS..] == t0[(x + 1) * NODE_WORDS..];
    }

    // ----- mounting ---------------------------------------------------------------------------------------

    /** The frame of a recovery of disk d. */
    static ghost function RecoveryFrame(d: Disk, g: Geo): Frame {
      Frame(true, TableOf(d, g), TableOf(d, g), BitsOf(d, g), Wb(d, d), 0, g, 0, 0, false)
    }

    /** The data blocks of d are those of d0. */
    static ghost predicate SameData(d0: Disk, d: Disk) {
      && (forall b :: DataLba(b) in d <==> DataLba(b) in d0)
      && (forall b :: DataLba(b) in d ==> d[DataLba(b)] == d0[DataLba(b)])
    }

    /**
     minfs_recover_if_needed, on a table and bitmap just read from the device. A clean filesystem
     is left alone; a dirty one is recovered, and every disk on the way there is one from which
     recovery would come to the same end. Data blocks are not touched.
     */
    method Recover()
      requires Shape() && w.disk == w.log && state == StateOf(w.log) && CrashSafe(w.disk, g)
      requires TableSynced(w.log, table) && BitsSynced(w.log, bitmap)
      modifies this
      ensures Idle() && state == CLEAN && Extends(old(seen), seen) && w.disk == w.log && SameData(old(w.disk), w.disk)
      ensures old(state) == CLEAN ==> table == old(table) && bitmap == old(bitmap) && w == old(w)
      ensures old(state) == DIRTY ==>
        && AllRecovered(old(table), table, g.n, g.nb) && MarksKept(old(table), g.n, g.nb, bitmap)
      ensures AllGood(RecoveryFrame(old(w.disk), g), seen, |old(seen)|) && seqno == old(seqno)
    {
      hide Live, AllGood, SameMeta, HasAll, Consistent, BitsTracked, BitsSynced, WordAt, BitAt, TableFits, IsRebuilt, IsRefreshed,
           AllRecovered, MarksKept, TableSynced, Apart, Logged;
      SyncedTracked(w.log, bitmap, bdirty);
      SyncedTables(w.log, g, table, bitmap);
      SameMetaRefl(w.log);
      ghost var f, from, t0 := RecoveryFrame(w.disk, g), |seen|, table;
      AllGoodEmpty(f, seen);
      if state != DIRTY { SyncedApart(w.log, g, table, bitmap); return; }
      RecoveryLive(f, w);
      Rebuild();
      ghost var r := table;
      RebuiltSize(t0, r, g.n, g.nb);
      RefreshDirs();
      RefreshedSize(r, table, g.n);
      RefreshedClosed(t0, r, table, g.n, g.nb);
      RecoveryFits(f, table);
      RecoveryConsistent(t0, table, g.n, g.nb, bitmap);
      FlushNodes(f, from);
      TableSyncedSame(w.log, table);
      FlushBitmap(f, from);
      TableSyncedSame(w.log, table);
      Finish(true, f, from);
    }

    static lemma TableSyncedSame(d: Disk, t: Table)
      ensures TableSynced(d, t) <==> forall q :: 0 <= q < |t| ==> WordAt(d, q) == t[q]
    {
    }

    static lemma SyncedTracked(d: Disk, bits: seq<bool>, bdirty: seq<bool>)
      requires BitsSynced(d, bits) && |bits| == |bdirty| * SECTOR_BITS
      ensures BitsTracked(d, bits, bdirty)
    {
    }

    static lemma SyncedTables(d: Disk, g: Geo, t: Table, bits: seq<bool>)
      requires TableSynced(d, t) && BitsSynced(d, bits) && |t| == g.n * NODE_WORDS && |bits| == g.bs * SECTOR_BITS
      ensures TableOf(d, g) == t && BitsOf(d, g) == bits
    {
    }

    static lemma RecoveryLive(f: Frame, w: Wb<Lba, Sector>)
      requires f == RecoveryFrame(w.disk, f.g) && w.disk == w.log && HasAll(w.log, f.g) && StateOf(w.log) == DIRTY
      ensures Live(f, w)
    {
    }

    static lemma RebuiltSize(t: Table, r: Table, n: nat, nb: nat)
      requires |t| == n * NODE_WORDS && IsRebuilt(t, r, n, nb)
      ensures |r| == |t|
    {
    }

    static lemma RecoveryFits(f: Frame, t: Table)
      requires f.rec && |t| == |f.t0| == f.g.n * NODE_WORDS
      requires forall i, k :: 0 <= i < f.g.n && 0 <= k < NODE_WORDS ==> Word(t, i, k) == RecoveredWord(f.t0, f.g.n, f.g.nb, i, k)
      ensures TableFits(f, t) && AllRecovered(f.t0, t, f.g.n, f.g.nb)
    {
      hide RecoveredWord;
    }

    /**
     minfs_mount, after a reboot: the cache is empty and the disk is any that a crash may have
     left. Refuses a table without a root directory; otherwise the filesystem is consistent and
     marked clean, the table is the one on the disk, recovered if the marker was set, and the
     data is as it was. A crash on the way leaves a disk that another mount brings to the same table.
     */
    method Mount() returns (rc: int)
      requires GeoOk(g) && w.disk == w.log && HasAll(w.log, g) && CrashSafe(w.disk, g) && Logged(seen, w.disk)
      modifies this
      ensures Logged(seen, w.disk)
      ensures rc == 0 <==> DirWord(WordAt(old(w.disk), 0))
      ensures rc == 0 || rc == -13
      ensures SuperLba in old(w.disk) && SuperLba in w.disk && old(w.disk)[SuperLba].SuperSec? && seqno == old(w.disk)[SuperLba].seqno
      ensures rc == 0 ==> Idle() && state == CLEAN && Mounted(old(w.disk), g, table)
      ensures w.disk == w.log && SameData(old(w.disk), w.disk) && Extends(old(seen), seen)
      ensures AllGood(RecoveryFrame(old(w.disk), g), seen, |old(seen)|)
    {
      state := StateOf(w.log);
      seqno := w.log[SuperLba].seqno;
      table := TableOf(w.log, g);
      bitmap := BitsOf(w.log, g);
      bdirty := seq(g.bs, s => false);
      assert table[0] == WordAt(w.log, 0);
      if !UsedWord(table[0]) || !DirWord(table[0]) { return -13; }
      Recover();
      return 0;
    }
  }
}
