/**
 What a write does to the contents of a file as later reads see them. The premises are the
 ones Minfs.Write ensures.
 */
module MinfsContents {
  import opened MinfsTable
  import opened MinfsDisk
  import opened MinfsFs

  /** t and d are the table and cache after a successful write of `data` at `offset` in file x. */
  ghost predicate Wrote(t0: Table, d0: Disk, t: Table, d: Disk, nb: nat, x: nat, offset: nat, data: seq<nat>)
    requires (x + 1) * NODE_WORDS <= |t0| && |t| == |t0|
  {
    var c := Word(t0, x, COUNT);
    && nb <= NONE && c <= DIRECT && offset + |data| <= MAX_FILE
    && (forall j :: 0 <= j < DIRECT ==> t[Pos(x, j)] == NONE || t[Pos(x, j)] < nb)
    && Word(t, x, SIZE) == Minfs.Max(Word(t0, x, SIZE), offset + |data|)
    && Word(t, x, COUNT) == Minfs.Max(c, Minfs.BlocksFor(offset + |data|))
    && WrittenTo(t, d0, d, x, offset, data, |data|, c, nb)
    && (forall j :: 0 <= j < DIRECT && !(c <= j < Minfs.BlocksFor(offset + |data|)) ==> t[Pos(x, j)] == t0[Pos(x, j)])
    && Minfs.NoHole(t, x, offset, |data|, DIRECT)
  }

  /** The byte lies in a block the write added without storing anything in it. */
  ghost predicate InGap(c: nat, offset: nat, n: nat, off: nat) {
    c <= off / BLOCK_SIZE < Minfs.BlocksFor(offset + n) && !(n > 0 && offset / BLOCK_SIZE <= off / BLOCK_SIZE)
  }

  /** Byte by byte: the data, the old byte, a zero, or in a gap whatever the new block held before. */
  lemma ByteAfterWrite(t0: Table, d0: Disk, t: Table, d: Disk, nb: nat, x: nat, offset: nat, data: seq<nat>, off: nat)
    requires (x + 1) * NODE_WORDS <= |t0| && |t| == |t0| && Wrote(t0, d0, t, d, nb, x, offset, data) && off < MAX_FILE
    ensures FileByte(t, d, x, off) ==
      if offset <= off < offset + |data| then data[off - offset]
      else if InGap(Word(t0, x, COUNT), offset, |data|, off) then FileByte(t, d0, x, off)
      else FileByte(t0, d0, x, off)
  {
    var j, c := off / BLOCK_SIZE, Word(t0, x, COUNT);
    assert off / BLOCK_SIZE < DIRECT;
    if offset <= off < offset + |data| {
      assert offset / BLOCK_SIZE <= j && j * BLOCK_SIZE < offset + |data|;
      assert j < Minfs.BlocksFor(offset + |data|) <= Word(t, x, COUNT);
      assert t[Pos(x, j)] != NONE;
    } else if j < c {
      assert t[Pos(x, j)] == t0[Pos(x, j)];
    } else if j < Minfs.BlocksFor(offset + |data|) {
      assert j * BLOCK_SIZE < offset + |data|;
    }
  }

  /** The write starts in a block the file has or right behind its last one: a caller can see this before writing. */
  predicate Adjoins(c: nat, offset: nat, n: nat) {
    if n > 0 then offset / BLOCK_SIZE <= c else Minfs.BlocksFor(offset) <= c
  }

  /**
   Reading back what was written gives it back. The other bytes are untouched if the write
   adjoins the file; a write further out adds blocks it does not clear, and then they are
   untouched exactly when those blocks held zeros.
   */
  lemma ReadAfterWrite(t0: Table, d0: Disk, t: Table, d: Disk, nb: nat, x: nat, offset: nat, data: seq<nat>)
    requires (x + 1) * NODE_WORDS <= |t0| && |t| == |t0| && Wrote(t0, d0, t, d, nb, x, offset, data)
    ensures forall p :: 0 <= p < |data| ==> FileByte(t, d, x, offset + p) == data[p]
    ensures
      (forall off :: 0 <= off < MAX_FILE && !(offset <= off < offset + |data|) ==> FileByte(t, d, x, off) == FileByte(t0, d0, x, off)) <==>
      (forall off :: 0 <= off < MAX_FILE && InGap(Word(t0, x, COUNT), offset, |data|, off) ==> FileByte(t, d0, x, off) == 0)
    ensures Adjoins(Word(t0, x, COUNT), offset, |data|) ==>
      forall off :: 0 <= off < MAX_FILE && !(offset <= off < offset + |data|) ==> FileByte(t, d, x, off) == FileByte(t0, d0, x, off)
  {
    hide Wrote, FileByte;
    forall off | 0 <= off < MAX_FILE
      ensures FileByte(t, d, x, off) ==
        if offset <= off < offset + |data| then data[off - offset]
        else if InGap(Word(t0, x, COUNT), offset, |data|, off) then FileByte(t, d0, x, off)
        else FileByte(t0, d0, x, off)
      ensures InGap(Word(t0, x, COUNT), offset, |data|, off) ==> !(offset <= off < offset + |data|) && FileByte(t0, d0, x, off) == 0
    {
      ByteAfterWrite(t0, d0, t, d, nb, x, offset, data, off);
      if InGap(Word(t0, x, COUNT), offset, |data|, off) { GapWasHole(t0, d0, x, offset, |data|, off); }
    }
    WroteFits(t0, d0, t, d, nb, x, offset, data);
    NoGap(Word(t0, x, COUNT), offset, |data|);
  }

  lemma WroteFits(t0: Table, d0: Disk, t: Table, d: Disk, nb: nat, x: nat, offset: nat, data: seq<nat>)
    requires (x + 1) * NODE_WORDS <= |t0| && |t| == |t0| && Wrote(t0, d0, t, d, nb, x, offset, data)
    ensures offset + |data| <= MAX_FILE
  {
  }

  lemma GapWasHole(t0: Table, d0: Disk, x: nat, offset: nat, n: nat, off: nat)
    requires (x + 1) * NODE_WORDS <= |t0| && InGap(Word(t0, x, COUNT), offset, n, off)
    ensures !(offset <= off < offset + n) && FileByte(t0, d0, x, off) == 0
  {
  }

  /** There is no gap exactly when the write adjoins the file. */
  lemma NoGap(c: nat, offset: nat, n: nat)
    ensures (forall off :: 0 <= off ==> !InGap(c, offset, n, off)) <==> Adjoins(c, offset, n)
  {
    var off := c * BLOCK_SIZE;
    assert off / BLOCK_SIZE == c;
    if n > 0 && offset / BLOCK_SIZE > c { assert InGap(c, offset, n, off); }
    if n == 0 && Minfs.BlocksFor(offset) > c { assert InGap(c, offset, n, off); }
  }

  // ----- a concrete case ------------------------------------------------------------------------------

  /** One record: a file of `size` bytes whose first `count` blocks are the data blocks 0, 1, ... */
  function OneFile(size: nat, count: nat): (t: Table)
    ensures |t| == NODE_WORDS && t[0] == 1 + 256 && Word(t, 0, SIZE) == size && Word(t, 0, COUNT) == count
    ensures forall j :: 0 <= j < DIRECT ==> t[Pos(0, j)] == if j < count then j else NONE
  {
    seq(NODE_WORDS, w =>
      if w == 0 then 1 + 256
      else if w == SIZE then size
      else if w == COUNT then count
      else if w < FIRST_DIRECT then 0
      else if w - FIRST_DIRECT < count then w - FIRST_DIRECT else NONE)
  }

  /** Two data blocks: the first full of sevens, the second beginning with `first`. */
  ghost function TwoBlocks(first: nat): Disk {
    map[DataLba(0) := DataSec(seq(BLOCK_SIZE, p => 7)),
        DataLba(1) := DataSec(seq(BLOCK_SIZE, p => if p == 0 then first else 0))]
  }

  /** Storing one byte at 512 in an empty file makes the 512 bytes before it what the free block held: sevens, not zeros. */
  lemma GapShows()
    ensures Wrote(OneFile(0, 0), TwoBlocks(9), OneFile(513, 2), TwoBlocks(5), 2, 0, 512, [5])
    ensures !Adjoins(0, 512, 1)
    ensures FileByte(OneFile(0, 0), TwoBlocks(9), 0, 0) == 0 && FileByte(OneFile(513, 2), TwoBlocks(5), 0, 0) == 7
  {
    var t, d := OneFile(513, 2), TwoBlocks(5);
    assert Minfs.BlocksFor(513) == 2;
    forall off | 0 <= off < MAX_FILE && t[Pos(0, off / BLOCK_SIZE)] < 2
      ensures ByteAt(t, d, 0, off) == if off == 512 then 5 else if off / BLOCK_SIZE == 1 then 0 else ByteAt(t, TwoBlocks(9), 0, off)
    {
      assert off / BLOCK_SIZE < 2 && t[Pos(0, off / BLOCK_SIZE)] == off / BLOCK_SIZE;
    }
    assert t[Pos(0, 0)] == 0;
  }

  // ----- a write and the read after it ----------------------------------------------------------------

  /** Whatever Write accepted is what Read returns, and a write that adjoins the file changes no other byte. */
  method WriteThenRead(fs: Minfs, x: nat, offset: nat, data: seq<nat>) returns (rc: int, got: int, bytes: seq<nat>)
    requires fs.Idle() && x < fs.g.n && (IsFile(fs.table, fs.g.n, x) ==> Word(fs.table, x, COUNT) <= DIRECT)
    modifies fs
    ensures fs.Idle() && rc >= -1
    ensures rc >= 0 ==> rc <= |data| && got == rc && bytes == data[..rc]
    ensures rc >= 0 && Adjoins(Word(old(fs.table), x, COUNT), offset, rc) ==>
      forall off :: 0 <= off < MAX_FILE && !(offset <= off < offset + rc) ==>
        FileByte(fs.table, fs.w.log, x, off) == FileByte(old(fs.table), old(fs.w.log), x, off)
  {
    hide WrittenTo, FileByte, Minfs.SameOtherBlocks, Minfs.Grown, Minfs.NoHole, Minfs.CanStore, Live, AllGood, SameMeta, HasAll,
         BitsTracked, BitsSynced, TableSynced;
    got, bytes := -1, [];
    ghost var t0, d0 := fs.table, fs.w.log;
    rc := fs.Write(x, offset, data);
    if rc < 0 { return; }
    WroteIs(t0, d0, fs.table, fs.w.log, fs.g, fs.bitmap, x, offset, data[..rc]);
    ReadAfterWrite(t0, d0, fs.table, fs.w.log, fs.g.nb, x, offset, data[..rc]);
    got, bytes := fs.Read(x, offset, rc);
    assert bytes == data[..rc];
  }

  /** The premises of ReadAfterWrite, from what Write ensures. */
  lemma WroteIs(t0: Table, d0: Disk, t: Table, d: Disk, g: Geo, bits: seq<bool>, x: nat, offset: nat, data: seq<nat>)
    requires GeoOk(g) && Consistent(t, g.n, g.nb, bits) && IsFile(t, g.n, x) && |t0| == |t| && Word(t0, x, COUNT) <= DIRECT
    requires offset + |data| <= MAX_FILE && Minfs.NoHole(t, x, offset, |data|, DIRECT)
    requires Word(t, x, SIZE) == Minfs.Max(Word(t0, x, SIZE), offset + |data|)
    requires Word(t, x, COUNT) == Minfs.Max(Word(t0, x, COUNT), Minfs.BlocksFor(offset + |data|))
    requires WrittenTo(t, d0, d, x, offset, data, |data|, Word(t0, x, COUNT), g.nb)
    requires forall j :: 0 <= j < DIRECT && !(Word(t0, x, COUNT) <= j < Minfs.BlocksFor(offset + |data|)) ==> t[Pos(x, j)] == t0[Pos(x, j)]
    ensures Wrote(t0, d0, t, d, g.nb, x, offset, data)
  {
    hide WrittenTo, Minfs.NoHole, NeverShared;
  }
}
