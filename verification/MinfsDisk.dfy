/**
 minfs on disk: the sectors of the superblock, the node table, the bitmap and the data, how a
 crash mixes old and new ones, and what must hold of every disk that a crash can leave.
 */
module MinfsDisk {
  import opened WriteBack
  import opened MinfsTable

  const SECTOR_WORDS: nat := 128
  const SECTOR_BITS: nat := 4096
  const CLEAN: nat := 0
  const DIRTY: nat := 1
  const INVALID: nat := 2

  datatype Lba = SuperLba | TableLba(s: nat) | BitmapLba(s: nat) | DataLba(b: nat)

  datatype Sector =
    | SuperSec(state: nat, seqno: nat)
    | TableSec(words: seq<nat>)
    | BitmapSec(bits: seq<bool>)
    | DataSec(bytes: seq<nat>)

  type Disk = map<Lba, Sector>

  /** The geometry of a mounted filesystem: nodes, data blocks, table and bitmap sectors. */
  datatype Geo = Geo(n: nat, nb: nat, ts: nat, bs: nat)

  predicate GeoOk(g: Geo) {
    g.n * NODE_WORDS <= g.ts * SECTOR_WORDS && g.nb <= g.bs * SECTOR_BITS <= NONE && g.n > 0
  }

  function StateOf(d: Disk): nat {
    if SuperLba in d && d[SuperLba].SuperSec? then d[SuperLba].state else INVALID
  }

  /** Word w of the node table on disk d. */
  function WordAt(d: Disk, w: nat): nat {
    var l := TableLba(w / SECTOR_WORDS);
    if l in d && d[l].TableSec? && w % SECTOR_WORDS < |d[l].words| then d[l].words[w % SECTOR_WORDS] else 0
  }

  function BitAt(d: Disk, b: nat): bool {
    var l := BitmapLba(b / SECTOR_BITS);
    l in d && d[l].BitmapSec? && b % SECTOR_BITS < |d[l].bits| && d[l].bits[b % SECTOR_BITS]
  }

  function TableOf(d: Disk, g: Geo): (t: Table)
    ensures |t| == g.n * NODE_WORDS && forall w :: 0 <= w < |t| ==> t[w] == WordAt(d, w)
  {
    seq(g.n * NODE_WORDS, w requires 0 <= w => WordAt(d, w))
  }

  function BitsOf(d: Disk, g: Geo): (bits: seq<bool>)
    ensures |bits| == g.bs * SECTOR_BITS && forall b :: 0 <= b < |bits| ==> bits[b] == BitAt(d, b)
  {
    seq(g.bs * SECTOR_BITS, b requires 0 <= b => BitAt(d, b))
  }

  /** The crash property: a disk that says it is clean is consistent; any other says dirty and will be recovered. */
  ghost predicate CrashSafe(d: Disk, g: Geo) {
    && (StateOf(d) == CLEAN || StateOf(d) == DIRTY)
    && (StateOf(d) == CLEAN ==> Consistent(TableOf(d, g), g.n, g.nb, BitsOf(d, g)))
  }

  /** Each sector of d is the one of d0 or the one of d1. */
  ghost predicate Mixed(d0: Disk, d1: Disk, d: Disk) {
    d.Keys == d0.Keys == d1.Keys && forall l :: l in d ==> d[l] == d0[l] || d[l] == d1[l]
  }

  lemma MixedParts(d0: Disk, d1: Disk, d: Disk)
    requires Mixed(d0, d1, d)
    ensures StateOf(d) == StateOf(d0) || StateOf(d) == StateOf(d1)
    ensures forall w :: WordAt(d, w) == WordAt(d0, w) || WordAt(d, w) == WordAt(d1, w)
    ensures forall b :: BitAt(d, b) == BitAt(d0, b) || BitAt(d, b) == BitAt(d1, b)
  {
  }

  /** Same metadata: table and bitmap, not the superblock and not the data. */
  ghost predicate SameMeta(d0: Disk, d1: Disk) {
    (forall w :: WordAt(d0, w) == WordAt(d1, w)) && (forall b :: BitAt(d0, b) == BitAt(d1, b))
  }

  lemma SameMetaTables(d0: Disk, d1: Disk, g: Geo)
    requires SameMeta(d0, d1)
    ensures TableOf(d0, g) == TableOf(d1, g) && BitsOf(d0, g) == BitsOf(d1, g)
  {
  }

  /** With equal metadata on both sides every mix is as consistent as they are. */
  lemma MixedSafe(d0: Disk, d1: Disk, d: Disk, g: Geo)
    requires Mixed(d0, d1, d) && SameMeta(d0, d1)
    requires StateOf(d0) in {CLEAN, DIRTY} && StateOf(d1) in {CLEAN, DIRTY}
    requires Consistent(TableOf(d0, g), g.n, g.nb, BitsOf(d0, g))
    ensures CrashSafe(d, g) && SameMeta(d0, d)
  {
    MixedParts(d0, d1, d);
    assert SameMeta(d0, d);
    SameMetaTables(d0, d, g);
  }

  // ----- what an operation on one node leaves alone ----------------------------------------------

  /**
   The state an operation started from: table and bitmap in memory, the table in the cache (the
   same unless an earlier operation failed under the marker), and the device. The operation may
   give record x the first word `word0` and the parent `parent0`, and take free blocks for it if
   it may `grow`. `rec` marks a recovery, which may touch every node but no data.
   */
  datatype Frame = Frame(rec: bool, t0: Table, l0: Table, bits0: seq<bool>, w0: Wb<Lba, Sector>, x: nat, g: Geo, word0: nat, parent0: nat,
    grow: bool)

  /** Words that an operation on node x may not change: those of other nodes, except the sizes of directories. */
  predicate Foreign(t0: Table, x: nat, i: nat, k: nat)
    requires (i + 1) * NODE_WORDS <= |t0| && k < NODE_WORDS
  {
    i != x && !(k == SIZE && DirWord(Word(t0, i, 0)))
  }

  /** Every foreign word is the one in memory or the one in the cache when the operation started. */
  ghost predicate TableFramed(f: Frame, t: Table) {
    && |t| == |f.t0| == |f.l0| == f.g.n * NODE_WORDS
    && (forall i, k :: 0 <= i < f.g.n && 0 <= k < NODE_WORDS && Foreign(f.t0, f.x, i, k) ==>
          Word(t, i, k) == Word(f.t0, i, k) || Word(t, i, k) == Word(f.l0, i, k))
    && (f.x < f.g.n ==> OwnWord(f, t[f.x * NODE_WORDS]) && forall j :: 0 <= j < DIRECT ==> OwnRef(f, j, t[Pos(f.x, j)]))
  }

  /** The first word of record x: an old one or the new one. */
  ghost predicate OwnWord(f: Frame, v: nat)
    requires |f.t0| == |f.l0| == f.g.n * NODE_WORDS && f.x < f.g.n
  {
    v == f.t0[f.x * NODE_WORDS] || v == f.l0[f.x * NODE_WORDS] || v == f.word0
  }

  /** The first word and the parent of a record lie in one sector: a crash finds them both old or both new. */
  lemma SameSector(x: nat)
    ensures x * NODE_WORDS / SECTOR_WORDS == (x * NODE_WORDS + PARENT) / SECTOR_WORDS
  {
    var w := x * NODE_WORDS;
    var q, r := w / SECTOR_WORDS, w % SECTOR_WORDS;
    SectorRest(x, q, r);
    SectorIs(w + PARENT, q, r + PARENT);
  }

  lemma SectorRest(x: nat, q: nat, r: nat)
    requires 148 * x == 128 * q + r && r < 128
    ensures r <= 124
  {
    var z := 37 * x - 32 * q;
    assert r == 4 * z;
  }

  lemma SectorIs(w: nat, q: nat, r: nat)
    requires w == 128 * q + r && r < 128
    ensures w / 128 == q
  {
  }

  function Pair(t: Table, x: nat): (nat, nat)
    requires (x + 1) * NODE_WORDS <= |t|
  {
    (t[x * NODE_WORDS], t[x * NODE_WORDS + PARENT])
  }

  /** First word and parent of record x: both as they were, in memory or in the cache, or both new. */
  ghost predicate PairFramed(f: Frame, t: Table) {
    && |t| == |f.t0| == |f.l0| == f.g.n * NODE_WORDS
    && (f.x < f.g.n ==> Pair(t, f.x) in {Pair(f.t0, f.x), Pair(f.l0, f.x), (f.word0, f.parent0)})
  }

  /** A direct word of node x: an old one, none, or, if it may grow, a block that was free when the operation started. */
  ghost predicate OwnRef(f: Frame, j: nat, v: nat)
    requires |f.t0| == |f.l0| == f.g.n * NODE_WORDS && f.x < f.g.n && j < DIRECT
  {
    v == f.t0[Pos(f.x, j)] || v == f.l0[Pos(f.x, j)] || v == NONE || (f.grow && v < f.g.nb <= |f.bits0| && !f.bits0[v])
  }

  /** Data blocks in use that node x does not reference: a crash finds them as they were on the disk or in the cache. */
  ghost predicate ForeignBlock(f: Frame, b: nat) {
    f.rec ||
    (&& b < f.g.nb <= |f.bits0| && f.bits0[b]
     && |f.t0| == f.g.n * NODE_WORDS && (f.x < f.g.n ==> forall j :: 0 <= j < DIRECT ==> f.t0[Pos(f.x, j)] != b))
  }

  ghost predicate DataFramed(f: Frame, d: Disk) {
    forall b :: ForeignBlock(f, b) ==> SameBlock(f, d, DataLba(b))
  }

  ghost predicate SameBlock(f: Frame, d: Disk, l: Lba) {
    l in d ==> (l in f.w0.disk && d[l] == f.w0.disk[l]) || (l in f.w0.log && d[l] == f.w0.log[l])
  }

  ghost predicate Framed(f: Frame, d: Disk) {
    TableFits(f, TableOf(d, f.g)) && DataFramed(f, d)
  }

  ghost predicate TableFits(f: Frame, t: Table) {
    && (!f.rec ==> TableFramed(f, t) && PairFramed(f, t))
    && (f.rec ==> |t| == |f.t0| == f.g.n * NODE_WORDS && HalfRecovered(f.t0, t, f.g.n, f.g.nb))
  }

  lemma TableMixedFramed(f: Frame, t0: Table, t1: Table, t: Table)
    requires TableFramed(f, t0) && TableFramed(f, t1) && |t| == |t0|
    requires forall w :: 0 <= w < |t| ==> t[w] == t0[w] || t[w] == t1[w]
    ensures TableFramed(f, t)
  {
    forall i, k | 0 <= i < f.g.n && 0 <= k < NODE_WORDS && Foreign(f.t0, f.x, i, k)
      ensures Word(t, i, k) == Word(f.t0, i, k) || Word(t, i, k) == Word(f.l0, i, k)
    {
      assert Word(t, i, k) == Word(t0, i, k) || Word(t, i, k) == Word(t1, i, k);
    }
  }

  lemma TableMixedFits(f: Frame, t0: Table, t1: Table, t: Table)
    requires TableFits(f, t0) && TableFits(f, t1) && |t| == |t0| == |t1|
    requires forall w :: 0 <= w < |t| ==> t[w] == t0[w] || t[w] == t1[w]
    requires forall x :: 0 <= x && (x + 1) * NODE_WORDS <= |t| ==> Pair(t, x) == Pair(t0, x) || Pair(t, x) == Pair(t1, x)
    ensures TableFits(f, t)
  {
    hide RecoveredWord;
    if !f.rec {
      TableMixedFramed(f, t0, t1, t);
    } else {
      forall i, k | 0 <= i < f.g.n && 0 <= k < NODE_WORDS
        ensures Word(t, i, k) == Word(f.t0, i, k) || Word(t, i, k) == RecoveredWord(f.t0, f.g.n, f.g.nb, i, k)
      {
        assert Word(t0, i, k) == t0[i * NODE_WORDS + k] && Word(t1, i, k) == t1[i * NODE_WORDS + k];
      }
    }
  }

  lemma MixedPairs(g: Geo, d0: Disk, d1: Disk, d: Disk)
    requires Mixed(d0, d1, d)
    ensures forall x :: 0 <= x && (x + 1) * NODE_WORDS <= g.n * NODE_WORDS ==>
      Pair(TableOf(d, g), x) == Pair(TableOf(d0, g), x) || Pair(TableOf(d, g), x) == Pair(TableOf(d1, g), x)
  {
    forall x | 0 <= x && (x + 1) * NODE_WORDS <= g.n * NODE_WORDS
      ensures Pair(TableOf(d, g), x) == Pair(TableOf(d0, g), x) || Pair(TableOf(d, g), x) == Pair(TableOf(d1, g), x)
    {
      SameSector(x);
      var l := TableLba(x * NODE_WORDS / SECTOR_WORDS);
      assert l in d ==> d[l] == d0[l] || d[l] == d1[l];
    }
  }

  lemma MixedFramed(f: Frame, d0: Disk, d1: Disk, d: Disk)
    requires Framed(f, d0) && Framed(f, d1) && Mixed(d0, d1, d)
    ensures Framed(f, d)
  {
    hide TableFits;
    MixedParts(d0, d1, d);
    MixedPairs(f.g, d0, d1, d);
    TableMixedFits(f, TableOf(d0, f.g), TableOf(d1, f.g), TableOf(d, f.g));
    forall b | ForeignBlock(f, b) ensures SameBlock(f, d, DataLba(b)) {
      assert SameBlock(f, d0, DataLba(b)) && SameBlock(f, d1, DataLba(b));
    }
  }
}
