/**
 Crash framing: what recovery makes of a disk that a crash left in the middle of an operation
 on one node, for all the other nodes.
 */
module MinfsCrash {
  import opened MinfsTable
  import opened MinfsDisk

  /**
   How far the cached table l may lag behind the table t in memory. They agree on which records
   are files; what a cached file references is still marked, and no other file in memory has it.
   */
  ghost predicate Apart(l: Table, t: Table, n: nat, nb: nat, bits: seq<bool>) {
    && |l| == |t| == n * NODE_WORDS && nb <= |bits|
    && (forall i :: 0 <= i < n ==> IsFile(l, n, i) == IsFile(t, n, i))
    && (forall i, j :: Ref(l, n, nb, i, j) ==> bits[l[Pos(i, j)]])
    && (forall i, j, i', j' :: Ref(l, n, nb, i, j) && Ref(t, n, nb, i', j') && i != i' ==> l[Pos(i, j)] != t[Pos(i', j')])
  }

  /** Cache and memory agree on which records are in use, on what they are and where they belong. */
  ghost predicate SameNodes(l: Table, t: Table, n: nat) {
    && |l| == |t| == n * NODE_WORDS
    && forall i :: 0 <= i < n ==>
         && UsedWord(l[i * NODE_WORDS]) == UsedWord(t[i * NODE_WORDS])
         && (UsedWord(t[i * NODE_WORDS]) ==> Pair(l, i) == Pair(t, i))
  }

  /** Only record x changed, in memory and perhaps in the cache. */
  lemma SameNodesOn(l: Table, t: Table, l': Table, t': Table, n: nat, x: nat)
    requires SameNodes(l, t, n) && |l'| == |t'| == n * NODE_WORDS && x < n
    requires forall i :: 0 <= i < n && i != x ==> Pair(t', i) == Pair(t, i)
    requires forall w :: 0 <= w < |l| ==> l'[w] == l[w] || l'[w] == t'[w]
    requires Pair(l', x) == Pair(t', x) ||
      (Pair(l', x) == Pair(l, x) && if UsedWord(t[x * NODE_WORDS]) then Pair(t', x) == Pair(t, x) else !UsedWord(t'[x * NODE_WORDS]))
    ensures SameNodes(l', t', n)
  {
    hide UsedWord;
    forall i | 0 <= i < n
      ensures UsedWord(l'[i * NODE_WORDS]) == UsedWord(t'[i * NODE_WORDS]) && (UsedWord(t'[i * NODE_WORDS]) ==> Pair(l', i) == Pair(t', i))
    {
      assert Pair(l', i).0 == l'[i * NODE_WORDS] && Pair(t', i).0 == t'[i * NODE_WORDS] && Pair(t, i).0 == t[i * NODE_WORDS];
      assert Pair(l, i).0 == l[i * NODE_WORDS];
    }
  }

  lemma ApartSame(t: Table, n: nat, nb: nat, bits: seq<bool>)
    requires Consistent(t, n, nb, bits) && nb <= NONE
    ensures Apart(t, t, n, nb, bits)
  {
  }

  /** What one operation on node x may do to table, cache and bitmap without closing the gap between the other nodes. */
  ghost predicate Advanced(l: Table, t: Table, bits: seq<bool>, l': Table, t': Table, bits': seq<bool>, n: nat, nb: nat, x: nat) {
    && |l| == |t| == |l'| == |t'| == n * NODE_WORDS && x < n && nb <= |bits| == |bits'|
    && (forall i :: 0 <= i < n && i != x ==> t'[i * NODE_WORDS] == t[i * NODE_WORDS])
    && (forall i, j :: 0 <= i < n && 0 <= j < DIRECT && i != x ==> t'[Pos(i, j)] == t[Pos(i, j)])
    && (forall w :: 0 <= w < |l| ==> l'[w] == l[w] || l'[w] == t'[w])
    && (forall j :: Ref(t', n, nb, x, j) ==> !bits[t'[Pos(x, j)]] || (IsFile(t, n, x) && t'[Pos(x, j)] == t[Pos(x, j)]))
  }

  /** Node x was written through to the cache: its blocks may have been given up. */
  lemma ApartFlushed(l: Table, t: Table, bits: seq<bool>, l': Table, t': Table, bits': seq<bool>, n: nat, nb: nat, x: nat)
    requires nb <= NONE && Apart(l, t, n, nb, bits) && Consistent(t, n, nb, bits) && Consistent(t', n, nb, bits')
    requires Advanced(l, t, bits, l', t', bits', n, nb, x)
    requires forall w :: x * NODE_WORDS <= w < (x + 1) * NODE_WORDS ==> l'[w] == t'[w]
    requires forall b :: 0 <= b < nb && bits[b] && !bits'[b] ==> exists j :: Ref(t, n, nb, x, j) && t[Pos(x, j)] == b
    ensures Apart(l', t', n, nb, bits')
  {
    forall i | 0 <= i < n ensures IsFile(l', n, i) == IsFile(t', n, i) { assert IsFile(l, n, i) == IsFile(t, n, i); }
    forall i, j | Ref(l', n, nb, i, j)
      ensures bits'[l'[Pos(i, j)]]
      ensures i != x ==> bits[l'[Pos(i, j)]] && (l'[Pos(i, j)] == t[Pos(i, j)] || Ref(l, n, nb, i, j))
    {
      assert IsFile(t, n, i) || i == x;
      if l'[Pos(i, j)] != t'[Pos(i, j)] { assert Ref(l, n, nb, i, j); }
    }
    forall i, j, i', j' | Ref(l', n, nb, i, j) && Ref(t', n, nb, i', j') && i != i' ensures l'[Pos(i, j)] != t'[Pos(i', j')] {
      if i' != x { assert Ref(t, n, nb, i', j'); }
      if l'[Pos(i, j)] == t'[Pos(i, j)] {
        assert Ref(t', n, nb, i, j);
      } else {
        assert i != x && Ref(l, n, nb, i, j);
      }
    }
  }

  /** Node x changed in memory only: nothing was given up. */
  lemma ApartUnflushed(l: Table, t: Table, bits: seq<bool>, t': Table, bits': seq<bool>, n: nat, nb: nat, x: nat)
    requires nb <= NONE && Apart(l, t, n, nb, bits) && Consistent(t, n, nb, bits) && Consistent(t', n, nb, bits')
    requires Advanced(l, t, bits, l, t', bits', n, nb, x) && IsFile(t', n, x) == IsFile(t, n, x)
    requires forall b :: 0 <= b < nb && bits[b] ==> bits'[b]
    ensures Apart(l, t', n, nb, bits')
  {
    forall i | 0 <= i < n ensures IsFile(l, n, i) == IsFile(t', n, i) { assert IsFile(l, n, i) == IsFile(t, n, i); }
    forall i, j, i', j' | Ref(l, n, nb, i, j) && Ref(t', n, nb, i', j') && i != i' ensures l[Pos(i, j)] != t'[Pos(i', j')] {
      if i' != x { assert Ref(t, n, nb, i', j'); }
    }
  }

  /** No direct word of record x, in memory or in the cache, names a block that another file references. */
  ghost predicate NoStaleClaim(l: Table, t: Table, n: nat, nb: nat, x: nat)
    requires |l| == |t| == n * NODE_WORDS && x < n
  {
    forall j, i', j' :: 0 <= j < DIRECT && Ref(t, n, nb, i', j') && i' != x ==>
      t[Pos(x, j)] != t[Pos(i', j')] && l[Pos(x, j)] != t[Pos(i', j')]
  }

  /** A file never has stale words: its references are its own. */
  lemma FilesNotStale(l: Table, t: Table, n: nat, nb: nat, bits: seq<bool>, x: nat)
    requires Consistent(t, n, nb, bits) && Apart(l, t, n, nb, bits) && nb <= NONE && IsFile(t, n, x)
    ensures NoStaleClaim(l, t, n, nb, x)
  {
    assert IsFile(l, n, x);
    forall j, i', j' | 0 <= j < DIRECT && Ref(t, n, nb, i', j') && i' != x
      ensures t[Pos(x, j)] != t[Pos(i', j')] && l[Pos(x, j)] != t[Pos(i', j')]
    {
      if t[Pos(x, j)] < nb { assert Ref(t, n, nb, x, j); }
      if l[Pos(x, j)] < nb { assert Ref(l, n, nb, x, j); }
    }
  }

  /** The cache holds node i as memory does (a directory: all but its size). */
  ghost predicate InStep(l: Table, t: Table, n: nat, i: nat)
    requires |l| == |t| == n * NODE_WORDS && i < n
  {
    forall k :: 0 <= k < NODE_WORDS && !(k == SIZE && DirWord(Word(t, i, 0))) ==> Word(l, i, k) == Word(t, i, k)
  }

  /** What an operation on node f.x knows when it starts, from any state between operations. */
  ghost predicate StartsWell(f: Frame) {
    && !f.rec && Consistent(f.t0, f.g.n, f.g.nb, f.bits0) && f.g.nb <= NONE && Apart(f.l0, f.t0, f.g.n, f.g.nb, f.bits0)
    && (f.x < f.g.n ==> NoStaleClaim(f.l0, f.t0, f.g.n, f.g.nb, f.x))
  }

  lemma ForeignWords(f: Frame, t: Table, i: nat)
    requires TableFramed(f, t) && i < f.g.n && i != f.x && InStep(f.l0, f.t0, f.g.n, i)
    ensures Word(t, i, 0) == Word(f.t0, i, 0) && Word(t, i, PARENT) == Word(f.t0, i, PARENT) && Word(t, i, COUNT) == Word(f.t0, i, COUNT)
    ensures !DirWord(Word(f.t0, i, 0)) ==> Word(t, i, SIZE) == Word(f.t0, i, SIZE)
    ensures forall j :: 0 <= j < DIRECT ==> t[Pos(i, j)] == f.t0[Pos(i, j)]
    ensures IsFile(t, f.g.n, i) == IsFile(f.t0, f.g.n, i)
  {
    assert Foreign(f.t0, f.x, i, 0) && Foreign(f.t0, f.x, i, PARENT) && Foreign(f.t0, f.x, i, COUNT);
    assert Word(t, i, 0) == Word(f.t0, i, 0);
    forall j | 0 <= j < DIRECT ensures t[Pos(i, j)] == f.t0[Pos(i, j)] {
      assert Foreign(f.t0, f.x, i, FIRST_DIRECT + j);
      assert Word(t, i, FIRST_DIRECT + j) == Word(f.t0, i, FIRST_DIRECT + j);
    }
  }

  /** What any other file claims in a crashed table is nothing that node i references. */
  lemma ClaimsApart(f: Frame, t: Table, i: nat, j: nat, i': nat, j': nat)
    requires StartsWell(f) && TableFramed(f, t) && i != f.x && Ref(f.t0, f.g.n, f.g.nb, i, j)
    requires i' != i && Ref(t, f.g.n, f.g.nb, i', j')
    ensures t[Pos(i', j')] != f.t0[Pos(i, j)]
  {
    var n, nb := f.g.n, f.g.nb;
    if i' == f.x {
      assert OwnRef(f, j', t[Pos(f.x, j')]);
    } else {
      assert Foreign(f.t0, f.x, i', 0) && Foreign(f.t0, f.x, i', FIRST_DIRECT + j');
      assert Word(t, i', 0) == t[i' * NODE_WORDS] && Word(t, i', FIRST_DIRECT + j') == t[Pos(i', j')];
      assert IsFile(f.t0, n, i') && IsFile(f.l0, n, i');
      if t[Pos(i', j')] == f.t0[Pos(i', j')] {
        assert Ref(f.t0, n, nb, i', j');
      } else {
        assert Ref(f.l0, n, nb, i', j');
      }
    }
  }

  /** In a crashed table every reference of an untouched node survives recovery. */
  lemma ForeignKept(f: Frame, t: Table, i: nat, j: nat)
    requires StartsWell(f) && TableFramed(f, t) && i < f.g.n && i != f.x && InStep(f.l0, f.t0, f.g.n, i)
    requires Ref(t, f.g.n, f.g.nb, i, j)
    ensures Kept(t, f.g.n, f.g.nb, i, j) && Kept(f.t0, f.g.n, f.g.nb, i, j)
  {
    hide Apart;
    var n, nb := f.g.n, f.g.nb;
    ForeignWords(f, t, i);
    assert Ref(f.t0, n, nb, i, j);
    KeptFirst(f.t0, n, nb);
    forall i', j' | Before(i', j', i, j) && Ref(t, n, nb, i', j') ensures t[Pos(i', j')] != t[Pos(i, j)] {
      if i' == i {
        assert Ref(f.t0, n, nb, i, j');
      } else {
        ClaimsApart(f, t, i, j, i', j');
      }
    }
  }

  /**
   Crash framing. If a crash interrupts an operation on node x and the mount recovers the disk,
   every other node that was in step and rightly counted keeps its whole record (a directory: all
   but its size). From a clean filesystem every node is in step; from a dirty one, all but those
   that a failed operation left different in memory.
   */
  lemma CrashFraming(f: Frame, d: Disk, i: nat, k: nat)
    requires StartsWell(f) && Framed(f, d) && i < f.g.n && k < NODE_WORDS && Foreign(f.t0, f.x, i, k)
    requires InStep(f.l0, f.t0, f.g.n, i) && WellCounted(f.t0, f.g.n, f.g.nb, i)
    ensures RecoveredWord(TableOf(d, f.g), f.g.n, f.g.nb, i, k) == Word(f.t0, i, k)
  {
    hide Apart, NoStaleClaim, Consistent;
    var t := TableOf(d, f.g);
    var n, nb := f.g.n, f.g.nb;
    ForeignWords(f, t, i);
    assert Word(t, i, k) == Word(f.t0, i, k);
    forall j | 0 <= j < DIRECT
      ensures Kept(t, n, nb, i, j) == Kept(f.t0, n, nb, i, j)
      ensures Ref(t, n, nb, i, j) ==> Kept(t, n, nb, i, j)
    {
      if Ref(t, n, nb, i, j) { ForeignKept(f, t, i, j); }
    }
    SameKeptCount(t, f.t0, n, nb, i, DIRECT);
    if IsFile(t, n, i) && k >= FIRST_DIRECT { assert t[Pos(i, k - FIRST_DIRECT)] == Word(t, i, k); }
  }

  /** The table a mount works with after a crash left disk d. */
  ghost predicate Mounted(d: Disk, g: Geo, t: Table) {
    if StateOf(d) == DIRTY then AllRecovered(TableOf(d, g), t, g.n, g.nb) else t == TableOf(d, g)
  }

  /**
   The same for the whole reboot: whatever disk the crash left, whether or not the marker was
   on it, after the next mount every other well-counted node in step has the record it had before
   the operation, and the block contents are what they were on the disk or in the cache.
   */
  lemma MountAfterCrash(f: Frame, d: Disk, t: Table, i: nat, k: nat)
    requires StartsWell(f) && Framed(f, d) && CrashSafe(d, f.g) && Mounted(d, f.g, t)
    requires i < f.g.n && k < NODE_WORDS && Foreign(f.t0, f.x, i, k)
    requires InStep(f.l0, f.t0, f.g.n, i) && WellCounted(f.t0, f.g.n, f.g.nb, i)
    ensures |t| == f.g.n * NODE_WORDS && Word(t, i, k) == Word(f.t0, i, k)
    ensures forall j :: 0 <= j < DIRECT && Ref(f.t0, f.g.n, f.g.nb, i, j) ==> SameBlock(f, d, DataLba(f.t0[Pos(i, j)]))
  {
    hide Apart, NoStaleClaim, Consistent, WellCounted;
    if StateOf(d) == DIRTY { CrashFraming(f, d, i, k); }
    assert Word(TableOf(d, f.g), i, k) == Word(f.t0, i, k);
    forall j | 0 <= j < DIRECT && Ref(f.t0, f.g.n, f.g.nb, i, j) ensures SameBlock(f, d, DataLba(f.t0[Pos(i, j)])) {
      OthersBlockForeign(f, i, j);
    }
  }

  lemma OthersBlockForeign(f: Frame, i: nat, j: nat)
    requires StartsWell(f) && Ref(f.t0, f.g.n, f.g.nb, i, j) && i != f.x
    ensures ForeignBlock(f, f.t0[Pos(i, j)])
  {
    assert f.t0[Pos(i, j)] != NONE;
  }

  // ----- nodes in normal form ------------------------------------------------------------------

  /** A file as minfs itself makes it: blocks 0 .. block_count-1 are there and no others. */
  ghost predicate Normal(t: Table, n: nat, nb: nat, i: nat)
    requires |t| == n * NODE_WORDS && i < n
  {
    IsFile(t, n, i) ==>
      && Word(t, i, COUNT) <= DIRECT && Word(t, i, SIZE) <= Word(t, i, COUNT) * BLOCK_SIZE
      && (forall j :: 0 <= j < Word(t, i, COUNT) ==> t[Pos(i, j)] < nb)
      && (forall j :: Word(t, i, COUNT) <= j < DIRECT ==> t[Pos(i, j)] == NONE)
  }

  lemma {:induction false} NormalCount(t: Table, n: nat, nb: nat, i: nat, c: nat, j: nat)
    requires |t| == n * NODE_WORDS && nb <= NONE && i < n && IsFile(t, n, i) && NeverShared(t, n, nb) && j <= DIRECT
    requires forall k :: 0 <= k < c && k < DIRECT ==> t[Pos(i, k)] < nb
    requires forall k :: c <= k < DIRECT ==> t[Pos(i, k)] == NONE
    ensures KeptCount(t, n, nb, i, j) == Min(c, j)
    decreases j
  {
    if j > 0 {
      NormalCount(t, n, nb, i, c, j - 1);
      KeptFirst(t, n, nb);
      assert Kept(t, n, nb, i, j - 1) <==> Ref(t, n, nb, i, j - 1);
    }
  }

  lemma NormalWellCounted(t: Table, n: nat, nb: nat, i: nat)
    requires |t| == n * NODE_WORDS && nb <= NONE && i < n && Normal(t, n, nb, i) && NeverShared(t, n, nb)
    ensures WellCounted(t, n, nb, i)
  {
    if IsFile(t, n, i) { NormalCount(t, n, nb, i, Word(t, i, COUNT), DIRECT); }
  }
}
