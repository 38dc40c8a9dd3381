/**
 The one way crash framing can fail. Recovery does not clean the direct words of records that
 are not in use, so after a crash in the middle of an unlink a free record can keep the numbers
 of blocks it no longer owns. If a later create of that record is itself cut short, the record
 can come back as a file claiming them.
 */
module MinfsStale {
  import opened MinfsTable
  import opened MinfsDisk
  import opened MinfsFs

  /** The table a crash leaves when exactly the sectors in `done` had been written. */
  ghost function SectorMix(t0: Table, u: Table, done: set<nat>): (t: Table)
    requires |u| == |t0|
    ensures |t| == |t0| && forall w :: 0 <= w < |t| ==> t[w] == if w / SECTOR_WORDS in done then u[w] else t0[w]
  {
    seq(|t0|, w requires 0 <= w < |t0| => if w / SECTOR_WORDS in done then u[w] else t0[w])
  }

  /** After recovery of t every other node has the record it has in t0 (a directory: all but its size). */
  ghost predicate OthersIntact(t0: Table, t: Table, n: nat, nb: nat, x: nat)
    requires |t0| == |t| == n * NODE_WORDS
  {
    forall i, k :: 0 <= i < n && 0 <= k < NODE_WORDS && Foreign(t0, x, i, k) ==> RecoveredWord(t, n, nb, i, k) == Word(t0, i, k)
  }

  /** u is t0 after creating a file at the free record x. */
  ghost predicate CreatesFile(t0: Table, u: Table, n: nat, x: nat)
    requires |t0| == |u| == n * NODE_WORDS && x < n
  {
    && !UsedWord(Word(t0, x, 0)) && FileWord(Word(u, x, 0)) && (forall j :: 0 <= j < DIRECT ==> u[Pos(x, j)] == NONE)
    && (forall i, k :: 0 <= i < n && 0 <= k < NODE_WORDS && Foreign(t0, x, i, k) ==> Word(u, i, k) == Word(t0, i, k))
  }

  /** What Minfs.Create leaves in memory, and writes, is such a table. */
  lemma CreateMakesFile(t0: Table, u: Table, n: nat, x: nat, parent: nat, name: seq<nat>)
    requires |t0| == n * NODE_WORDS && x < n && !UsedWord(Word(t0, x, 0)) && |name| == FIRST_DIRECT - NAME
    requires IsRefreshed(Minfs.SetRecord(t0, x, Minfs.Record(1 + 256, parent, name)), u, n)
    ensures CreatesFile(t0, u, n, x)
  {
    hide Minfs.OnlyRecord, Minfs.SetRecord, Minfs.Record;
    var r := Minfs.SetRecord(t0, x, Minfs.Record(1 + 256, parent, name));
    forall i, k | 0 <= i < n && 0 <= k < NODE_WORDS && i != x ensures Word(r, i, k) == Word(t0, i, k) { OtherRecord(t0, r, x, i, k); }
    assert Word(u, x, 0) == Word(r, x, 0) == 257;
    forall j | 0 <= j < DIRECT ensures u[Pos(x, j)] == NONE { assert Word(u, x, FIRST_DIRECT + j) == Word(r, x, FIRST_DIRECT + j); }
  }

  lemma OtherRecord(t: Table, u: Table, x: nat, i: nat, k: nat)
    requires Minfs.OnlyRecord(t, u, x) && (i + 1) * NODE_WORDS <= |t| && k < NODE_WORDS && i != x
    ensures Word(u, i, k) == Word(t, i, k)
  {
    assert (i * NODE_WORDS + k) / NODE_WORDS == i;
  }

  /**
   What a caller could check before the create: no later file references a block that a stale
   word of record x names, unless that word is in the same sector as the record's first word.
   */
  ghost predicate StaleHarmless(t0: Table, n: nat, nb: nat, x: nat)
    requires |t0| == n * NODE_WORDS && x < n
  {
    forall j, i, j' :: 0 <= j < DIRECT && x < i && Ref(t0, n, nb, i, j') && t0[Pos(x, j)] == t0[Pos(i, j')] ==>
      Pos(x, j) / SECTOR_WORDS == x * NODE_WORDS / SECTOR_WORDS
  }

  lemma MixForeign(t0: Table, u: Table, done: set<nat>, n: nat, x: nat, i: nat)
    requires |t0| == |u| == n * NODE_WORDS && x < n && CreatesFile(t0, u, n, x) && i < n && i != x
    ensures var t := SectorMix(t0, u, done);
      && Word(t, i, 0) == Word(t0, i, 0) && IsFile(t, n, i) == IsFile(t0, n, i)
      && (forall k :: 0 <= k < NODE_WORDS && Foreign(t0, x, i, k) ==> Word(t, i, k) == Word(t0, i, k))
      && (forall j :: 0 <= j < DIRECT ==> t[Pos(i, j)] == t0[Pos(i, j)])
  {
    var t := SectorMix(t0, u, done);
    forall k | 0 <= k < NODE_WORDS && Foreign(t0, x, i, k) ensures Word(t, i, k) == Word(t0, i, k) {
      assert Word(u, i, k) == Word(t0, i, k);
    }
    forall j | 0 <= j < DIRECT ensures t[Pos(i, j)] == t0[Pos(i, j)] {
      assert Word(t, i, FIRST_DIRECT + j) == Word(t0, i, FIRST_DIRECT + j);
    }
  }

  /** A reference of another node survives if no stale word that the mix brings to life comes before it. */
  lemma MixKept(t0: Table, u: Table, done: set<nat>, n: nat, nb: nat, x: nat, i: nat, j: nat)
    requires |t0| == |u| == n * NODE_WORDS && nb <= NONE && x < n && CreatesFile(t0, u, n, x) && NeverShared(t0, n, nb)
    requires StaleHarmless(t0, n, nb, x) && i != x && Ref(t0, n, nb, i, j)
    ensures Kept(SectorMix(t0, u, done), n, nb, i, j)
  {
    var t := SectorMix(t0, u, done);
    MixForeign(t0, u, done, n, x, i);
    forall i', j' | Before(i', j', i, j) && Ref(t, n, nb, i', j') ensures t[Pos(i', j')] != t[Pos(i, j)] {
      if i' == x {
        assert Word(t, x, 0) == t[x * NODE_WORDS];
        assert x * NODE_WORDS / SECTOR_WORDS in done;
        assert t[Pos(x, j')] != NONE;
      } else {
        MixForeign(t0, u, done, n, x, i');
        assert Ref(t0, n, nb, i', j');
      }
    }
  }

  lemma MixIntact(t0: Table, u: Table, done: set<nat>, n: nat, nb: nat, x: nat)
    requires |t0| == |u| == n * NODE_WORDS && nb <= NONE && x < n && CreatesFile(t0, u, n, x) && NeverShared(t0, n, nb)
    requires StaleHarmless(t0, n, nb, x) && (forall i :: 0 <= i < n ==> WellCounted(t0, n, nb, i))
    ensures OthersIntact(t0, SectorMix(t0, u, done), n, nb, x)
  {
    var t := SectorMix(t0, u, done);
    forall i, k | 0 <= i < n && 0 <= k < NODE_WORDS && Foreign(t0, x, i, k) ensures RecoveredWord(t, n, nb, i, k) == Word(t0, i, k) {
      MixForeign(t0, u, done, n, x, i);
      KeptFirst(t0, n, nb);
      forall j | 0 <= j < DIRECT ensures Kept(t, n, nb, i, j) == Kept(t0, n, nb, i, j) == Ref(t0, n, nb, i, j) {
        if Ref(t0, n, nb, i, j) { MixKept(t0, u, done, n, nb, x, i, j); }
      }
      SameKeptCount(t, t0, n, nb, i, DIRECT);
      assert t[i * NODE_WORDS] == Word(t, i, 0) && Word(t, i, k) == Word(t0, i, k);
      assert IsFile(t, n, i) ==> WellCounted(t0, n, nb, i);
      assert k >= FIRST_DIRECT ==> t0[Pos(i, k - FIRST_DIRECT)] == Word(t0, i, k);
    }
  }

  /** A harmful stale word does its harm if only the sector of the record's first word is written. */
  lemma MixHarm(t0: Table, u: Table, n: nat, nb: nat, x: nat, j: nat, i: nat, j': nat)
    requires |t0| == |u| == n * NODE_WORDS && nb <= NONE && x < n && CreatesFile(t0, u, n, x)
    requires j < DIRECT && x < i && Ref(t0, n, nb, i, j') && t0[Pos(x, j)] == t0[Pos(i, j')]
    requires Pos(x, j) / SECTOR_WORDS != x * NODE_WORDS / SECTOR_WORDS
    ensures !OthersIntact(t0, SectorMix(t0, u, {x * NODE_WORDS / SECTOR_WORDS}), n, nb, x)
  {
    var t := SectorMix(t0, u, {x * NODE_WORDS / SECTOR_WORDS});
    MixForeign(t0, u, {x * NODE_WORDS / SECTOR_WORDS}, n, x, i);
    assert Word(u, x, 0) == u[x * NODE_WORDS];
    assert Ref(t, n, nb, x, j) && Before(x, j, i, j');
    assert Claimed(t, n, nb, i, j', t[Pos(i, j')]);
    assert RecoveredWord(t, n, nb, i, FIRST_DIRECT + j') == NONE;
    assert Word(t0, i, FIRST_DIRECT + j') == t0[Pos(i, j')];
    assert Foreign(t0, x, i, FIRST_DIRECT + j');
  }

  /** Create keeps all other nodes safe from every crash if and only if its free record is harmless. */
  lemma CreateFramingExact(t0: Table, u: Table, n: nat, nb: nat, x: nat)
    requires |t0| == |u| == n * NODE_WORDS && nb <= NONE && x < n && CreatesFile(t0, u, n, x) && NeverShared(t0, n, nb)
    requires forall i :: 0 <= i < n ==> WellCounted(t0, n, nb, i)
    ensures (forall done: set<nat> :: OthersIntact(t0, SectorMix(t0, u, done), n, nb, x)) <==> StaleHarmless(t0, n, nb, x)
  {
    if StaleHarmless(t0, n, nb, x) {
      forall done: set<nat> ensures OthersIntact(t0, SectorMix(t0, u, done), n, nb, x) { MixIntact(t0, u, done, n, nb, x); }
    } else {
      var j, i, j' :| 0 <= j < DIRECT && x < i && Ref(t0, n, nb, i, j') && t0[Pos(x, j)] == t0[Pos(i, j')]
        && Pos(x, j) / SECTOR_WORDS != x * NODE_WORDS / SECTOR_WORDS;
      MixHarm(t0, u, n, nb, x, j, i, j');
    }
  }

  // ----- a concrete case ------------------------------------------------------------------------------

  /** Three nodes: the root, a free record whose last direct word still says block 0, and a file that owns block 0. */
  function StaleTable(): (t: Table)
    ensures |t| == 3 * NODE_WORDS
    ensures t[0] == 1 + 512 && t[NODE_WORDS] == 0 && t[2 * NODE_WORDS] == 1 + 256
    ensures t[2 * NODE_WORDS + SIZE] == BLOCK_SIZE && t[2 * NODE_WORDS + COUNT] == 1
    ensures forall j :: 0 <= j < DIRECT ==> t[Pos(1, j)] == if j == DIRECT - 1 then 0 else NONE
    ensures forall j :: 0 <= j < DIRECT ==> t[Pos(2, j)] == if j == 0 then 0 else NONE
  {
    seq(3 * NODE_WORDS, w =>
      if w == 0 then 1 + 512
      else if w == 2 * NODE_WORDS then 1 + 256
      else if w == 2 * NODE_WORDS + SIZE then BLOCK_SIZE
      else if w == 2 * NODE_WORDS + COUNT then 1
      else if w == NODE_WORDS + FIRST_DIRECT + DIRECT - 1 || w == 2 * NODE_WORDS + FIRST_DIRECT then 0
      else if NODE_WORDS + FIRST_DIRECT <= w < 2 * NODE_WORDS || 2 * NODE_WORDS + FIRST_DIRECT <= w then NONE
      else 0)
  }

  /** The table is consistent, yet a create cut short after one sector costs the file its block. */
  lemma StaleExample(u: Table)
    requires |u| == 3 * NODE_WORDS && CreatesFile(StaleTable(), u, 3, 1)
    ensures Consistent(StaleTable(), 3, 1, [true])
    ensures !OthersIntact(StaleTable(), SectorMix(StaleTable(), u, {1}), 3, 1, 1)
  {
    var t := StaleTable();
    assert Ref(t, 3, 1, 2, 0);
    assert !IsFile(t, 3, 0) && !IsFile(t, 3, 1) && IsFile(t, 3, 2);
    forall i, j | Ref(t, 3, 1, i, j) ensures i == 2 && j == 0 { }
    MixHarm(t, u, 3, 1, 1, DIRECT - 1, 2, 0);
  }
}
