/**
 The node table of minfs (kernel/minfs.c) as the words it is made of. A record is 592 bytes,
 148 words of 4 bytes, and a sector 128 words, so records straddle sectors and a crash can
 leave a record half old and half new.
 */
module MinfsTable {

  const NODE_WORDS: nat := 148
  const DIRECT: nat := 128
  const BLOCK_SIZE: nat := 512
  const NONE: nat := 0xFFFF_FFFF

  type Table = seq<nat>

  // Word 0 holds used (byte 0), type (byte 1); then size, parent, block_count, 16 words of
  // name, 128 direct block numbers.
  const SIZE: nat := 1
  const PARENT: nat := 2
  const COUNT: nat := 3
  const NAME: nat := 4
  const FIRST_DIRECT: nat := 20

  predicate UsedWord(w: nat) { w % 256 != 0 }
  predicate FileWord(w: nat) { w % 256 != 0 && (w / 256) % 2 == 1 }
  predicate DirWord(w: nat) { w % 256 != 0 && (w / 512) % 2 == 1 }

  /** The first word by its bytes: used, then the type, whose lowest bit is that of files and the next that of directories. */
  lemma WordBytes(used: nat, kind: nat, rest: nat)
    requires used < 256 && kind < 256
    ensures var w := used + 256 * kind + 65536 * rest;
      && (UsedWord(w) <==> used != 0) && (FileWord(w) <==> used != 0 && kind % 2 == 1) && (DirWord(w) <==> used != 0 && kind % 4 >= 2)
  {
    var w := used + 256 * kind + 65536 * rest;
    var q := kind + 256 * rest;
    assert w == used + 256 * q && w / 256 == q && w % 256 == used;
    assert w / 512 == q / 2;
    assert q / 2 == kind / 2 + 128 * rest && kind / 2 % 2 == kind % 4 / 2;
  }

  function Word(t: Table, i: nat, k: nat): nat
    requires (i + 1) * NODE_WORDS <= |t| && k < NODE_WORDS
  {
    t[i * NODE_WORDS + k]
  }

  predicate IsFile(t: Table, n: nat, i: nat)
    requires |t| == n * NODE_WORDS
  {
    i < n && FileWord(t[i * NODE_WORDS])
  }

  /** The index in the table of direct[j] of node i. */
  function Pos(i: nat, j: nat): nat { i * NODE_WORDS + FIRST_DIRECT + j }

  /** Node i is a file and its direct[j] names a data block. */
  predicate Ref(t: Table, n: nat, nb: nat, i: nat, j: nat)
    requires |t| == n * NODE_WORDS
  {
    j < DIRECT && IsFile(t, n, i) && t[Pos(i, j)] < nb
  }

  /** The order in which rebuilding visits the direct words. */
  predicate Before(i: nat, j: nat, i': nat, j': nat) { i < i' || (i == i' && j < j') }

  /** Some file's direct word before (i, j) names block b. */
  ghost predicate Claimed(t: Table, n: nat, nb: nat, i: nat, j: nat, b: nat)
    requires |t| == n * NODE_WORDS
  {
    exists i', j' :: Before(i', j', i, j) && Ref(t, n, nb, i', j') && t[Pos(i', j')] == b
  }

  /** The reference survives recovery: it names a data block that no earlier reference names. */
  ghost predicate Kept(t: Table, n: nat, nb: nat, i: nat, j: nat)
    requires |t| == n * NODE_WORDS
  {
    Ref(t, n, nb, i, j) && !Claimed(t, n, nb, i, j, t[Pos(i, j)])
  }

  /** How many of the first j references of node i survive. */
  ghost function KeptCount(t: Table, n: nat, nb: nat, i: nat, j: nat): nat
    requires |t| == n * NODE_WORDS && j <= DIRECT
  {
    if j == 0 then 0 else KeptCount(t, n, nb, i, j - 1) + (if Kept(t, n, nb, i, j - 1) then 1 else 0)
  }

  function Min(a: nat, b: nat): nat { if a < b then a else b }

  /** Word k of node i after minfs_rebuild_bitmap_from_nodes. */
  ghost function RebuiltWord(t: Table, n: nat, nb: nat, i: nat, k: nat): nat
    requires |t| == n * NODE_WORDS && i < n && k < NODE_WORDS
  {
    var w := t[i * NODE_WORDS + k];
    if !IsFile(t, n, i) then w
    else if k == SIZE then Min(w, KeptCount(t, n, nb, i, DIRECT) * BLOCK_SIZE)
    else if k == COUNT then KeptCount(t, n, nb, i, DIRECT)
    else if k >= FIRST_DIRECT then (if Kept(t, n, nb, i, k - FIRST_DIRECT) then w else NONE)
    else w
  }

  ghost predicate IsRebuilt(t: Table, t': Table, n: nat, nb: nat)
    requires |t| == n * NODE_WORDS
  {
    |t'| == |t| && forall i, k :: 0 <= i < n && 0 <= k < NODE_WORDS ==> Word(t', i, k) == RebuiltWord(t, n, nb, i, k)
  }

  /** Number of used nodes among the first m whose parent is p. */
  function Children(t: Table, n: nat, p: nat, m: nat): nat
    requires |t| == n * NODE_WORDS && m <= n
  {
    if m == 0 then 0
    else Children(t, n, p, m - 1) +
         (if UsedWord(t[(m - 1) * NODE_WORDS]) && t[(m - 1) * NODE_WORDS + PARENT] == p then 1 else 0)
  }

  /** Node i is in use and in directory p. */
  predicate ChildOf(t: Table, n: nat, i: nat, p: nat)
    requires |t| == n * NODE_WORDS && i < n
  {
    t[i * NODE_WORDS] % 256 != 0 && t[i * NODE_WORDS + 2] == p
  }

  /** The nodes of directory p among the first m. */
  ghost function Kids(t: Table, n: nat, p: nat, m: nat): set<nat>
    requires |t| == n * NODE_WORDS && m <= n
  {
    set i: nat | i < m && ChildOf(t, n, i, p)
  }

  /** The count is the number of the directory's nodes, files and directories alike. */
  lemma {:induction false} ChildrenAre(t: Table, n: nat, p: nat, m: nat)
    requires |t| == n * NODE_WORDS && m <= n
    ensures Children(t, n, p, m) == |Kids(t, n, p, m)|
    decreases m
  {
    hide ChildOf, UsedWord;
    if m > 0 {
      ChildrenAre(t, n, p, m - 1);
      assert Kids(t, n, p, m) == Kids(t, n, p, m - 1) + (if ChildOf(t, n, m - 1, p) then {m - 1} else {});
      ChildWords(t, n, m - 1, p);
    } else {
      assert Kids(t, n, p, m) == {};
    }
  }

  lemma ChildWords(t: Table, n: nat, i: nat, p: nat)
    requires |t| == n * NODE_WORDS && i < n
    ensures ChildOf(t, n, i, p) <==> UsedWord(t[i * NODE_WORDS]) && t[i * NODE_WORDS + PARENT] == p
  {
  }

  lemma NoChildren(t: Table, n: nat, p: nat)
    requires |t| == n * NODE_WORDS
    ensures Children(t, n, p, n) != 0 <==> exists i :: 0 <= i < n && ChildOf(t, n, i, p)
  {
    hide ChildOf, Children;
    ChildrenAre(t, n, p, n);
    if i :| 0 <= i < n && ChildOf(t, n, i, p) { assert i in Kids(t, n, p, n); }
    if Kids(t, n, p, n) != {} { var i :| i in Kids(t, n, p, n); }
  }

  /** Directory sizes are child counts. */
  ghost predicate IsRefreshed(t: Table, t': Table, n: nat)
    requires |t| == n * NODE_WORDS
  {
    |t'| == |t| && forall i, k :: 0 <= i < n && 0 <= k < NODE_WORDS ==>
      Word(t', i, k) == if k == SIZE && DirWord(Word(t, i, 0)) then Children(t, n, i, n) else Word(t, i, k)
  }

  /** The whole of recovery on the table: t' is what a mount makes of a table t found dirty. */
  ghost predicate Recovers(t: Table, t': Table, n: nat, nb: nat)
    requires |t| == n * NODE_WORDS
  {
    exists r :: |r| == n * NODE_WORDS && IsRebuilt(t, r, n, nb) && IsRefreshed(r, t', n)
  }

  /** Word k of node i after recovery, in closed form. */
  ghost function RecoveredWord(t: Table, n: nat, nb: nat, i: nat, k: nat): nat
    requires |t| == n * NODE_WORDS && i < n && k < NODE_WORDS
  {
    if k == SIZE && DirWord(t[i * NODE_WORDS]) then Children(t, n, i, n) else RebuiltWord(t, n, nb, i, k)
  }

  // ----- consistency ---------------------------------------------------------------------------

  /** Every reference of a file is a marked data block, and no block is referenced twice. */
  ghost predicate Consistent(t: Table, n: nat, nb: nat, bits: seq<bool>) {
    && |t| == n * NODE_WORDS && nb <= |bits|
    && (forall i, j :: 0 <= i < n && 0 <= j < DIRECT && IsFile(t, n, i) && t[Pos(i, j)] != NONE ==>
          t[Pos(i, j)] < nb && bits[t[Pos(i, j)]])
    && NeverShared(t, n, nb)
  }

  ghost predicate NeverShared(t: Table, n: nat, nb: nat)
    requires |t| == n * NODE_WORDS
  {
    forall i, j, i', j' :: Ref(t, n, nb, i, j) && Ref(t, n, nb, i', j') && t[Pos(i, j)] == t[Pos(i', j')] ==> i == i' && j == j'
  }

  /** A node whose block count and size say what its direct words say. */
  ghost predicate WellCounted(t: Table, n: nat, nb: nat, i: nat)
    requires |t| == n * NODE_WORDS && i < n
  {
    IsFile(t, n, i) ==>
      && Word(t, i, COUNT) == KeptCount(t, n, nb, i, DIRECT)
      && Word(t, i, SIZE) <= Word(t, i, COUNT) * BLOCK_SIZE
      && (forall j :: 0 <= j < DIRECT ==> t[Pos(i, j)] == NONE || t[Pos(i, j)] < nb)
  }

  lemma KeptFirst(t: Table, n: nat, nb: nat)
    requires |t| == n * NODE_WORDS && NeverShared(t, n, nb)
    ensures forall i, j :: Kept(t, n, nb, i, j) <==> Ref(t, n, nb, i, j)
  {
  }

  lemma {:induction false} SameKeptCount(t: Table, u: Table, n: nat, nb: nat, i: nat, j: nat)
    requires |t| == n * NODE_WORDS == |u| && j <= DIRECT
    requires forall k :: 0 <= k < j ==> Kept(t, n, nb, i, k) == Kept(u, n, nb, i, k)
    ensures KeptCount(t, n, nb, i, j) == KeptCount(u, n, nb, i, j)
    decreases j
  {
    if j > 0 { SameKeptCount(t, u, n, nb, i, j - 1); }
  }

  lemma {:induction false} KeptCountBound(t: Table, n: nat, nb: nat, i: nat, j: nat)
    requires |t| == n * NODE_WORDS && j <= DIRECT
    ensures KeptCount(t, n, nb, i, j) <= j
    decreases j
  {
    if j > 0 { KeptCountBound(t, n, nb, i, j - 1); }
  }

  /** The first reference to a block is kept: every claimed block has a kept reference. */
  lemma {:induction false} ClaimedByKept(t: Table, n: nat, nb: nat, i: nat, j: nat, b: nat)
    requires |t| == n * NODE_WORDS && Claimed(t, n, nb, i, j, b)
    ensures exists i', j' :: Before(i', j', i, j) && Kept(t, n, nb, i', j') && t[Pos(i', j')] == b
    decreases i, j
  {
    var i', j' :| Before(i', j', i, j) && Ref(t, n, nb, i', j') && t[Pos(i', j')] == b;
    if Claimed(t, n, nb, i', j', b) {
      ClaimedByKept(t, n, nb, i', j', b);
      var p, q :| Before(p, q, i', j') && Kept(t, n, nb, p, q) && t[Pos(p, q)] == b;
      assert Before(p, q, i, j);
    } else {
      assert Kept(t, n, nb, i', j');
    }
  }

  /**
   A table that is t except that some dropped references may be gone: it has the same
   surviving references as t. This covers a finished recovery and every half-written one.
   */
  ghost predicate KeepsRefs(t: Table, u: Table, n: nat, nb: nat)
    requires |t| == n * NODE_WORDS == |u|
  {
    && (forall i :: 0 <= i < n ==> u[i * NODE_WORDS] == t[i * NODE_WORDS])
    && (forall i, j :: 0 <= i < n && 0 <= j < DIRECT && IsFile(t, n, i) ==>
          u[Pos(i, j)] == t[Pos(i, j)] || (u[Pos(i, j)] == NONE && !Kept(t, n, nb, i, j)))
  }

  lemma SameClaimed(t: Table, u: Table, n: nat, nb: nat, i: nat, j: nat, b: nat)
    requires |t| == n * NODE_WORDS == |u| && nb <= NONE && KeepsRefs(t, u, n, nb)
    ensures Claimed(u, n, nb, i, j, b) <==> Claimed(t, n, nb, i, j, b)
  {
    if Claimed(t, n, nb, i, j, b) {
      ClaimedByKept(t, n, nb, i, j, b);
      var i', j' :| Before(i', j', i, j) && Kept(t, n, nb, i', j') && t[Pos(i', j')] == b;
      assert Ref(u, n, nb, i', j') && u[Pos(i', j')] == b;
    }
    if Claimed(u, n, nb, i, j, b) {
      var i', j' :| Before(i', j', i, j) && Ref(u, n, nb, i', j') && u[Pos(i', j')] == b;
      assert Ref(t, n, nb, i', j') && t[Pos(i', j')] == b;
    }
  }

  lemma SameKept(t: Table, u: Table, n: nat, nb: nat, i: nat, j: nat)
    requires |t| == n * NODE_WORDS == |u| && nb <= NONE && KeepsRefs(t, u, n, nb)
    ensures Kept(u, n, nb, i, j) <==> Kept(t, n, nb, i, j)
    ensures Kept(t, n, nb, i, j) ==> u[Pos(i, j)] == t[Pos(i, j)]
  {
    if Ref(t, n, nb, i, j) { SameClaimed(t, u, n, nb, i, j, t[Pos(i, j)]); }
  }

  lemma {:induction false} SameChildren(t: Table, u: Table, n: nat, p: nat, m: nat)
    requires |t| == n * NODE_WORDS == |u| && m <= n
    requires forall i :: 0 <= i < n ==> Word(u, i, 0) == Word(t, i, 0) && Word(u, i, PARENT) == Word(t, i, PARENT)
    ensures Children(t, n, p, m) == Children(u, n, p, m)
    decreases m
  {
    if m > 0 {
      SameChildren(t, u, n, p, m - 1);
      assert Word(u, m - 1, 0) == Word(t, m - 1, 0) && Word(u, m - 1, PARENT) == Word(t, m - 1, PARENT);
    }
  }

  /** Rebuilding then refreshing has a closed form, so recovery is a function of the table. */
  lemma RecoversClosed(t: Table, t': Table, n: nat, nb: nat)
    requires |t| == n * NODE_WORDS
    ensures Recovers(t, t', n, nb) ==>
              |t'| == |t| && forall i, k :: 0 <= i < n && 0 <= k < NODE_WORDS ==> Word(t', i, k) == RecoveredWord(t, n, nb, i, k)
  {
    if Recovers(t, t', n, nb) {
      var r :| |r| == n * NODE_WORDS && IsRebuilt(t, r, n, nb) && IsRefreshed(r, t', n);
      RefreshedClosed(t, r, t', n, nb);
    }
  }

  lemma RefreshedClosed(t: Table, r: Table, t': Table, n: nat, nb: nat)
    requires |t| == n * NODE_WORDS == |r| && IsRebuilt(t, r, n, nb) && IsRefreshed(r, t', n)
    ensures forall i, k :: 0 <= i < n && 0 <= k < NODE_WORDS ==> Word(t', i, k) == RecoveredWord(t, n, nb, i, k)
  {
    forall i | 0 <= i < n ensures Word(r, i, 0) == Word(t, i, 0) && Word(r, i, PARENT) == Word(t, i, PARENT) {
      assert Word(r, i, 0) == RebuiltWord(t, n, nb, i, 0);
      assert Word(r, i, PARENT) == RebuiltWord(t, n, nb, i, PARENT);
    }
    forall i, k | 0 <= i < n && 0 <= k < NODE_WORDS ensures Word(t', i, k) == RecoveredWord(t, n, nb, i, k) {
      SameChildren(t, r, n, i, n);
    }
  }

  /**
   A crash during recovery: each word of u is still the word of t, or already the recovered one.
   */
  ghost predicate HalfRecovered(t: Table, u: Table, n: nat, nb: nat)
    requires |t| == n * NODE_WORDS == |u|
  {
    forall i, k :: 0 <= i < n && 0 <= k < NODE_WORDS ==>
      Word(u, i, k) == Word(t, i, k) || Word(u, i, k) == RecoveredWord(t, n, nb, i, k)
  }

  lemma HalfKeepsRefs(t: Table, u: Table, n: nat, nb: nat)
    requires |t| == n * NODE_WORDS == |u| && HalfRecovered(t, u, n, nb)
    ensures KeepsRefs(t, u, n, nb)
    ensures forall i :: 0 <= i < n ==> Word(u, i, 0) == Word(t, i, 0) && Word(u, i, PARENT) == Word(t, i, PARENT)
  {
    forall i | 0 <= i < n
      ensures u[i * NODE_WORDS] == t[i * NODE_WORDS] && Word(u, i, PARENT) == Word(t, i, PARENT)
    {
      assert Word(u, i, 0) == Word(t, i, 0);
    }
    forall i, j | 0 <= i < n && 0 <= j < DIRECT && IsFile(t, n, i)
      ensures u[Pos(i, j)] == t[Pos(i, j)] || (u[Pos(i, j)] == NONE && !Kept(t, n, nb, i, j))
    {
      assert Word(u, i, FIRST_DIRECT + j) == u[Pos(i, j)];
    }
  }

  /** Recovery that is cut short anywhere and run again comes to the same end as recovery run once. */
  lemma RecoveryRestarts(t: Table, u: Table, n: nat, nb: nat, i: nat, k: nat)
    requires |t| == n * NODE_WORDS == |u| && nb <= NONE && HalfRecovered(t, u, n, nb) && i < n && k < NODE_WORDS
    ensures RecoveredWord(u, n, nb, i, k) == RecoveredWord(t, n, nb, i, k)
  {
    HalfKeepsRefs(t, u, n, nb);
    forall j ensures Kept(u, n, nb, i, j) <==> Kept(t, n, nb, i, j) { SameKept(t, u, n, nb, i, j); }
    SameKeptCount(t, u, n, nb, i, DIRECT);
    SameChildren(t, u, n, i, n);
    assert Word(u, i, k) == Word(t, i, k) || Word(u, i, k) == RecoveredWord(t, n, nb, i, k);
    if k >= FIRST_DIRECT { SameKept(t, u, n, nb, i, k - FIRST_DIRECT); }
  }

  /** Recovering a recovered table changes nothing. */
  lemma RecoveryIdempotent(t: Table, t': Table, n: nat, nb: nat, i: nat, k: nat)
    requires |t| == n * NODE_WORDS && nb <= NONE && Recovers(t, t', n, nb) && i < n && k < NODE_WORDS
    ensures |t'| == n * NODE_WORDS && RecoveredWord(t', n, nb, i, k) == Word(t', i, k)
  {
    RecoversClosed(t, t', n, nb);
    RecoveryRestarts(t, t', n, nb, i, k);
  }

  // ----- what recovery establishes ---------------------------------------------------------------

  /** The bitmap is exactly the set of blocks with a surviving reference. */
  ghost predicate MarksKept(t: Table, n: nat, nb: nat, bits: seq<bool>)
    requires |t| == n * NODE_WORDS
  {
    nb <= |bits| && forall b :: 0 <= b < |bits| ==> (bits[b] <==> exists i, j :: Kept(t, n, nb, i, j) && t[Pos(i, j)] == b)
  }

  ghost predicate AllRecovered(t: Table, t': Table, n: nat, nb: nat)
    requires |t| == n * NODE_WORDS
  {
    |t'| == |t| && forall i, k :: 0 <= i < n && 0 <= k < NODE_WORDS ==> Word(t', i, k) == RecoveredWord(t, n, nb, i, k)
  }

  lemma RecoveredFile(t: Table, t': Table, n: nat, nb: nat, i: nat)
    requires |t| == n * NODE_WORDS && AllRecovered(t, t', n, nb) && i < n
    ensures IsFile(t', n, i) == IsFile(t, n, i) && Word(t', i, 0) == Word(t, i, 0)
    ensures IsFile(t, n, i) ==> forall j :: 0 <= j < DIRECT ==>
              t'[Pos(i, j)] == if Kept(t, n, nb, i, j) then t[Pos(i, j)] else NONE
  {
    assert Word(t', i, 0) == RecoveredWord(t, n, nb, i, 0);
    forall j | 0 <= j < DIRECT && IsFile(t, n, i)
      ensures t'[Pos(i, j)] == if Kept(t, n, nb, i, j) then t[Pos(i, j)] else NONE
    {
      assert Word(t', i, FIRST_DIRECT + j) == t'[Pos(i, j)];
    }
  }

  lemma KeptDistinct(t: Table, n: nat, nb: nat, i: nat, j: nat, i': nat, j': nat)
    requires |t| == n * NODE_WORDS && Kept(t, n, nb, i, j) && Kept(t, n, nb, i', j') && t[Pos(i, j)] == t[Pos(i', j')]
    ensures i == i' && j == j'
  {
    assert !Before(i, j, i', j') && !Before(i', j', i, j);
  }

  /** From any table whatever, recovery leaves a consistent filesystem and an exact bitmap. */
  lemma RecoveryConsistent(t: Table, t': Table, n: nat, nb: nat, bits: seq<bool>)
    requires |t| == n * NODE_WORDS && nb <= NONE && AllRecovered(t, t', n, nb) && MarksKept(t, n, nb, bits)
    ensures Consistent(t', n, nb, bits)
    ensures forall b :: 0 <= b < |bits| ==> (bits[b] <==> exists i, j :: Ref(t', n, nb, i, j) && t'[Pos(i, j)] == b)
  {
    forall i | 0 <= i < n ensures IsFile(t', n, i) == IsFile(t, n, i) { RecoveredFile(t, t', n, nb, i); }
    forall i, j | 0 <= i < n && 0 <= j < DIRECT
      ensures Ref(t', n, nb, i, j) <==> Kept(t, n, nb, i, j)
      ensures Kept(t, n, nb, i, j) ==> t'[Pos(i, j)] == t[Pos(i, j)]
      ensures IsFile(t, n, i) && !Kept(t, n, nb, i, j) ==> t'[Pos(i, j)] == NONE
    {
      RecoveredFile(t, t', n, nb, i);
    }
    forall i, j, i', j' | Ref(t', n, nb, i, j) && Ref(t', n, nb, i', j') && t'[Pos(i, j)] == t'[Pos(i', j')]
      ensures i == i' && j == j'
    {
      KeptDistinct(t, n, nb, i, j, i', j');
    }
    RecoveryMarks(t, t', n, nb, bits);
  }

  lemma RecoveryMarks(t: Table, t': Table, n: nat, nb: nat, bits: seq<bool>)
    requires |t| == n * NODE_WORDS == |t'| && MarksKept(t, n, nb, bits)
    requires forall i, j :: 0 <= i < n && 0 <= j < DIRECT ==> (Ref(t', n, nb, i, j) <==> Kept(t, n, nb, i, j))
    requires forall i, j :: Kept(t, n, nb, i, j) ==> t'[Pos(i, j)] == t[Pos(i, j)]
    ensures forall b :: 0 <= b < |bits| ==> (bits[b] <==> exists i, j :: Ref(t', n, nb, i, j) && t'[Pos(i, j)] == b)
  {
    forall b | 0 <= b < |bits| ensures bits[b] <==> exists i, j :: Ref(t', n, nb, i, j) && t'[Pos(i, j)] == b {
      if bits[b] {
        var i, j :| Kept(t, n, nb, i, j) && t[Pos(i, j)] == b;
        assert Ref(t', n, nb, i, j) && t'[Pos(i, j)] == b;
      }
      if i, j :| Ref(t', n, nb, i, j) && t'[Pos(i, j)] == b {
        assert Kept(t, n, nb, i, j) && t[Pos(i, j)] == b;
      }
    }
  }

  /** Sizes never exceed the blocks that are left. */
  lemma RecoveredSizes(t: Table, t': Table, n: nat, nb: nat, i: nat)
    requires |t| == n * NODE_WORDS && AllRecovered(t, t', n, nb) && i < n && IsFile(t, n, i) && !DirWord(Word(t, i, 0))
    ensures Word(t', i, 3) == |KeptSet(t, n, nb, i, 128)| <= 128
    ensures Word(t', i, 1) == if Word(t, i, 1) <= Word(t', i, 3) * 512 then Word(t, i, 1) else Word(t', i, 3) * 512
    ensures forall j :: 0 <= j < 128 ==> Word(t', i, 20 + j) == if Kept(t, n, nb, i, j) then Word(t, i, 20 + j) else 0xFFFF_FFFF
  {
    hide Kept;
    KeptCountBound(t, n, nb, i, DIRECT);
    KeptCountIs(t, n, nb, i, DIRECT);
    forall k | 0 <= k < NODE_WORDS ensures Word(t', i, k) == RecoveredWord(t, n, nb, i, k) { }
  }

  ghost function KeptSet(t: Table, n: nat, nb: nat, i: nat, m: nat): set<nat>
    requires |t| == n * NODE_WORDS
  {
    set j: nat | j < m && Kept(t, n, nb, i, j)
  }

  /** The count is the number of references of the node that survive. */
  lemma {:induction false} KeptCountIs(t: Table, n: nat, nb: nat, i: nat, m: nat)
    requires |t| == n * NODE_WORDS && m <= DIRECT
    ensures KeptCount(t, n, nb, i, m) == |KeptSet(t, n, nb, i, m)|
    decreases m
  {
    hide Kept;
    if m > 0 {
      KeptCountIs(t, n, nb, i, m - 1);
      assert KeptSet(t, n, nb, i, m) == KeptSet(t, n, nb, i, m - 1) + if Kept(t, n, nb, i, m - 1) then {m - 1} else {};
    } else {
      assert KeptSet(t, n, nb, i, m) == {};
    }
  }

  /** A node whose own references all survive and whose counts are right comes out as it went in. */
  lemma RecoveryKeepsNode(t: Table, t': Table, n: nat, nb: nat, i: nat)
    requires |t| == n * NODE_WORDS && AllRecovered(t, t', n, nb) && i < n && WellCounted(t, n, nb, i)
    requires forall j :: 0 <= j < DIRECT ==> (Ref(t, n, nb, i, j) ==> Kept(t, n, nb, i, j))
    ensures forall k :: 0 <= k < NODE_WORDS && !(k == SIZE && DirWord(Word(t, i, 0))) ==> Word(t', i, k) == Word(t, i, k)
  {
    forall k | 0 <= k < NODE_WORDS && !(k == SIZE && DirWord(Word(t, i, 0))) ensures Word(t', i, k) == Word(t, i, k) {
      assert Word(t', i, k) == RecoveredWord(t, n, nb, i, k);
      if IsFile(t, n, i) && k >= FIRST_DIRECT {
        assert t[Pos(i, k - FIRST_DIRECT)] == Word(t, i, k);
        if t[Pos(i, k - FIRST_DIRECT)] < nb { assert Ref(t, n, nb, i, k - FIRST_DIRECT); }
      }
    }
  }

  // ----- changes that keep consistency -------------------------------------------------------------

  lemma SetWord(t: Table, x: nat, k: nat, v: nat)
    requires (x + 1) * NODE_WORDS <= |t| && k < NODE_WORDS
    ensures var u := t[x * NODE_WORDS + k := v];
            && (forall m :: 0 <= m < NODE_WORDS ==> Word(u, x, m) == if m == k then v else Word(t, x, m))
            && (forall q :: 0 <= q < |t| && q / NODE_WORDS != x ==> u[q] == t[q])
  {
  }

  /** A file takes a free block: it is marked and nobody else has it. */
  lemma TakeBlock(t: Table, n: nat, nb: nat, bits: seq<bool>, x: nat, j: nat, b: nat)
    requires Consistent(t, n, nb, bits) && nb <= NONE && IsFile(t, n, x) && j < DIRECT && b < nb && !bits[b]
    ensures Consistent(t[Pos(x, j) := b], n, nb, bits[b := true])
  {
    var u := t[Pos(x, j) := b];
    forall i | 0 <= i < n ensures IsFile(u, n, i) == IsFile(t, n, i) { }
    forall i, k | 0 <= i < n && 0 <= k < DIRECT && IsFile(u, n, i) && !(i == x && k == j)
      ensures u[Pos(i, k)] == t[Pos(i, k)] && (t[Pos(i, k)] != NONE ==> t[Pos(i, k)] < nb && t[Pos(i, k)] != b)
    {
      assert Pos(i, k) != Pos(x, j);
    }
    forall i, k, i', k' | Ref(u, n, nb, i, k) && Ref(u, n, nb, i', k') && u[Pos(i, k)] == u[Pos(i', k')]
      ensures i == i' && k == k'
    {
      assert !(i == x && k == j) ==> Ref(t, n, nb, i, k);
      assert !(i' == x && k' == j) ==> Ref(t, n, nb, i', k');
    }
  }

  /** A file gives a block up: the mark goes with the only reference. */
  lemma DropBlock(t: Table, n: nat, nb: nat, bits: seq<bool>, x: nat, j: nat)
    requires Consistent(t, n, nb, bits) && nb <= NONE && IsFile(t, n, x) && j < DIRECT && t[Pos(x, j)] != NONE
    ensures t[Pos(x, j)] < nb && Consistent(t[Pos(x, j) := NONE], n, nb, bits[t[Pos(x, j)] := false])
  {
    var b := t[Pos(x, j)];
    var u := t[Pos(x, j) := NONE];
    forall i | 0 <= i < n ensures IsFile(u, n, i) == IsFile(t, n, i) { }
    assert Ref(t, n, nb, x, j);
    forall i, k | 0 <= i < n && 0 <= k < DIRECT && IsFile(u, n, i) && u[Pos(i, k)] != NONE
      ensures u[Pos(i, k)] == t[Pos(i, k)] && u[Pos(i, k)] < nb && u[Pos(i, k)] != b
    {
      assert Pos(i, k) != Pos(x, j);
      assert t[Pos(i, k)] < nb;
      assert Ref(t, n, nb, i, k);
    }
    forall i, k, i', k' | Ref(u, n, nb, i, k) && Ref(u, n, nb, i', k') && u[Pos(i, k)] == u[Pos(i', k')]
      ensures i == i' && k == k'
    {
      assert Ref(t, n, nb, i, k) && Ref(t, n, nb, i', k');
    }
  }

  /** Words that are neither the type word nor a direct word do not matter for consistency. */
  lemma OtherWord(t: Table, n: nat, nb: nat, bits: seq<bool>, x: nat, k: nat, v: nat)
    requires Consistent(t, n, nb, bits) && x < n && 0 < k < FIRST_DIRECT
    ensures Consistent(t[x * NODE_WORDS + k := v], n, nb, bits)
  {
    var u := t[x * NODE_WORDS + k := v];
    forall i | 0 <= i < n ensures IsFile(u, n, i) == IsFile(t, n, i) { }
    forall i, j | 0 <= i < n && 0 <= j < DIRECT ensures u[Pos(i, j)] == t[Pos(i, j)] { }
    forall i, j, i', j' | Ref(u, n, nb, i, j) && Ref(u, n, nb, i', j') && u[Pos(i, j)] == u[Pos(i', j')]
      ensures i == i' && j == j'
    {
      assert Ref(t, n, nb, i, j) && Ref(t, n, nb, i', j');
    }
  }

  /** Replacing a record by one without blocks keeps consistency. */
  lemma EmptyRecord(t: Table, u: Table, n: nat, nb: nat, bits: seq<bool>, x: nat)
    requires Consistent(t, n, nb, bits) && nb <= NONE && x < n && |u| == |t|
    requires forall q :: 0 <= q < |t| && q / NODE_WORDS != x ==> u[q] == t[q]
    requires forall j :: 0 <= j < DIRECT ==> u[Pos(x, j)] == NONE
    ensures Consistent(u, n, nb, bits)
  {
    forall i | 0 <= i < n && i != x ensures IsFile(u, n, i) == IsFile(t, n, i) { assert i * NODE_WORDS / NODE_WORDS == i; }
    forall i, j | 0 <= i < n && 0 <= j < DIRECT && i != x ensures u[Pos(i, j)] == t[Pos(i, j)] { assert Pos(i, j) / NODE_WORDS == i; }
    forall i, j | Ref(u, n, nb, i, j) ensures Ref(t, n, nb, i, j) && u[Pos(i, j)] == t[Pos(i, j)] { }
  }

  /** Recomputing directory sizes keeps consistency. */
  lemma RefreshedConsistent(t: Table, u: Table, n: nat, nb: nat, bits: seq<bool>)
    requires Consistent(t, n, nb, bits) && IsRefreshed(t, u, n)
    ensures Consistent(u, n, nb, bits)
  {
    forall i | 0 <= i < n ensures IsFile(u, n, i) == IsFile(t, n, i) { assert Word(u, i, 0) == Word(t, i, 0); }
    forall i, j | 0 <= i < n && 0 <= j < DIRECT ensures u[Pos(i, j)] == t[Pos(i, j)] {
      assert Word(u, i, FIRST_DIRECT + j) == Word(t, i, FIRST_DIRECT + j);
    }
    forall i, j | Ref(u, n, nb, i, j) ensures Ref(t, n, nb, i, j) && u[Pos(i, j)] == t[Pos(i, j)] { }
  }

  // ----- the rebuilding loop -----------------------------------------------------------------------

  /** Blocks claimed before (i, j + 1): those claimed before (i, j) and, if it is a reference, direct[j]. */
  lemma ClaimedStep(t: Table, n: nat, nb: nat, i: nat, j: nat, b: nat)
    requires |t| == n * NODE_WORDS
    ensures Claimed(t, n, nb, i, j + 1, b) <==> Claimed(t, n, nb, i, j, b) || (Ref(t, n, nb, i, j) && t[Pos(i, j)] == b)
  {
    if Claimed(t, n, nb, i, j + 1, b) {
      var i', j' :| Before(i', j', i, j + 1) && Ref(t, n, nb, i', j') && t[Pos(i', j')] == b;
      assert Before(i', j', i, j) || (i' == i && j' == j);
    }
    if Claimed(t, n, nb, i, j, b) {
      var i', j' :| Before(i', j', i, j) && Ref(t, n, nb, i', j') && t[Pos(i', j')] == b;
      assert Before(i', j', i, j + 1);
    }
    if Ref(t, n, nb, i, j) && t[Pos(i, j)] == b { assert Before(i, j, i, j + 1); }
  }

  /** Blocks claimed before node i + 1. */
  lemma ClaimedRow(t: Table, n: nat, nb: nat, i: nat, b: nat)
    requires |t| == n * NODE_WORDS
    ensures Claimed(t, n, nb, i + 1, 0, b) <==> Claimed(t, n, nb, i, DIRECT, b)
    ensures !IsFile(t, n, i) ==> (Claimed(t, n, nb, i + 1, 0, b) <==> Claimed(t, n, nb, i, 0, b))
  {
    if Claimed(t, n, nb, i + 1, 0, b) {
      var i', j' :| Before(i', j', i + 1, 0) && Ref(t, n, nb, i', j') && t[Pos(i', j')] == b;
      assert Before(i', j', i, DIRECT);
      assert i' != i ==> Before(i', j', i, 0);
    }
    if Claimed(t, n, nb, i, DIRECT, b) {
      var i', j' :| Before(i', j', i, DIRECT) && Ref(t, n, nb, i', j') && t[Pos(i', j')] == b;
      assert Before(i', j', i + 1, 0);
    }
    if Claimed(t, n, nb, i, 0, b) {
      var i', j' :| Before(i', j', i, 0) && Ref(t, n, nb, i', j') && t[Pos(i', j')] == b;
      assert Before(i', j', i + 1, 0);
    }
  }

  /** All claimed blocks are kept by somebody, so the final bitmap is the set of kept blocks. */
  lemma ClaimedAll(t: Table, n: nat, nb: nat, b: nat)
    requires |t| == n * NODE_WORDS
    ensures Claimed(t, n, nb, n, 0, b) <==> exists i, j :: Kept(t, n, nb, i, j) && t[Pos(i, j)] == b
  {
    if Claimed(t, n, nb, n, 0, b) { ClaimedByKept(t, n, nb, n, 0, b); }
    if i, j :| Kept(t, n, nb, i, j) && t[Pos(i, j)] == b { assert Before(i, j, n, 0); }
  }
}
