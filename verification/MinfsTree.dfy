/**
 The directory tree of minfs: whatever operations happen and whenever the power fails, every node
 in use is in a directory in use, and so on up to the root.
 */
module MinfsTree {
  import opened MinfsTable
  import opened MinfsDisk
  import opened MinfsCrash
  import opened MinfsFs
  import opened MinfsRuns

  /** Every node in use but the root is in a directory in use, of lower rank. */
  ghost predicate Ranked(t: Table, n: nat, ranks: seq<nat>) {
    && |t| == n * NODE_WORDS && |ranks| == n
    && forall i :: 0 < i < n && UsedWord(Word(t, i, 0)) ==>
         var p := Word(t, i, PARENT); p < n && DirWord(Word(t, p, 0)) && ranks[p] < ranks[i]
  }

  ghost predicate Rooted(t: Table, n: nat) { exists ranks :: Ranked(t, n, ranks) }

  /** The k-th directory up from node i; n if there is none. */
  function Up(t: Table, n: nat, i: nat, k: nat): nat
    requires |t| == n * NODE_WORDS
  {
    if k == 0 then i
    else
      var p := Up(t, n, i, k - 1);
      if p < n && Word(t, p, PARENT) < n then Word(t, p, PARENT) else n
  }

  lemma {:induction false} UpFrom(t: Table, n: nat, i: nat, p: nat, k: nat)
    requires |t| == n * NODE_WORDS && i < n && Word(t, i, PARENT) == p < n
    ensures Up(t, n, i, k + 1) == Up(t, n, p, k)
    decreases k
  {
    if k > 0 { UpFrom(t, n, i, p, k - 1); } else { assert Up(t, n, i, 0) == i; }
  }

  lemma {:induction false} ReachesBy(t: Table, n: nat, ranks: seq<nat>, i: nat) returns (k: nat)
    requires Ranked(t, n, ranks) && i < n && UsedWord(Word(t, i, 0))
    ensures Up(t, n, i, k) == 0
    decreases ranks[i]
  {
    hide UsedWord, DirWord;
    if i == 0 { return 0; }
    var p := Word(t, i, PARENT);
    DirUsed(Word(t, p, 0));
    k := ReachesBy(t, n, ranks, p);
    UpFrom(t, n, i, p, k);
    k := k + 1;
  }

  lemma DirUsed(w: nat)
    ensures DirWord(w) ==> UsedWord(w)
  {
  }

  /** Some number of steps up from node i is the root. */
  ghost predicate FromRoot(t: Table, n: nat, i: nat)
    requires |t| == n * NODE_WORDS
  {
    exists k :: Up(t, n, i, k) == 0
  }

  /** If record i is in use, the record it names as its parent is in use and a directory. */
  ghost predicate HasParent(t: Table, n: nat, i: nat)
    requires |t| == n * NODE_WORDS && i < n
  {
    t[i * NODE_WORDS] % 256 != 0 ==>
      var p := t[i * NODE_WORDS + 2]; p < n && t[p * NODE_WORDS] % 256 != 0 && (t[p * NODE_WORDS] / 256) % 4 >= 2
  }

  lemma Parented(t: Table, n: nat, i: nat)
    requires Rooted(t, n) && 0 < i < n && |t| == n * NODE_WORDS
    ensures HasParent(t, n, i)
  {
    var ranks :| Ranked(t, n, ranks);
    if UsedWord(Word(t, i, 0)) { var p := Word(t, i, PARENT); DirBits(Word(t, p, 0)); }
  }

  lemma DirBits(w: nat)
    ensures DirWord(w) <==> w % 256 != 0 && (w / 256) % 4 >= 2
  {
    assert w / 512 == (w / 256) / 2;
    var q := w / 256;
    assert q == 4 * (q / 4) + q % 4;
    assert q / 2 == 2 * (q / 4) + (q % 4) / 2;
  }

  /** Every node in use can be reached from the root. */
  lemma ReachesRoot(t: Table, n: nat, i: nat)
    requires Rooted(t, n) && i < n && |t| == n * NODE_WORDS && t[i * NODE_WORDS] % 256 != 0
    ensures FromRoot(t, n, i)
  {
    assert UsedWord(Word(t, i, 0));
    var ranks :| Ranked(t, n, ranks);
    var k := ReachesBy(t, n, ranks, i);
  }

  // ----- what a step may do to the tree -------------------------------------------------------------

  /** u is t with record x as it was, or gone and without nodes of its own, or new in an existing directory. */
  ghost predicate OneNode(t: Table, u: Table, n: nat, x: nat, w: nat, p: nat) {
    && |t| == |u| == n * NODE_WORDS
    && (forall i :: 0 <= i < n && i != x && UsedWord(t[i * NODE_WORDS]) ==> Pair(u, i) == Pair(t, i))
    && (forall i :: 0 <= i < n && i != x && !UsedWord(t[i * NODE_WORDS]) ==> !UsedWord(u[i * NODE_WORDS]))
    && (x < n ==>
          || Pair(u, x) == Pair(t, x)
          || (!UsedWord(u[x * NODE_WORDS]) && forall i :: 0 < i < n ==> !ChildOf(t, n, i, x))
          || (!UsedWord(t[x * NODE_WORDS]) && Pair(u, x) == (w, p) && p < n && DirWord(t[p * NODE_WORDS])))
  }

  lemma OneNodeRooted(t: Table, u: Table, n: nat, x: nat, w: nat, p: nat)
    requires OneNode(t, u, n, x, w, p) && Rooted(t, n)
    ensures Rooted(u, n)
  {
    hide UsedWord, DirWord, ChildOf;
    var ranks :| Ranked(t, n, ranks);
    var ranks' := if x < n && !UsedWord(t[x * NODE_WORDS]) && p < n then ranks[x := ranks[p] + 1] else ranks;
    forall i | 0 < i < n && UsedWord(Word(u, i, 0))
      ensures var q := Word(u, i, PARENT); q < n && DirWord(Word(u, q, 0)) && ranks'[q] < ranks'[i]
    {
      NodeStays(t, u, n, x, w, p, ranks, ranks', i);
    }
    assert Ranked(u, n, ranks');
  }

  lemma NodeStays(t: Table, u: Table, n: nat, x: nat, w: nat, p: nat, ranks: seq<nat>, ranks': seq<nat>, i: nat)
    requires OneNode(t, u, n, x, w, p) && Ranked(t, n, ranks) && 0 < i < n && UsedWord(Word(u, i, 0))
    requires ranks' == if x < n && !UsedWord(t[x * NODE_WORDS]) && p < n then ranks[x := ranks[p] + 1] else ranks
    ensures var q := Word(u, i, PARENT); q < n && DirWord(Word(u, q, 0)) && ranks'[q] < ranks'[i]
  {
    hide UsedWord, DirWord, ChildOf;
    assert Pair(u, i) == (Word(u, i, 0), Word(u, i, PARENT)) && Pair(t, i) == (Word(t, i, 0), Word(t, i, PARENT));
    var q := Word(u, i, PARENT);
    if UsedWord(Word(t, i, 0)) && Pair(u, i) == Pair(t, i) {
      assert q < n && DirWord(Word(t, q, 0)) && ranks[q] < ranks[i];
      ChildWords(t, n, i, q);
    } else {
      assert i == x && !UsedWord(t[x * NODE_WORDS]) && q == p;
    }
    DirUsed(Word(t, q, 0));
    assert Pair(u, q).0 == Word(u, q, 0) && Pair(t, q).0 == Word(t, q, 0);
  }

  // ----- steps ----------------------------------------------------------------------------------------

  /** New nodes are made in directories that exist. */
  ghost predicate InDirectory(a: Act, s: Snap, g: Geo)
    requires |s.table| == g.n * NODE_WORDS
  {
    a.CreateAct? ==> a.parent < g.n && DirWord(Word(s.table, a.parent, 0))
  }

  /** A node that an unlink removes, or that is not in use, has no nodes of its own. */
  lemma NoOrphans(t: Table, n: nat, x: nat)
    requires Rooted(t, n) && |t| == n * NODE_WORDS && x < n && (DirWord(Word(t, x, 0)) ==> Children(t, n, x, n) == 0)
    ensures forall i :: 0 < i < n ==> !ChildOf(t, n, i, x)
  {
    hide DirWord, Children;
    var ranks :| Ranked(t, n, ranks);
    NoChildren(t, n, x);
    forall i | 0 < i < n ensures !ChildOf(t, n, i, x) {
      ChildWords(t, n, i, x);
      var p := Word(t, i, PARENT);
      assert UsedWord(Word(t, i, 0)) ==> p < n && DirWord(Word(t, p, 0));
    }
  }

  lemma UnusedBare(t: Table, n: nat, x: nat)
    requires Rooted(t, n) && |t| == n * NODE_WORDS && x < n && !UsedWord(Word(t, x, 0))
    ensures forall i :: 0 < i < n ==> !ChildOf(t, n, i, x)
  {
    DirUsed(Word(t, x, 0));
    NoOrphans(t, n, x);
  }

  /** An act that was not cut short. */
  lemma DoneTree(a: Act, s: Snap, s': Snap, g: Geo)
    requires Sound(s, g) && Done(a, s, s', g) && Rooted(s.table, g.n) && InDirectory(a, s, g)
    ensures Rooted(s'.table, g.n)
  {
    hide Consistent, Apart, HasAll, TableSynced, RootWord, SameNodes, DirWord, UsedWord, FileWord, Children, Live, LeavesMarker, Own, Rooted, OneNode;
    var f, t, u, n := FrameOf(a, s, g), s.table, s'.table, g.n;
    forall i | 0 <= i < n && i != f.x ensures Pair(u, i) == Pair(t, i) {
      assert Foreign(t, f.x, i, 0) && Foreign(t, f.x, i, PARENT);
      assert Word(u, i, 0) == Word(t, i, 0) && Word(u, i, PARENT) == Word(t, i, PARENT);
    }
    if f.x < n { OwnTree(a, s, s', g); }
    DoneOneNode(f, t, u, n, a);
    OneNodeRooted(t, u, n, f.x, f.word0, f.parent0);
  }

  lemma DoneOneNode(f: Frame, t: Table, u: Table, n: nat, a: Act)
    requires |t| == |u| == n * NODE_WORDS && forall i :: 0 <= i < n && i != f.x ==> Pair(u, i) == Pair(t, i)
    requires f.x < n ==>
      || Pair(u, f.x) == Pair(t, f.x)
      || (!UsedWord(u[f.x * NODE_WORDS]) && forall i :: 0 < i < n ==> !ChildOf(t, n, i, f.x))
      || (!UsedWord(t[f.x * NODE_WORDS]) && Pair(u, f.x) == (f.word0, f.parent0) && f.parent0 < n && DirWord(t[f.parent0 * NODE_WORDS]))
    ensures OneNode(t, u, n, f.x, f.word0, f.parent0)
  {
    hide UsedWord, DirWord, ChildOf;
    forall i | 0 <= i < n && i != f.x ensures u[i * NODE_WORDS] == t[i * NODE_WORDS] { assert Pair(u, i).0 == Pair(t, i).0; }
  }

  lemma OwnTree(a: Act, s: Snap, s': Snap, g: Geo)
    requires Sound(s, g) && Done(a, s, s', g) && Rooted(s.table, g.n) && InDirectory(a, s, g) && FrameOf(a, s, g).x < g.n
    ensures var f, t, u, n := FrameOf(a, s, g), s.table, s'.table, g.n;
      || Pair(u, f.x) == Pair(t, f.x)
      || (!UsedWord(u[f.x * NODE_WORDS]) && forall i :: 0 < i < n ==> !ChildOf(t, n, i, f.x))
      || (!UsedWord(t[f.x * NODE_WORDS]) && Pair(u, f.x) == (f.word0, f.parent0) && f.parent0 < n && DirWord(t[f.parent0 * NODE_WORDS]))
  {
    hide Consistent, Apart, HasAll, TableSynced, RootWord, SameNodes, Live, LeavesMarker, Rooted, ChildOf, WrittenTo, FreeBlocks, Minfs.CanStore,
         Minfs.SetRecord, Minfs.Record, Minfs.Blank, Children, Minfs.StillMarked, DirWord;
    var f, t, u, n := FrameOf(a, s, g), s.table, s'.table, g.n;
    var x := f.x;
    match a
    case WriteAct(_, _, _) => assert Word(u, x, 0) == Word(t, x, 0) && Word(u, x, PARENT) == Word(t, x, PARENT);
    case TruncateAct(_) => assert Word(u, x, 0) == Word(t, x, 0) && Word(u, x, PARENT) == Word(t, x, PARENT);
    case CreateAct(parent, isFile, name, vnodeOk) =>
      assert Word(t, x, 0) == t[x * NODE_WORDS];
      if vnodeOk {
        var r := Minfs.Record(Minfs.NewWord(isFile), parent, name);
        assert Word(u, x, 0) == r[0] && Word(u, x, PARENT) == r[PARENT];
        assert Word(t, parent, 0) == t[parent * NODE_WORDS];
      } else {
        assert Word(u, x, 0) == Minfs.Blank()[0] && Word(u, x, 0) == u[x * NODE_WORDS];
        UnusedBare(t, n, x);
      }
    case UnlinkAct(_) =>
      assert Word(u, x, 0) == Minfs.Blank()[0] && Word(u, x, 0) == u[x * NODE_WORDS];
      NoOrphans(t, n, x);
  }

  /** Any disk that a power failure finds. */
  lemma FoundTree(a: Act, s: Snap, g: Geo, d: Disk)
    requires Sound(s, g) && Rooted(s.table, g.n) && InDirectory(a, s, g) && Framed(FrameOf(a, s, g), d)
    ensures Rooted(TableOf(d, g), g.n)
  {
    hide Consistent, Apart, HasAll, TableSynced, RootWord, DirWord, UsedWord, FileWord, Children, Rooted, OneNode, DataFramed, SameNodes;
    var f, t, u, n := FrameOf(a, s, g), s.table, TableOf(d, g), g.n;
    forall i | 0 <= i < n && i != f.x
      ensures UsedWord(t[i * NODE_WORDS]) ==> Pair(u, i) == Pair(t, i)
      ensures !UsedWord(t[i * NODE_WORDS]) ==> !UsedWord(u[i * NODE_WORDS])
    {
      ForeignPair(f, t, u, n, i);
    }
    if f.x < n { OwnPair(a, s, g, u); }
    OneNodeIs(t, u, n, f.x, f.word0, f.parent0);
    OneNodeRooted(t, u, n, f.x, f.word0, f.parent0);
  }

  lemma OneNodeIs(t: Table, u: Table, n: nat, x: nat, w: nat, p: nat)
    requires |t| == |u| == n * NODE_WORDS
    requires forall i :: 0 <= i < n && i != x && UsedWord(t[i * NODE_WORDS]) ==> Pair(u, i) == Pair(t, i)
    requires forall i :: 0 <= i < n && i != x && !UsedWord(t[i * NODE_WORDS]) ==> !UsedWord(u[i * NODE_WORDS])
    requires x < n ==>
      || Pair(u, x) == Pair(t, x)
      || (!UsedWord(u[x * NODE_WORDS]) && forall i :: 0 < i < n ==> !ChildOf(t, n, i, x))
      || (!UsedWord(t[x * NODE_WORDS]) && Pair(u, x) == (w, p) && p < n && DirWord(t[p * NODE_WORDS]))
    ensures OneNode(t, u, n, x, w, p)
  {
    hide UsedWord, DirWord, ChildOf;
  }

  lemma ForeignPair(f: Frame, t: Table, u: Table, n: nat, i: nat)
    requires f.t0 == t && f.g.n == n && TableFramed(f, u) && SameNodes(f.l0, t, n) && i < n && i != f.x
    ensures UsedWord(t[i * NODE_WORDS]) ==> Pair(u, i) == Pair(t, i)
    ensures !UsedWord(t[i * NODE_WORDS]) ==> !UsedWord(u[i * NODE_WORDS])
  {
    hide UsedWord, DirWord;
    assert Foreign(t, f.x, i, 0) && Foreign(t, f.x, i, PARENT);
    assert Word(u, i, 0) == u[i * NODE_WORDS] && Word(u, i, PARENT) == u[i * NODE_WORDS + PARENT];
    assert Word(t, i, 0) == t[i * NODE_WORDS] && Word(f.l0, i, 0) == f.l0[i * NODE_WORDS];
    assert Pair(f.l0, i) == (Word(f.l0, i, 0), Word(f.l0, i, PARENT)) && Pair(t, i) == (Word(t, i, 0), Word(t, i, PARENT));
  }

  lemma OwnPair(a: Act, s: Snap, g: Geo, u: Table)
    requires Sound(s, g) && Rooted(s.table, g.n) && InDirectory(a, s, g) && PairFramed(FrameOf(a, s, g), u) && FrameOf(a, s, g).x < g.n
    ensures var f, t, n := FrameOf(a, s, g), s.table, g.n;
      || Pair(u, f.x) == Pair(t, f.x)
      || (!UsedWord(u[f.x * NODE_WORDS]) && forall i :: 0 < i < n ==> !ChildOf(t, n, i, f.x))
      || (!UsedWord(t[f.x * NODE_WORDS]) && Pair(u, f.x) == (f.word0, f.parent0) && f.parent0 < n && DirWord(t[f.parent0 * NODE_WORDS]))
  {
    hide Consistent, Apart, HasAll, TableSynced, RootWord, DirWord, Children, Rooted, ChildOf;
    var f, t, n := FrameOf(a, s, g), s.table, g.n;
    var x := f.x;
    assert Pair(u, x).0 == u[x * NODE_WORDS] && Pair(t, x).0 == t[x * NODE_WORDS] == Word(t, x, 0) && Pair(f.l0, x).0 == f.l0[x * NODE_WORDS];
    if Pair(u, x) != Pair(t, x) {
      if Pair(u, x) == Pair(f.l0, x) {
        UnusedBare(t, n, x);
      } else if a.UnlinkAct? {
        NoOrphans(t, n, x);
      } else {
        assert a.CreateAct? && Word(t, a.parent, 0) == t[a.parent * NODE_WORDS];
      }
    }
  }

  /** Recovery, complete or not, leaves the tree alone. */
  lemma RecoveredTree(u: Table, t: Table, n: nat, nb: nat)
    requires |u| == |t| == n * NODE_WORDS && HalfRecovered(u, t, n, nb) && Rooted(u, n)
    ensures Rooted(t, n)
  {
    hide HalfRecovered, UsedWord, DirWord;
    HalfKeepsRefs(u, t, n, nb);
    var ranks :| Ranked(u, n, ranks);
    assert Ranked(t, n, ranks);
  }

  /** One step: an act, and perhaps a power failure at any moment of it and the mounts after that. */
  lemma TreeOn(step: Step, s: Snap, s': Snap, g: Geo)
    requires Sound(s, g) && Next(step, s, s', g) && Rooted(s.table, g.n) && InDirectory(step.act, s, g)
    ensures |s'.table| == g.n * NODE_WORDS && Rooted(s'.table, g.n)
  {
    hide Consistent, Apart, HasAll, CrashSafe, Framed, Live, Own, LeavesMarker, Target, RootWord, TableSynced, HalfRecovered, Rooted, SameNodes;
    if step.crash.NoCrash? {
      DoneTree(step.act, s, s', g);
    } else {
      var d :| Found(FrameOf(step.act, s, g), d) && Remounted(d, s', g);
      FoundTree(step.act, s, g, d);
      RecoveredTree(TableOf(d, g), s'.table, g.n, g.nb);
    }
  }

  /** Over every life the tree hangs together: every node in use can be reached from the root, in every state. */
  lemma {:induction false} LifeRooted(steps: seq<Step>, states: seq<Snap>, g: Geo, n: nat)
    requires Life(steps, states, g) && n <= |steps| && Rooted(states[0].table, g.n)
    requires forall m :: 0 <= m < |steps| ==> |states[m].table| == g.n * NODE_WORDS && InDirectory(steps[m].act, states[m], g)
    ensures |states[n].table| == g.n * NODE_WORDS && Rooted(states[n].table, g.n)
    ensures forall i :: 0 < i < g.n ==> HasParent(states[n].table, g.n, i)
    ensures forall i :: 0 <= i < g.n && states[n].table[i * NODE_WORDS] % 256 != 0 ==> FromRoot(states[n].table, g.n, i)
  {
    hide Sound, Next, Rooted, UsedWord, InDirectory, FromRoot, HasParent;
    SoundShape(states[n], g);
    if n > 0 {
      LifeRooted(steps, states, g, n - 1);
      LifeAt(steps, states, g, n - 1);
      TreeOn(steps[n - 1], states[n - 1], states[n], g);
    }
    ghost var t := states[n].table;
    forall i | 0 < i < g.n ensures HasParent(t, g.n, i) { Parented(t, g.n, i); }
    forall i | 0 <= i < g.n && t[i * NODE_WORDS] % 256 != 0 ensures FromRoot(t, g.n, i) { ReachesRoot(t, g.n, i); }
  }

  /** A formatted filesystem has only the root. */
  lemma FormatRooted(n: nat)
    requires n > 0
    ensures Rooted(FormattedTable(n), n)
  {
    hide UsedWord;
    var bits: seq<bool> := [];
    FormatTidy(n, 0, bits);
    var ranks := seq(n, i => 0);
    assert Ranked(FormattedTable(n), n, ranks);
  }
}
