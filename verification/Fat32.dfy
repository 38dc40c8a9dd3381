/**
 The FAT32 driver (kernel/fat32.c): allocation and release of clusters, reading, writing,
 truncating and unlinking. Device calls succeed and every cluster number has its sectors.
 */
module Fat32 {
  import opened FatChains

  const CHAIN_MAX: nat := 100000
  const U32: nat := 0x1_0000_0000

  /** A vnode, or the directory entry it was read from: first cluster and size. */
  datatype Node = Node(dir: bool, cluster: nat, size: nat)

  function Min(a: nat, b: nat): nat { if a < b then a else b }
  function Max(a: nat, b: nat): nat { if a < b then b else a }
  function Zeros(n: nat): seq<nat> { seq(n, i => 0) }

  /** The bytes `old` with `new_` written at offset, and longer if need be. */
  function Written(old_: seq<nat>, offset: nat, new_: seq<nat>): (r: seq<nat>)
    requires offset <= |old_|
    ensures |r| == Max(|old_|, offset + |new_|)
    ensures forall p :: 0 <= p < |r| ==> r[p] == if offset <= p < offset + |new_| then new_[p - offset] else old_[p]
  {
    old_[..offset] + new_ + old_[Min(offset + |new_|, |old_|)..]
  }

  /** The bytes of base with x at position off, inside base. */
  function Over(base: seq<nat>, off: nat, x: seq<nat>): (r: seq<nat>)
    requires off + |x| <= |base|
    ensures |r| == |base| && forall p :: 0 <= p < |r| ==> r[p] == if off <= p < off + |x| then x[p - off] else base[p]
  {
    base[..off] + x + base[off + |x|..]
  }

  lemma OverNothing(base: seq<nat>, off: nat)
    requires off <= |base|
    ensures Over(base, off, []) == base
  {
  }

  lemma OverGrows(base: seq<nat>, n: nat, m: nat, off: nat, x: seq<nat>)
    requires off + |x| <= |base| + n
    ensures Over(base + Zeros(n), off, x) + Zeros(m) == Over(base + Zeros(n + m), off, x)
  {
    assert base + Zeros(n) + Zeros(m) == base + Zeros(n + m);
  }

  /** Rewriting one cluster of bytes that have x at off continues x. */
  lemma OverStep(base: seq<nat>, off: nat, x: seq<nat>, lo: nat, bpc: nat, inside: nat, part: seq<nat>)
    requires off + |x| <= |base| && lo + bpc <= |base| && lo + inside == off + |x| && inside + |part| <= bpc
    ensures var b := Over(base, off, x);
      b[..lo] + Over(b[lo..lo + bpc], inside, part) + b[lo + bpc..] == Over(base, off, x + part)
  {
    var b := Over(base, off, x);
    var p := off + |x|;
    assert b[lo..lo + bpc][..inside] == b[lo..p] && b[lo..lo + bpc][inside + |part|..] == b[p + |part|..lo + bpc];
    assert b[..lo] + b[lo..p] == b[..p] == base[..off] + x;
    assert b[p + |part|..lo + bpc] + b[lo + bpc..] == b[p + |part|..] == base[p + |part|..];
  }

  /** The chain belongs to the node and is long enough for its size. */
  ghost predicate StartOk(n: Node, cs: seq<nat>, bpc: nat) {
    && (if n.cluster < 2 then cs == [] else cs != [] && cs[0] == n.cluster)
    && n.size <= |cs| * bpc
  }

  class Volume {
    const root: nat
    const bpc: nat
    /** FAT entries in a sector. */
    const eps: nat
    /** Sectors of one copy of the table. */
    const spf: nat
    var fat: seq<nat>
    /** The copies of the table on the disk. */
    var copies: seq<seq<nat>>
    var data: seq<seq<nat>>
    var nodes: seq<Node>
    /** The directory entries on the disk. */
    var entries: seq<Node>
    ghost var chains: seq<seq<nat>>

    ghost predicate Shape()
      reads this
    {
      && eps > 0 && bpc > 0 && |fat| == spf * eps && |data| == |fat| && DataOk(data, bpc)
      && (forall k :: 0 <= k < |copies| ==> copies[k] == fat)
      && |chains| == |nodes| == |entries| > 0 && ChainsOk(fat, chains)
      && chains[0] != [] && chains[0][0] == root && nodes[0].dir
    }

    ghost predicate Valid()
      reads this
    {
      && Shape() && (forall f :: 0 <= f < |nodes| ==> StartOk(nodes[f], chains[f], bpc))
      && (forall f :: 0 <= f < |nodes| ==> entries[f].cluster == nodes[f].cluster || entries[f].cluster < 2)
    }

    /** All bytes of the clusters of node f. */
    ghost function Bytes(f: nat): seq<nat>
      requires Shape() && f < |nodes|
      reads this
    {
      Bounds(f);
      Flat(chains[f], data)
    }

    /** The contents of file f. */
    ghost function Contents(f: nat): (r: seq<nat>)
      requires Valid() && f < |nodes|
      reads this
      ensures |r| == nodes[f].size
    {
      assert StartOk(nodes[f], chains[f], bpc);
      Bounds(f);
      FlatLength(chains[f], data, bpc);
      Bytes(f)[..nodes[f].size]
    }

    lemma Bounds(f: nat)
      requires Shape() && f < |nodes|
      ensures Inside(chains[f], |data|) && ChainOk(fat, chains[f])
    {
      assert ChainOk(fat, chains[f]);
      forall i | 0 <= i < |chains[f]| ensures chains[f][i] < |data| { assert Leads(fat, chains[f], i); }
    }

    // ----- the table ------------------------------------------------------------------------------------

    /** fat32_flush_fat_sector: the sector goes to every copy. */
    method FlushSector(s: nat, ghost fat0: seq<nat>)
      requires eps > 0 && (s + 1) * eps <= |fat| == |fat0|
      requires forall k :: 0 <= k < |copies| ==> copies[k] == fat0
      requires forall i :: 0 <= i < |fat| && !(s * eps <= i < (s + 1) * eps) ==> fat[i] == fat0[i]
      modifies this`copies
      ensures |copies| == |old(copies)| && forall k :: 0 <= k < |copies| ==> copies[k] == fat
    {
      var lo, hi := s * eps, (s + 1) * eps;
      assert hi == lo + eps;
      for k := 0 to |copies|
        invariant |copies| == |old(copies)|
        invariant forall q :: 0 <= q < k ==> copies[q] == fat
        invariant forall q :: k <= q < |copies| ==> copies[q] == fat0
      {
        var new_ := copies[k][..lo] + fat[lo..hi] + copies[k][hi..];
        assert new_ == fat;
        copies := copies[k := new_];
      }
    }

    /** fat32_set_fat_entry: the top four bits stay, and all copies follow. */
    method SetEntry(c: nat, value: nat) returns (ok: bool)
      requires eps > 0 && |fat| == spf * eps && forall k :: 0 <= k < |copies| ==> copies[k] == fat
      modifies this`fat, this`copies
      ensures ok == (2 <= c < |old(fat)|) && |copies| == |old(copies)| && forall k :: 0 <= k < |copies| ==> copies[k] == fat
      ensures fat == if ok then old(fat)[c := Keep4(old(fat)[c], value)] else old(fat)
    {
      if c < 2 || c >= |fat| { return false; }
      ghost var fat0 := fat;
      fat := fat[c := Keep4(fat[c], value)];
      var s := Sector(c);
      FlushSector(s, fat0);
      return true;
    }

    /** The sector that holds an entry. */
    method Sector(c: nat) returns (s: nat)
      requires eps > 0 && |fat| == spf * eps && c < |fat|
      ensures s * eps <= c < (s + 1) * eps <= |fat|
    {
      DivMod(c, eps);
      s := c / eps;
      SectorBounds(s, c % eps, spf, eps);
    }

    static lemma SectorBounds(q: nat, r: nat, m: nat, eps: nat)
      requires r < eps && q * eps + r < m * eps
      ensures (q + 1) * eps == q * eps + eps <= m * eps
    {
      MulMono(m, q, eps);
      MulMono(q + 1, m, eps);
      assert (q + 1) * eps == q * eps + eps;
    }

    static lemma MulMono(a: nat, b: nat, k: nat)
      ensures a <= b ==> a * k <= b * k
    {
      if a <= b { assert b * k == a * k + (b - a) * k; }
    }

    /** fat32_find_free_cluster: the lowest free cluster that is not the root. */
    method FindFree() returns (c: nat)
      ensures c == 0 ==> forall q :: 2 <= q < |fat| && q != root ==> Low(fat[q]) != 0
      ensures c != 0 ==> 2 <= c < |fat| && c != root && Low(fat[c]) == 0 && forall q :: 2 <= q < c && q != root ==> Low(fat[q]) != 0
    {
      c := 2;
      while c < |fat|
        invariant 2 <= c && forall q :: 2 <= q < c && q < |fat| && q != root ==> Low(fat[q]) != 0
      {
        if c != root && Low(fat[c]) == 0 { return; }
        c := c + 1;
      }
      return 0;
    }

    /**
     fat32_alloc_and_link_cluster at the end of chain f: takes one free cluster, zeroes it and
     links it; fails, changing nothing, exactly when no cluster is free.
     */
    method Extend(f: nat, prev: nat) returns (ok: bool, c: nat)
      requires Shape() && f < |nodes| && prev == (if chains[f] == [] then 0 else chains[f][|chains[f]| - 1])
      modifies this`fat, this`copies, this`data, this`chains
      ensures Shape() && |fat| == |old(fat)|
      ensures ok <==> old(FreeCount(fat, root, |fat|)) > 0
      ensures !ok ==> fat == old(fat) && data == old(data) && chains == old(chains)
      ensures ok ==>
        && chains == Grown(old(chains), f, c) && FreeCount(fat, root, |fat|) == old(FreeCount(fat, root, |fat|)) - 1
        && c < |fat| && data == old(data)[c := Zeros(bpc)] && Unused(old(chains), c) && Low(old(fat)[c]) == 0
        && 2 <= c != root && Low(fat[c]) == 0x0FFF_FFFF && (forall i :: 0 <= i < bpc ==> data[c][i] == 0)
        && (forall q :: 0 <= q < |fat| ==> fat[q] / M28 == old(fat)[q] / M28)
    {
      hide ChainsOk, Unused, Low, Keep4;
      FreeCountNone(fat, root, |fat|);
      c := FindFree();
      if c == 0 { return false, 0; }
      ghost var fat0 := fat;
      FreeUnused(fat, chains, c);
      Keep4Parts(fat[c], END);
      EndIsEnd();
      SetUnused(fat, chains, c, Keep4(fat[c], END));
      FreeCountSet(fat, root, |fat|, c, Keep4(fat[c], END));
      var done := SetEntry(c, END);
      data := data[c := Zeros(bpc)];
      ghost var fat1 := fat;
      if prev >= 2 {
        PrevTaken(fat, chains, f, c);
        Keep4Parts(fat[prev], c);
        SmallLow(c);
        FreeCountSame(fat, root, |fat|, prev, Keep4(fat[prev], c));
        done := SetEntry(prev, c);
      } else {
        StartsAtTwo(f);
      }
      LinkGrows(fat1, fat, chains, f, c);
      chains := Grown(chains, f, c);
      return true, c;
    }

    lemma StartsAtTwo(f: nat)
      requires f < |chains| && ChainsOk(fat, chains)
      ensures chains[f] != [] ==> chains[f][|chains[f]| - 1] >= 2
    {
      assert ChainOk(fat, chains[f]);
      if chains[f] != [] { assert Leads(fat, chains[f], |chains[f]| - 1); }
    }

    static lemma EndIsEnd()
      ensures Low(END) == END >= BAD
    {
    }

    static lemma SmallLow(c: nat)
      ensures c < M28 ==> Low(c) == c
    {
    }

    static lemma PrevTaken(fat: seq<nat>, chains: seq<seq<nat>>, f: nat, c: nat)
      requires ChainsOk(fat, chains) && f < |chains| && chains[f] != [] && Unused(chains, c)
      ensures var p := chains[f][|chains[f]| - 1]; 2 <= p < |fat| && p != c && Low(fat[p]) >= BAD && |fat| <= BAD
    {
      var l := |chains[f]| - 1;
      assert ChainOk(fat, chains[f]) && Leads(fat, chains[f], l) && chains[f][l] in chains[f];
    }

    /** The table after the first k clusters of a chain were freed. */
    static ghost predicate Freed(fat0: seq<nat>, fat: seq<nat>, cs: seq<nat>, k: nat) {
      && |fat| == |fat0| && k <= |cs|
      && forall q :: 0 <= q < |fat| ==> fat[q] == if q in cs[..k] then Keep4(fat0[q], 0) else fat0[q]
    }

    /** A chain that belongs to no node any more. */
    static ghost predicate Loose(fat: seq<nat>, chains: seq<seq<nat>>, cs: seq<nat>) {
      && ChainOk(fat, cs) && (forall i :: 0 <= i < |cs| ==> Unused(chains, cs[i]))
      && forall i, j :: 0 <= i < j < |cs| ==> cs[i] != cs[j]
    }

    /** fat32_release_cluster_chain: frees the clusters of the chain, at most CHAIN_MAX of them, and nothing else. */
    method Release(first: nat, ghost cs: seq<nat>) returns (ok: bool)
      requires eps > 0 && |fat| == spf * eps && forall k :: 0 <= k < |copies| ==> copies[k] == fat
      requires ChainsOk(fat, chains) && Loose(fat, chains, cs) && root !in cs
      requires if first < 2 then cs == [] else cs != [] && cs[0] == first
      modifies this`fat, this`copies
      ensures ok && |copies| == |old(copies)| && forall k :: 0 <= k < |copies| ==> copies[k] == fat
      ensures ChainsOk(fat, chains) && Freed(old(fat), fat, cs, Min(|cs|, CHAIN_MAX))
      ensures FreeCount(fat, root, |fat|) == old(FreeCount(fat, root, |fat|)) + Min(|cs|, CHAIN_MAX)
    {
      hide ChainsOk, Keep4, Unused;
      if first < 2 { return true; }
      assert Leads(fat, cs, 0);
      var current, guard := first, 0;
      ghost var fat0 := fat;
      while current >= 2 && current < |fat| && guard < CHAIN_MAX
        invariant guard <= CHAIN_MAX && guard < |cs| && current == cs[guard] && 2 <= current < |fat|
        invariant |copies| == |old(copies)| && forall k :: 0 <= k < |copies| ==> copies[k] == fat
        invariant ChainsOk(fat, chains) && Freed(fat0, fat, cs, guard)
        invariant FreeCount(fat, root, |fat|) == FreeCount(fat0, root, |fat|) + guard
        decreases CHAIN_MAX - guard
      {
        if current == root { return false; }
        var next := Next(fat, current);
        FreeStep(fat0, fat, chains, cs, guard, root);
        var done := SetEntry(current, 0);
        guard := guard + 1;
        if next == 0 { return true; }
        current := next;
      }
      return true;
    }

    static lemma FreeStep(fat0: seq<nat>, fat: seq<nat>, chains: seq<seq<nat>>, cs: seq<nat>, k: nat, root: nat)
      requires ChainsOk(fat, chains) && Loose(fat0, chains, cs) && root !in cs && k < |cs| && Freed(fat0, fat, cs, k)
      ensures 2 <= cs[k] < |fat| && cs[k] != root && Next(fat, cs[k]) == (if k + 1 < |cs| then cs[k + 1] else 0) &&
        (k + 1 < |cs| ==> 2 <= cs[k + 1] < |fat|)
      ensures var fat' := fat[cs[k] := Keep4(fat[cs[k]], 0)];
        ChainsOk(fat', chains) && Freed(fat0, fat', cs, k + 1) && FreeCount(fat', root, |fat'|) == FreeCount(fat, root, |fat|) + 1
    {
      assert Leads(fat0, cs, k) && cs[k] !in cs[..k];
      if k + 1 < |cs| { assert Leads(fat0, cs, k + 1); }
      var c := cs[k];
      assert fat[c] == fat0[c];
      Keep4Parts(fat[c], 0);
      SetUnused(fat, chains, c, Keep4(fat[c], 0));
      FreeCountSet(fat, root, |fat|, c, Keep4(fat[c], 0));
      assert cs[..k + 1] == cs[..k] + [c];
    }

    // ----- reading ----------------------------------------------------------------------------------------

    /** Position k of a chain, 0 behind its end. */
    static function At(cs: seq<nat>, k: nat): nat { if k < |cs| then cs[k] else 0 }

    lemma NextAt(f: nat, k: nat)
      requires Shape() && f < |nodes| && k < |chains[f]|
      ensures Next(fat, chains[f][k]) == At(chains[f], k + 1) && 2 <= chains[f][k] < |fat|
    {
      Bounds(f);
      assert Leads(fat, chains[f], k);
      if k + 1 < |chains[f]| { assert Leads(fat, chains[f], k + 1); }
    }

    lemma StartAt(f: nat)
      requires Valid() && f < |nodes|
      ensures nodes[f].cluster >= 2 ==> nodes[f].cluster == At(chains[f], 0)
      ensures nodes[f].cluster < 2 ==> At(chains[f], 0) == 0 && chains[f] == [] && nodes[f].size == 0
      ensures |Bytes(f)| == |chains[f]| * bpc >= nodes[f].size
    {
      assert StartOk(nodes[f], chains[f], bpc);
      Bounds(f);
      FlatLength(chains[f], data, bpc);
    }

    /** Cluster k of a chain holds the bytes from k*bpc on. */
    lemma ClusterBytes(f: nat, k: nat)
      requires Shape() && f < |nodes| && k < |chains[f]|
      ensures chains[f][k] < |data| && |data[chains[f][k]]| == bpc && k * bpc + bpc <= |Bytes(f)|
      ensures data[chains[f][k]] == Bytes(f)[k * bpc..k * bpc + bpc]
    {
      Bounds(f);
      forall i | 0 <= i < |chains[f]| && i != k ensures chains[f][i] != chains[f][k] { }
      FlatPut(chains[f], data, bpc, k, data[chains[f][k]]);
    }

    static lemma DivMod(x: nat, k: nat)
      requires k > 0
      ensures x / k * k + x % k == x && x % k < k
    {
      assert x == x / k * k + x % k;
    }

    /** fat32_read: the contents from offset on, as far as the file goes. */
    method Read(f: nat, offset: nat, size: nat) returns (rc: int, bytes: seq<nat>)
      requires Valid() && f < |nodes|
      ensures nodes[f].dir ==> rc == -1
      ensures !nodes[f].dir ==> rc == |bytes| == (if offset >= nodes[f].size then 0 else Min(size, nodes[f].size - offset))
      ensures !nodes[f].dir && rc > 0 ==> offset + rc <= nodes[f].size && bytes == Contents(f)[offset..offset + rc]
    {
      hide Shape, StartOk, Flat, Next, Bytes, Contents;
      bytes := [];
      if nodes[f].dir { return -1, []; }
      if offset >= nodes[f].size { return 0, []; }
      var want := Min(size, nodes[f].size - offset);
      var index := OffsetIndex(f, offset);
      var current := Seek(f, index);
      if current == 0 && index > 0 { return 0, []; }
      bytes := ReadFrom(f, offset, want, current, index, offset % bpc);
      ContentsOf(f, offset, |bytes|);
      return |bytes|, bytes;
    }

    /** The cluster of a position inside the file. */
    method OffsetIndex(f: nat, offset: nat) returns (index: nat)
      requires Valid() && f < |nodes| && offset < nodes[f].size
      ensures bpc > 0 && index == offset / bpc && index * bpc + offset % bpc == offset && offset % bpc < bpc &&
        |chains| == |nodes| && index < |chains[f]|
    {
      DivMod(offset, bpc);
      index := offset / bpc;
      NotPast(f, offset, Min(index, |chains[f]|), index);
    }

    /** The walk to cluster k of a chain that has it. */
    method Seek(f: nat, index: nat) returns (current: nat)
      requires Valid() && f < |nodes| && |chains| == |nodes| && index < |chains[f]|
      ensures current == chains[f][index] && current >= 2
    {
      hide Shape, StartOk, Next, Bytes;
      StartAt(f);
      ghost var cs := chains[f];
      current := nodes[f].cluster;
      for i := 0 to index
        invariant current == cs[i]
      {
        NextAt(f, i);
        if current == 0 { return; }
        current := Next(fat, current);
      }
      NextAt(f, index);
    }

    /** The copy loop of fat32_read. */
    method ReadFrom(f: nat, offset: nat, want: nat, start: nat, ghost index: nat, inOff: nat) returns (bytes: seq<nat>)
      requires Valid() && f < |nodes| && |chains| == |nodes| && index < |chains[f]| && start == chains[f][index]
      requires inOff < bpc && index * bpc + inOff == offset && offset + want <= nodes[f].size
      ensures |bytes| == want && offset + want <= |Bytes(f)| && bytes == Bytes(f)[offset..offset + want]
    {
      hide Shape, StartOk, Next, Bytes;
      StartAt(f);
      ghost var cs, all := chains[f], Bytes(f);
      var inside: nat, current: nat := inOff, start;
      NextAt(f, index);
      ghost var k: nat, base: nat := index, index * bpc;
      bytes := [];
      while want > |bytes| && current != 0
        invariant |bytes| <= want && (|bytes| < want ==> k < |cs| && current == cs[k] && current != 0) && offset + |bytes| <= nodes[f].size
        invariant |bytes| < want ==> inside < bpc && offset + |bytes| == base + inside && base == k * bpc
        invariant bytes == all[offset..offset + |bytes|]
        decreases want - |bytes|
      {
        ClusterBytes(f, k);
        var n := Min(bpc - inside, want - |bytes|);
        SlicePart(all, base, bpc, inside, n, offset, |bytes|);
        bytes := bytes + data[current][inside..inside + n];
        NextAt(f, k);
        current := Next(fat, current);
        NextPos(f, offset + |bytes|, k, inside, n, |bytes| < want);
        k, inside, base := k + 1, 0, base + bpc;
        if |bytes| < want { NextAt(f, k); }
      }
    }

    /** Unless the read is over, it goes on at the start of the next cluster. */
    lemma NextPos(f: nat, pos: nat, k: nat, inside: nat, n: nat, more: bool)
      requires Valid() && f < |nodes| && k < |chains[f]| && inside < bpc && pos == k * bpc + inside + n
      requires more ==> pos < nodes[f].size && n == bpc - inside
      ensures At(chains[f], k + 1) == if k + 1 < |chains[f]| then chains[f][k + 1] else 0
      ensures (k + 1) * bpc == k * bpc + bpc && (more ==> pos == (k + 1) * bpc && k + 1 < |chains[f]|)
    {
      assert (k + 1) * bpc == k * bpc + bpc;
      if more { NotPast(f, pos, k + 1, k + 1); }
    }

    /** A position inside the file is in a cluster of its chain. */
    lemma NotPast(f: nat, pos: nat, k: nat, index: nat)
      requires Valid() && f < |nodes| && k <= |chains[f]| && k <= index && index * bpc <= pos < nodes[f].size
      requires k == index || k == |chains[f]|
      ensures k == index < |chains[f]|
    {
      StartAt(f);
      MulMono(|chains[f]|, index, bpc);
    }

    static lemma SlicePart(b: seq<nat>, lo: nat, bpc: nat, inside: nat, n: nat, offset: nat, done: nat)
      requires inside + n <= bpc && lo + bpc <= |b| && offset + done == lo + inside
      ensures b[offset..offset + done] + b[lo..lo + bpc][inside..inside + n] == b[offset..offset + done + n]
    {
      var l, r := b[lo..lo + bpc][inside..inside + n], b[lo + inside..lo + inside + n];
      assert |l| == |r| == n;
      forall i | 0 <= i < n ensures l[i] == r[i] { assert l[i] == b[lo..lo + bpc][inside + i] == b[lo + inside + i]; }
      assert l == r;
      assert b[offset..offset + done + n] == b[offset..offset + done] + b[offset + done..offset + done + n];
    }

    lemma ContentsOf(f: nat, offset: nat, n: nat)
      requires Valid() && f < |nodes| && offset + n <= nodes[f].size && offset + n <= |Bytes(f)|
      ensures Contents(f)[offset..offset + n] == Bytes(f)[offset..offset + n]
    {
      StartAt(f);
    }

    // ----- writing ----------------------------------------------------------------------------------------

    /** Chains and bytes of all nodes but f are as in ch0 and d0. */
    ghost predicate OthersSame(f: nat, ch0: seq<seq<nat>>, d0: seq<seq<nat>>)
      reads this
    {
      && |chains| == |ch0| && |data| == |d0|
      && (forall g :: 0 <= g < |chains| && g != f ==> chains[g] == ch0[g])
      && (forall g, i :: 0 <= g < |chains| && g != f && 0 <= i < |chains[g]| && chains[g][i] < |data| ==> data[chains[g][i]] == d0[chains[g][i]])
    }

    /** Between two steps of a write: nothing but file f changed, and it grew by free clusters only. */
    ghost predicate Growing(f: nat, ch0: seq<seq<nat>>, d0: seq<seq<nat>>, fat0: seq<nat>)
      reads this
    {
      && Shape() && f < |nodes| && OthersSame(f, ch0, d0) && ch0[f] <= chains[f] && |fat| == |fat0|
      && FreeCount(fat, root, |fat|) + |chains[f]| == FreeCount(fat0, root, |fat0|) + |ch0[f]|
      && forall q :: 0 <= q < |fat| ==> fat[q] / M28 == fat0[q] / M28
    }

    /** One more cluster of zeros at the end of file f. */
    method AddCluster(f: nat, prev: nat, ghost ch0: seq<seq<nat>>, ghost d0: seq<seq<nat>>, ghost fat0: seq<nat>) returns (ok: bool, c: nat)
      requires Growing(f, ch0, d0, fat0) && |chains| == |nodes| && prev == (if chains[f] == [] then 0 else chains[f][|chains[f]| - 1])
      modifies this`fat, this`copies, this`data, this`chains
      ensures Growing(f, ch0, d0, fat0) && |chains| == |nodes|
      ensures ok ==> c >= 2 && chains[f] == old(chains[f]) + [c] && Bytes(f) == old(Bytes(f)) + Zeros(bpc)
      ensures !ok ==> chains == old(chains) && data == old(data) && FreeCount(fat, root, |fat|) == 0 && Bytes(f) == old(Bytes(f))
    {
      hide ChainsOk, Flat, DataOk;
      ghost var ch1, d1, cs := chains, data, chains[f];
      Bounds(f);
      ok, c := Extend(f, prev);
      if !ok { return; }
      NextAt(f, |cs|);
      assert chains[f] == cs + [c];
      AddedBytes(cs, c, d1, bpc);
      AddedOthers(f, ch1, d1, ch0, d0, c);
    }

    static lemma AddedBytes(cs: seq<nat>, c: nat, d: seq<seq<nat>>, bpc: nat)
      requires Inside(cs, |d|) && c < |d| && c !in cs
      ensures Inside(cs + [c], |d|) && Flat(cs + [c], d[c := Zeros(bpc)]) == Flat(cs, d) + Zeros(bpc)
    {
      FlatSame(cs, d, d[c := Zeros(bpc)]);
      assert (cs + [c])[..|cs|] == cs;
    }

    lemma AddedOthers(f: nat, ch1: seq<seq<nat>>, d1: seq<seq<nat>>, ch0: seq<seq<nat>>, d0: seq<seq<nat>>, c: nat)
      requires |ch1| == |ch0| && |d1| == |d0| && f < |ch1| && c < |d1| && Unused(ch1, c) && chains == Grown(ch1, f, c) && data == d1[c := Zeros(bpc)]
      requires forall g :: 0 <= g < |ch1| && g != f ==> ch1[g] == ch0[g]
      requires forall g, i :: 0 <= g < |ch1| && g != f && 0 <= i < |ch1[g]| && ch1[g][i] < |d1| ==> d1[ch1[g][i]] == d0[ch1[g][i]]
      ensures OthersSame(f, ch0, d0)
    {
      forall g, i | 0 <= g < |chains| && g != f && 0 <= i < |chains[g]| && chains[g][i] < |data| ensures data[chains[g][i]] == d0[chains[g][i]] {
        assert chains[g] == ch1[g] && ch1[g][i] in ch1[g];
      }
    }

    /** The cluster after the k-th, which is added if it is not there. */
    method Advance(f: nat, current: nat, ghost k: nat, ghost ch0: seq<seq<nat>>, ghost d0: seq<seq<nat>>,
      ghost fat0: seq<nat>) returns (ok: bool, next: nat)
      requires Growing(f, ch0, d0, fat0) && |chains| == |nodes| && k < |chains[f]| && current == chains[f][k]
      modifies this`fat, this`copies, this`data, this`chains
      ensures Growing(f, ch0, d0, fat0) && |chains| == |nodes| && old(chains[f]) <= chains[f]
      ensures ok ==> k + 1 < |chains[f]| && next == chains[f][k + 1]
      ensures ok ==> |Bytes(f)| >= |old(Bytes(f))| && Bytes(f) == old(Bytes(f)) + Zeros(|Bytes(f)| - |old(Bytes(f))|)
      ensures !ok ==>
        chains == old(chains) && data == old(data) && FreeCount(fat, root, |fat|) == 0 && k + 1 == |chains[f]| && Bytes(f) == old(Bytes(f))
    {
      hide Shape, OthersSame, Bytes, Next;
      NextAt(f, k);
      next := Next(fat, current);
      ok := true;
      if next == 0 {
        if k + 1 < |chains[f]| { NextAt(f, k + 1); }
        ok, next := AddCluster(f, current, ch0, d0, fat0);
      } else {
        assert Bytes(f) == Bytes(f) + Zeros(0);
      }
    }

    /** The bytes of file f: base, then zeros, with x over them from off on. */
    ghost predicate Holds(f: nat, base: seq<nat>, off: nat, x: seq<nat>)
      requires Shape() && f < |nodes|
      reads this
    {
      && |base| <= |Bytes(f)| && off + |x| <= |Bytes(f)|
      && Bytes(f) == Over(base + Zeros(|Bytes(f)| - |base|), off, x)
    }

    /** The walk of fat32_write to the cluster of the offset. */
    method WalkTo(f: nat, index: nat, ghost base: seq<nat>, ghost off: nat, ghost ch0: seq<seq<nat>>, ghost d0: seq<seq<nat>>, ghost fat0: seq<nat>)
      returns (ok: bool, current: nat)
      requires Growing(f, ch0, d0, fat0) && |chains| == |nodes| && chains[f] != [] && nodes[f].cluster == chains[f][0] && Holds(f, base, off, [])
      modifies this`fat, this`copies, this`data, this`chains
      ensures Growing(f, ch0, d0, fat0) && |chains| == |nodes| && old(chains[f]) <= chains[f] && Holds(f, base, off, [])
      ensures ok ==> index < |chains[f]| && current == chains[f][index]
      ensures !ok ==> FreeCount(fat, root, |fat|) == 0 && |chains[f]| <= index
    {
      hide Shape, OthersSame, Bytes, Next, Over;
      current := nodes[f].cluster;
      for i := 0 to index
        invariant Growing(f, ch0, d0, fat0) && |chains| == |nodes| && old(chains[f]) <= chains[f] && Holds(f, base, off, [])
        invariant i < |chains[f]| && current == chains[f][i]
      {
        ghost var b := Bytes(f);
        ok, current := Advance(f, current, i, ch0, d0, fat0);
        if !ok { StillHolds(f, b, base, off, []); return; }
        OverGrows(base, |b| - |base|, |Bytes(f)| - |b|, off, []);
      }
      ok := true;
    }

    lemma StillHolds(f: nat, b: seq<nat>, base: seq<nat>, off: nat, x: seq<nat>)
      requires Shape() && f < |nodes| && Bytes(f) == b && |base| <= |b| && off + |x| <= |b| && b == Over(base + Zeros(|b| - |base|), off, x)
      ensures Holds(f, base, off, x)
    {
    }

    /** Writes cluster k of file f. */
    method PutCluster(f: nat, c: nat, x: seq<nat>, ghost k: nat, ghost ch0: seq<seq<nat>>, ghost d0: seq<seq<nat>>, ghost fat0: seq<nat>)
      requires Growing(f, ch0, d0, fat0) && |chains| == |nodes| && k < |chains[f]| && c == chains[f][k] && |x| == bpc
      modifies this`data
      ensures Growing(f, ch0, d0, fat0) && |chains| == |nodes| && k * bpc + bpc <= |old(Bytes(f))|
      ensures Bytes(f) == old(Bytes(f))[..k * bpc] + x + old(Bytes(f))[k * bpc + bpc..]
    {
      hide ChainsOk, Flat;
      Bounds(f);
      OwnCluster(f, k);
      FlatPut(chains[f], data, bpc, k, x);
      data := data[c := x];
    }

    lemma OwnCluster(f: nat, k: nat)
      requires Shape() && f < |nodes| && k < |chains[f]|
      ensures forall i :: 0 <= i < |chains[f]| && i != k ==> chains[f][i] != chains[f][k]
      ensures forall g, i :: 0 <= g < |chains| && g != f && 0 <= i < |chains[g]| ==> chains[g][i] != chains[f][k]
    {
    }

    /** The copy loop of fat32_write. `done` bytes are in the file at the end: all of them, unless the volume is full. */
    method Fill(f: nat, offset: nat, buf: seq<nat>, start: nat, inOff: nat, ghost index: nat,
                ghost base: seq<nat>, ghost ch0: seq<seq<nat>>, ghost d0: seq<seq<nat>>, ghost fat0: seq<nat>) returns (ok: bool, ghost done: nat)
      requires Growing(f, ch0, d0, fat0) && |chains| == |nodes| && index < |chains[f]| && start == chains[f][index] && Holds(f, base, offset, [])
      requires inOff < bpc && index * bpc + inOff == offset && |buf| > 0
      modifies this`fat, this`copies, this`data, this`chains
      ensures Growing(f, ch0, d0, fat0) && |chains| == |nodes| && old(chains[f]) <= chains[f]
      ensures done <= |buf| && Holds(f, base, offset, buf[..done]) && (ok <==> done == |buf|)
      ensures !ok ==> FreeCount(fat, root, |fat|) == 0 && |chains[f]| * bpc == offset + done
    {
      hide Shape, OthersSame, Bytes, Next, Over, Holds;
      var current: nat, written: nat, inside: nat := start, 0, inOff;
      ghost var k: nat := index;
      assert buf[..0] == [];
      while written < |buf|
        invariant Growing(f, ch0, d0, fat0) && |chains| == |nodes| && old(chains[f]) <= chains[f]
        invariant 0 <= written <= |buf| && Holds(f, base, offset, buf[..written])
        invariant k < |chains[f]| && current == chains[f][k]
        invariant written < |buf| ==> inside < bpc && k * bpc + inside == offset + written
      {
        NextAt(f, k);
        var n := Min(bpc - inside, |buf| - written);
        ClusterBytes(f, k);
        var x := Over(data[current], inside, buf[written..written + n]);
        WroteOne(f, base, offset, buf, written, n, k, inside);
        PutCluster(f, current, x, k, ch0, d0, fat0);
        WroteHolds(f, base, offset, buf[..written + n]);
        written := written + n;
        if written >= |buf| { break; }
        ghost var b := Bytes(f);
        ok, current := Advance(f, current, k, ch0, d0, fat0);
        assert (k + 1) * bpc == k * bpc + bpc;
        if !ok { StillHolds(f, b, base, offset, buf[..written]); return false, written; }
        GrowHolds(f, b, base, offset, buf[..written]);
        k, inside := k + 1, 0;
      }
      assert buf[..|buf|] == buf;
      return true, |buf|;
    }

    /** The bytes that replacing cluster k will give. */
    lemma WroteOne(f: nat, base: seq<nat>, offset: nat, buf: seq<nat>, written: nat, n: nat, k: nat, inside: nat)
      requires Shape() && f < |nodes| && written + n <= |buf| && Holds(f, base, offset, buf[..written])
      requires k * bpc + bpc <= |Bytes(f)| && inside + n <= bpc && k * bpc + inside == offset + written
      ensures |base| <= |Bytes(f)| && offset + written + n <= |Bytes(f)|
      ensures var b := Bytes(f);
        b[..k * bpc] + Over(b[k * bpc..k * bpc + bpc], inside, buf[written..written + n]) + b[k * bpc + bpc..]
          == Over(base + Zeros(|b| - |base|), offset, buf[..written + n])
    {
      hide Bytes, Shape, Over;
      WroteAt(Bytes(f), base, offset, buf, written, n, k * bpc, bpc, inside);
    }

    static lemma WroteAt(b: seq<nat>, base: seq<nat>, offset: nat, buf: seq<nat>, written: nat, n: nat, lo: nat, bpc: nat, inside: nat)
      requires written + n <= |buf| && |base| <= |b| && offset + written <= |b| && b == Over(base + Zeros(|b| - |base|), offset, buf[..written])
      requires lo + bpc <= |b| && inside + n <= bpc && lo + inside == offset + written
      ensures offset + written + n <= |b|
      ensures b[..lo] + Over(b[lo..lo + bpc], inside, buf[written..written + n]) + b[lo + bpc..]
        == Over(base + Zeros(|b| - |base|), offset, buf[..written + n])
    {
      hide Over;
      OverStep(base + Zeros(|b| - |base|), offset, buf[..written], lo, bpc, inside, buf[written..written + n]);
      assert buf[..written] + buf[written..written + n] == buf[..written + n];
    }

    lemma WroteHolds(f: nat, base: seq<nat>, offset: nat, x: seq<nat>)
      requires Shape() && f < |nodes| && |base| <= |Bytes(f)| && offset + |x| <= |Bytes(f)|
      requires Bytes(f) == Over(base + Zeros(|Bytes(f)| - |base|), offset, x)
      ensures Holds(f, base, offset, x)
    {
    }

    lemma GrowHolds(f: nat, b: seq<nat>, base: seq<nat>, off: nat, x: seq<nat>)
      requires Shape() && f < |nodes| && |base| <= |b| && off + |x| <= |b| && b == Over(base + Zeros(|b| - |base|), off, x)
      requires |Bytes(f)| >= |b| && Bytes(f) == b + Zeros(|Bytes(f)| - |b|)
      ensures Holds(f, base, off, x)
    {
      OverGrows(base, |b| - |base|, |Bytes(f)| - |b|, off, x);
    }

    /** The middle of fat32_write: first cluster, walk, copy. */
    method StoreBytes(f: nat, offset: nat, buf: seq<nat>) returns (ok: bool, ghost done: nat)
      requires Valid() && f < |nodes| && buf != [] && offset <= nodes[f].size
      modifies this`fat, this`copies, this`data, this`chains, this`nodes
      ensures Growing(f, old(chains), old(data), old(fat)) && |chains| == |nodes| == |old(nodes)|
      ensures done <= |buf| && Holds(f, old(Bytes(f)), offset, buf[..done]) && (ok <==> done == |buf|)
      ensures nodes == old(nodes)[f := nodes[f]] &&
        nodes[f] == old(nodes)[f].(cluster := if chains[f] == [] then old(nodes)[f].cluster else chains[f][0])
      ensures !ok ==> FreeCount(fat, root, |fat|) == 0 && |chains[f]| * bpc < offset + |buf|
    {
      hide Shape, StartOk, Bytes, Over, Holds, Next, OthersSame, FreeCount;
      ghost var ch0, d0, fat0, base := chains, data, fat, Bytes(f);
      StartWrite(f, offset);
      assert buf[..0] == [];
      StartAt(f);
      if nodes[f].cluster < 2 {
        ok := FirstCluster(f, base, offset, ch0, d0, fat0);
        if !ok { return false, 0; }
      }
      var index, current := offset / bpc, 0;
      DivMod(offset, bpc);
      ok, current := WalkTo(f, index, base, offset, ch0, d0, fat0);
      if !ok {
        MulMono(|chains[f]|, index, bpc);
        return false, 0;
      }
      ok, done := Fill(f, offset, buf, current, offset % bpc, index, base, ch0, d0, fat0);
    }

    /** The first cluster of an empty file. */
    method FirstCluster(f: nat, ghost base: seq<nat>, ghost offset: nat,
                        ghost ch0: seq<seq<nat>>, ghost d0: seq<seq<nat>>, ghost fat0: seq<nat>) returns (ok: bool)
      requires Growing(f, ch0, d0, fat0) && |chains| == |nodes| && chains[f] == [] && Bytes(f) == base && offset <= |base|
      modifies this`fat, this`copies, this`data, this`chains, this`nodes
      ensures Growing(f, ch0, d0, fat0) && |chains| == |nodes| == |old(nodes)| && Holds(f, base, offset, [])
      ensures nodes == if ok then old(nodes)[f := old(nodes)[f].(cluster := nodes[f].cluster)] else old(nodes)
      ensures if ok then chains[f] == [nodes[f].cluster] else chains[f] == [] && FreeCount(fat, root, |fat|) == 0
    {
      hide Shape, Bytes, Holds, OthersSame, FreeCount;
      var c;
      ok, c := AddCluster(f, 0, ch0, d0, fat0);
      if !ok { KeptBytes(f, base, offset); return; }
      SetNode(f, c, nodes[f].size, ch0, d0, fat0);
      FirstBytes(f, base, offset);
    }

    /** Changing first cluster and size in a node disturbs nothing else. */
    method SetNode(f: nat, cluster: nat, size: nat, ghost ch0: seq<seq<nat>>, ghost d0: seq<seq<nat>>, ghost fat0: seq<nat>)
      requires Growing(f, ch0, d0, fat0)
      modifies this`nodes
      ensures Growing(f, ch0, d0, fat0) && Bytes(f) == old(Bytes(f)) && |nodes| == |old(nodes)|
      ensures nodes == old(nodes)[f := old(nodes)[f].(cluster := cluster, size := size)]
    {
      nodes := nodes[f := nodes[f].(cluster := cluster, size := size)];
    }

    /** fat32_sync_node_metadata: the directory entry gets the node's first cluster and size. */
    method Sync(f: nat, ghost ch0: seq<seq<nat>>, ghost d0: seq<seq<nat>>, ghost fat0: seq<nat>)
      requires Growing(f, ch0, d0, fat0) && |entries| == |nodes|
      modifies this`entries
      ensures Growing(f, ch0, d0, fat0) && Bytes(f) == old(Bytes(f)) && entries == old(entries)[f := nodes[f]]
    {
      entries := entries[f := nodes[f]];
    }

    lemma StartWrite(f: nat, offset: nat)
      requires Valid() && f < |nodes| && offset <= nodes[f].size
      ensures Growing(f, chains, data, fat) && |chains| == |nodes| && bpc > 0 && Holds(f, Bytes(f), offset, [])
      ensures nodes[f].cluster < 2 <==> chains[f] == []
    {
      StartAt(f);
      KeptBytes(f, Bytes(f), offset);
    }

    lemma KeptBytes(f: nat, base: seq<nat>, offset: nat)
      requires Shape() && f < |nodes| && Bytes(f) == base && offset <= |base|
      ensures Holds(f, base, offset, [])
    {
      assert base + Zeros(0) == base;
      OverNothing(base, offset);
    }

    /** A first cluster of zeros. */
    lemma FirstBytes(f: nat, base: seq<nat>, offset: nat)
      requires Shape() && f < |nodes| && Bytes(f) == base + Zeros(bpc) && offset <= |base|
      ensures Holds(f, base, offset, [])
    {
      OverNothing(base + Zeros(bpc), offset);
    }

    /** What a write leaves in the file. */
    static lemma WrittenOver(base: seq<nat>, n: nat, size: nat, offset: nat, x: seq<nat>)
      requires offset <= size <= |base| && offset + |x| <= |base| + n
      ensures var r := Over(base + Zeros(n), offset, x);
        && Max(size, offset + |x|) <= |r| && r[..Max(size, offset + |x|)] == Written(base[..size], offset, x)
        && r[..size] == Written(base[..size], offset, x)[..size]
    {
      var all := base + Zeros(n);
      var r, w, end := Over(all, offset, x), Written(base[..size], offset, x), Max(size, offset + |x|);
      assert all[..offset] == base[..size][..offset];
      if offset + |x| <= size {
        assert r[..end] == all[..offset] + x + all[offset + |x|..size];
        assert all[offset + |x|..size] == base[..size][offset + |x|..];
      } else {
        assert r[..end] == all[..offset] + x;
        assert base[..size][size..] == [];
      }
      assert r[..size] == r[..end][..size];
    }

    lemma Lengths(f: nat)
      requires Valid() && f < |nodes|
      ensures |chains| == |nodes| == |entries| && Growing(f, chains, data, fat)
    {
    }

    /** A write has room exactly if the chain and the free clusters reach its end. */
    lemma RoomExact(f: nat, ch0: seq<seq<nat>>, d0: seq<seq<nat>>, fat0: seq<nat>, ok: bool, offset: nat, n: nat, base: seq<nat>, x: seq<nat>)
      requires Growing(f, ch0, d0, fat0) && Holds(f, base, offset, x) && |x| <= n && (ok <==> |x| == n)
      requires !ok ==> FreeCount(fat, root, |fat|) == 0 && |chains[f]| * bpc < offset + n
      ensures ok <==> offset + n <= (|ch0[f]| + FreeCount(fat0, root, |fat0|)) * bpc
      ensures |base| <= |Bytes(f)| == |chains[f]| * bpc && offset + |x| <= |Bytes(f)|
      ensures Bytes(f) == Over(base + Zeros(|Bytes(f)| - |base|), offset, x)
    {
      Bounds(f);
      FlatLength(chains[f], data, bpc);
      MulMono(|chains[f]|, |ch0[f]| + FreeCount(fat0, root, |fat0|), bpc);
    }

    /** A written file starts where its node says. */
    lemma StartNow(f: nat, cluster: nat, size: nat)
      requires Shape() && f < |nodes| && size <= |chains[f]| * bpc
      requires if chains[f] == [] then cluster < 2 else cluster == chains[f][0]
      ensures StartOk(Node(nodes[f].dir, cluster, size), chains[f], bpc)
    {
      if chains[f] != [] { NextAt(f, 0); }
    }

    /** If only file f grew and its node fits, the volume is valid and all other contents are the same. */
    twostate lemma GoodAgain(f: nat)
      requires old(Valid()) && f < |old(nodes)| && |chains| == |nodes| == |old(nodes)| == |entries|
      requires Growing(f, old(chains), old(data), old(fat))
      requires nodes == old(nodes)[f := nodes[f]] && entries == old(entries)[f := entries[f]] && StartOk(nodes[f], chains[f], bpc)
      requires entries[f].cluster == nodes[f].cluster || entries[f].cluster < 2
      ensures Valid()
      ensures forall g :: 0 <= g < |nodes| && g != f ==> Contents(g) == old(Contents(g))
    {
      hide StartOk, Flat;
      forall g | 0 <= g < |nodes| ensures StartOk(nodes[g], chains[g], bpc) && (entries[g].cluster == nodes[g].cluster || entries[g].cluster < 2) {
        assert old(StartOk(nodes[g], chains[g], bpc));
      }
      forall g | 0 <= g < |nodes| && g != f ensures Contents(g) == old(Contents(g)) {
        Bounds(g);
        forall i | 0 <= i < |chains[g]| ensures data[chains[g][i]] == old(data)[chains[g][i]] { }
        FlatSame(chains[g], old(data), data);
      }
    }

    lemma ContentsNow(f: nat)
      requires Valid() && f < |nodes|
      ensures nodes[f].size <= |Bytes(f)| && Contents(f) == Bytes(f)[..nodes[f].size]
    {
      StartAt(f);
    }

    /**
     fat32_write. It succeeds exactly when the chain and the free clusters have room for the end
     of the write; the contents are then the old ones with the bytes in place. If the volume is
     full, the part that fitted is there but the size is the old one. No other file changes.
     */
    method Write(f: nat, offset: nat, buf: seq<nat>) returns (rc: int, ghost done: nat)
      requires Valid() && f < |nodes|
      modifies this`fat, this`copies, this`data, this`chains, this`nodes, this`entries
      ensures Valid() && |nodes| == |old(nodes)| && Growing(f, old(chains), old(data), old(fat))
      ensures forall g :: 0 <= g < |nodes| && g != f ==> nodes[g] == old(nodes)[g] && entries[g] == old(entries)[g] && Contents(g) == old(Contents(g))
      ensures nodes[f].dir || (buf != [] && (offset > old(nodes)[f].size || offset + |buf| >= 0x1_0000_0000)) ==>
        rc == -1 && nodes == old(nodes) && data == old(data)
      ensures !nodes[f].dir && buf == [] ==> rc == 0 && nodes == old(nodes) && data == old(data)
      ensures !nodes[f].dir && buf != [] && offset <= old(nodes)[f].size && offset + |buf| < 0x1_0000_0000 ==>
        if offset + |buf| <= (|old(chains)[f]| + old(FreeCount(fat, root, |fat|))) * bpc then
          rc == |buf| && Contents(f) == Written(old(Contents(f)), offset, buf) && entries[f] == nodes[f]
        else
          && rc == -1 && done < |buf| && nodes[f].size == old(nodes)[f].size && entries == old(entries)
          && FreeCount(fat, root, |fat|) == 0 && |chains[f]| == |old(chains)[f]| + old(FreeCount(fat, root, |fat|))
          && nodes[f].cluster == (if chains[f] == [] then old(nodes)[f].cluster else chains[f][0])
          && (nodes[f].cluster != old(nodes)[f].cluster <==> old(chains)[f] == [] && old(FreeCount(fat, root, |fat|)) > 0)
          && Contents(f) == Written(old(Contents(f)), offset, buf[..done])[..nodes[f].size]
    {
      hide Shape, StartOk, Bytes, Over, Holds, Written, OthersSame, FreeCount, Contents;
      done := 0;
      Lengths(f);
      if nodes[f].dir { return -1, 0; }
      if |buf| == 0 { return 0, 0; }
      if offset > nodes[f].size { return -1, 0; }
      if offset + |buf| >= U32 { return -1, 0; }
      ghost var ch0, d0, fat0, n0, base := chains, data, fat, nodes, Bytes(f);
      StartAt(f);
      ContentsNow(f);
      ghost var c0 := Contents(f);
      var ok;
      ok, done := StoreBytes(f, offset, buf);
      RoomExact(f, ch0, d0, fat0, ok, offset, |buf|, base, buf[..done]);
      WrittenOver(base, |Bytes(f)| - |base|, n0[f].size, offset, buf[..done]);
      assert buf[..|buf|] == buf;
      ghost var b := Bytes(f);
      if ok {
        SetNode(f, nodes[f].cluster, Max(nodes[f].size, offset + |buf|), ch0, d0, fat0);
        Sync(f, ch0, d0, fat0);
      }
      StartNow(f, nodes[f].cluster, nodes[f].size);
      GoodAgain(f);
      ContentsNow(f);
      assert Bytes(f) == b;
      return if ok then |buf| else -1, done;
    }

    /** A write that succeeds, and a read of the same place. */
    method WriteRead(f: nat, offset: nat, buf: seq<nat>) returns (rc: int, got: int, bytes: seq<nat>)
      requires Valid() && f < |nodes| && buf != []
      modifies this`fat, this`copies, this`data, this`chains, this`nodes, this`entries
      ensures Valid() && (rc == |buf| ==> got == |buf| && bytes == buf)
    {
      hide Shape, StartOk, FreeCount, Contents, Growing;
      ghost var done;
      rc, done := Write(f, offset, buf);
      got, bytes := Read(f, offset, |buf|);
      if rc == |buf| { assert Contents(f)[offset..offset + |buf|] == buf; }
    }

    // ----- truncating and unlinking ------------------------------------------------------------------------

    /** The chain of a file is clear of the root directory. */
    lemma ClearOfRoot(f: nat)
      requires Shape() && f < |nodes| && !nodes[f].dir
      ensures root !in chains[f] && ChainsOk(fat, chains[f := []]) && Loose(fat, chains[f := []], chains[f])
    {
      DropChain(fat, chains, f);
      Bounds(f);
      forall i | 0 <= i < |chains[f]| ensures chains[f][i] != root { assert chains[0][0] == root; }
    }

    /** The file's clusters go back to the volume and nothing else changes. */
    twostate lemma DroppedValid(f: nat)
      requires old(Valid()) && f < |old(nodes)| && !old(nodes)[f].dir && |fat| == |old(fat)|
      requires nodes == old(nodes)[f := Node(false, 0, 0)] && entries == old(entries)[f := Node(false, 0, 0)] && chains == old(chains)[f := []]
      requires data == old(data) && ChainsOk(fat, chains) && forall k :: 0 <= k < |copies| ==> copies[k] == fat
      ensures Valid() && Contents(f) == []
      ensures forall g :: 0 <= g < |nodes| && g != f ==> Contents(g) == old(Contents(g))
    {
      forall g | 0 <= g < |nodes| ensures StartOk(nodes[g], chains[g], bpc) && (entries[g].cluster == nodes[g].cluster || entries[g].cluster < 2) {
        assert old(StartOk(nodes[g], chains[g], bpc));
      }
    }

    /** Everything but f as before, and exactly n clusters of its chain are free now. */
    twostate predicate GaveBack(f: nat, n: nat)
      requires old(Valid()) && Valid() && f < |old(nodes)|
      reads this
    {
      && nodes == old(nodes)[f := Node(false, 0, 0)] && entries == old(entries)[f := Node(false, 0, 0)]
      && Freed(old(fat), fat, old(chains)[f], n) && FreeCount(fat, root, |fat|) == old(FreeCount(fat, root, |fat|)) + n
      && forall g :: 0 <= g < |nodes| && g != f ==> chains[g] == old(chains)[g] && Contents(g) == old(Contents(g))
    }

    /** fat32_open with the truncate flag: the entry first, then the chain. A directory is left alone. */
    method Truncate(f: nat) returns (rc: int)
      requires Valid() && f < |nodes|
      modifies this`fat, this`copies, this`chains, this`nodes, this`entries
      ensures Valid() && rc == 0 && |nodes| == |old(nodes)|
      ensures nodes[f].dir ==> nodes == old(nodes) && entries == old(entries) && fat == old(fat) && chains == old(chains)
      ensures !nodes[f].dir ==> Contents(f) == [] && GaveBack(f, if |old(chains)[f]| <= 100000 then |old(chains)[f]| else 100000)
      ensures !nodes[f].dir && |old(chains)[f]| <= 100000 ==> forall i :: 0 <= i < |old(chains)[f]| ==> IsFree(fat, root, old(chains)[f][i])
    {
      hide ChainsOk, StartOk, FreeCount, Loose, Freed, Contents, IsFree;
      if nodes[f].dir { return 0; }
      StartAt(f);
      ClearOfRoot(f);
      ghost var cs := chains[f];
      var first := nodes[f].cluster;
      nodes := nodes[f := Node(false, 0, 0)];
      entries := entries[f := nodes[f]];
      chains := chains[f := []];
      var ok := Release(first, cs);
      SameSize(old(fat), fat, cs);
      if |cs| <= 100000 { AllFreed(old(fat), fat, chains, cs, root); }
      DroppedValid(f);
      return if ok then 0 else -1;
    }

    static lemma AllFreed(fat0: seq<nat>, fat: seq<nat>, chains: seq<seq<nat>>, cs: seq<nat>, root: nat)
      requires Freed(fat0, fat, cs, |cs|) && Loose(fat0, chains, cs) && root !in cs
      ensures forall i :: 0 <= i < |cs| ==> IsFree(fat, root, cs[i])
    {
      assert cs[..|cs|] == cs;
      forall i | 0 <= i < |cs| ensures IsFree(fat, root, cs[i]) {
        assert Leads(fat0, cs, i) && cs[i] in cs;
        EntryBits(fat0[cs[i]], 0);
      }
    }

    static lemma SameSize(fat0: seq<nat>, fat: seq<nat>, cs: seq<nat>)
      requires Freed(fat0, fat, cs, Min(|cs|, CHAIN_MAX))
      ensures |fat| == |fat0|
    {
    }

    /**
     fat32_unlink of a file: a tombstone in the directory, then the chain the entry named. After
     a write that failed half way the entry may name none, and then nothing is freed.
     */
    method Unlink(f: nat) returns (rc: int)
      requires Valid() && f < |nodes|
      modifies this`fat, this`copies, this`chains, this`nodes, this`entries
      ensures Valid() && rc == (if old(nodes)[f].dir then -1 else 0)
      ensures rc == -1 ==> nodes == old(nodes) && entries == old(entries) && fat == old(fat) && chains == old(chains)
      ensures rc == 0 ==>
        GaveBack(f, if old(entries)[f].cluster < 2 then 0 else if |old(chains)[f]| <= 100000 then |old(chains)[f]| else 100000)
      ensures rc == 0 && old(entries)[f].cluster >= 2 && |old(chains)[f]| <= 100000 ==>
        forall i :: 0 <= i < |old(chains)[f]| ==> IsFree(fat, root, old(chains)[f][i])
    {
      hide ChainsOk, StartOk, FreeCount, Loose, Contents, IsFree;
      if nodes[f].dir { return -1; }
      StartAt(f);
      ClearOfRoot(f);
      ghost var cs := chains[f];
      var first := entries[f].cluster;
      entries := entries[f := Node(false, 0, 0)];
      nodes := nodes[f := Node(false, 0, 0)];
      chains := chains[f := []];
      var ok := true;
      if first >= 2 {
        ok := Release(first, cs);
        if |cs| <= 100000 { AllFreed(old(fat), fat, chains, cs, root); }
      }
      DroppedValid(f);
      return if ok then 0 else -1;
    }

    // ----- creating --------------------------------------------------------------------------------------

    /** The last cluster of a directory, found by following its chain. */
    method LastCluster(p: nat) returns (prev: nat)
      requires Valid() && p < |nodes|
      ensures prev == if chains[p] == [] then 0 else chains[p][|chains[p]| - 1]
    {
      hide ChainsOk, DataOk, Next, StartOk, Bytes;
      StartAt(p);
      prev := 0;
      var current := nodes[p].cluster;
      ghost var k := 0;
      if current < 2 { return; }
      while current >= 2
        invariant 0 <= k <= |chains[p]| && current == At(chains[p], k) && (k > 0 ==> prev == chains[p][k - 1])
        invariant k < |chains[p]| ==> current >= 2
        decreases |chains[p]| - k
      {
        NextAt(p, k);
        if k + 1 < |chains[p]| { NextAt(p, k + 1); }
        prev := current;
        current := Next(fat, current);
        k := k + 1;
      }
    }

    /** A new directory entry and the node for it: an empty file. */
    method AddEntry()
      requires Valid()
      modifies this`nodes, this`entries, this`chains
      ensures Valid() && nodes == old(nodes) + [Node(false, 0, 0)] && entries == old(entries) + [Node(false, 0, 0)] && chains == old(chains) + [[]]
      ensures Contents(|old(nodes)|) == [] && forall g :: 0 <= g < |old(nodes)| ==> Contents(g) == old(Contents(g))
    {
      nodes, entries, chains := nodes + [Node(false, 0, 0)], entries + [Node(false, 0, 0)], chains + [[]];
      AddedNode();
    }

    twostate lemma AddedNode()
      requires old(Valid()) && fat == old(fat) && copies == old(copies) && data == old(data)
      requires nodes == old(nodes) + [Node(false, 0, 0)] && entries == old(entries) + [Node(false, 0, 0)] && chains == old(chains) + [[]]
      ensures Valid() && Contents(|old(nodes)|) == [] && forall g :: 0 <= g < |old(nodes)| ==> Contents(g) == old(Contents(g))
    {
      hide Leads;
      forall g | 0 <= g < |nodes| ensures StartOk(nodes[g], chains[g], bpc) && (entries[g].cluster == nodes[g].cluster || entries[g].cluster < 2) {
        if g < |old(nodes)| { assert old(StartOk(nodes[g], chains[g], bpc)); }
      }
      forall g | 0 <= g < |chains| ensures ChainOk(fat, chains[g]) {
        if g < |old(chains)| { assert ChainOk(fat, old(chains)[g]); }
      }
      assert Separate(chains);
    }

    /**
     fat32_create of a regular file in directory p. `nameOk` is whether the name is a short name
     that the directory does not have, `slot` whether the directory has an entry free. Without one
     the directory gets one more cluster of zeros; only a full volume refuses that. A new file is
     empty, owns no cluster, and no other file changes.
     */
    method Create(p: nat, regular: bool, nameOk: bool, slot: bool) returns (rc: int)
      requires Valid() && p < |nodes|
      modifies this`fat, this`copies, this`data, this`chains, this`nodes, this`entries
      ensures Valid()
      ensures rc == if old(nodes)[p].dir && regular && old(nodes)[p].cluster >= 2 && nameOk && (slot || old(FreeCount(fat, root, |fat|)) > 0)
                    then 0 else -1
      ensures rc == -1 ==> nodes == old(nodes) && entries == old(entries) && chains == old(chains) && fat == old(fat) && data == old(data)
      ensures rc == 0 ==>
        && nodes == old(nodes) + [Node(false, 0, 0)] && entries == old(entries) + [Node(false, 0, 0)] && Contents(|old(nodes)|) == []
        && (forall g :: 0 <= g < |old(nodes)| && g != p ==> Contents(g) == old(Contents(g)))
        && |chains| == |old(chains)| + 1 && chains[|old(chains)|] == []
        && (forall g :: 0 <= g < |old(chains)| && g != p ==> chains[g] == old(chains)[g])
        && (if slot then chains[p] == old(chains)[p] && fat == old(fat) && data == old(data)
            else
              && |chains[p]| == |old(chains)[p]| + 1 && old(chains)[p] <= chains[p]
              && FreeCount(fat, root, |fat|) == old(FreeCount(fat, root, |fat|)) - 1)
    {
      hide StartOk, FreeCount, Contents, ChainsOk, DataOk;
      if !nodes[p].dir || !regular { return -1; }
      if nodes[p].cluster < 2 { return -1; }
      if !nameOk { return -1; }
      if !slot {
        var ok := GrowDir(p);
        if !ok { return -1; }
      }
      AddEntry();
      return 0;
    }

    /** One more cluster for a directory. */
    method GrowDir(p: nat) returns (ok: bool)
      requires Valid() && p < |nodes| && nodes[p].cluster >= 2
      modifies this`fat, this`copies, this`data, this`chains
      ensures Valid() && |nodes| == |old(nodes)| && |chains| == |old(chains)|
      ensures ok <==> old(FreeCount(fat, root, |fat|)) > 0
      ensures !ok ==> chains == old(chains) && fat == old(fat) && data == old(data)
      ensures ok ==> |chains[p]| == |old(chains)[p]| + 1 && old(chains)[p] <= chains[p]
      ensures ok ==> var c := chains[p][|old(chains)[p]|]; c < |data| && |data[c]| == bpc && forall i :: 0 <= i < bpc ==> data[c][i] == 0
      ensures ok ==> FreeCount(fat, root, |fat|) == old(FreeCount(fat, root, |fat|)) - 1
      ensures forall g :: 0 <= g < |nodes| && g != p ==> chains[g] == old(chains)[g] && Contents(g) == old(Contents(g))
    {
      hide StartOk, FreeCount, Contents, ChainsOk, Bytes;
      StartAt(p);
      var prev := LastCluster(p);
      ghost var ch0, d0, fat0 := chains, data, fat;
      ghost var c;
      ok, c := Extend(p, prev);
      if !ok {
        GoodAgain(p);
        return;
      }
      AddedOthers(p, ch0, d0, ch0, d0, c);
      assert chains[p] == ch0[p] + [c];
      MoreRoom(nodes[p].size, |ch0[p]|, bpc);
      StartNow(p, nodes[p].cluster, nodes[p].size);
      GoodAgain(p);
    }

    static lemma MoreRoom(size: nat, n: nat, bpc: nat)
      ensures size <= n * bpc ==> size <= (n + 1) * bpc
    {
      MulMono(n, n + 1, bpc);
    }

    // ----- a first volume ------------------------------------------------------------------------------------

    /** An empty volume, as fat32_format leaves it: the root directory in cluster 2 and nothing else. */
    constructor (bpc: nat, eps: nat, spf: nat, numFats: nat)
      requires 3 <= spf * eps <= BAD && bpc > 0 && eps > 0
      ensures Valid() && root == 2 && this.bpc == bpc && |fat| == spf * eps && nodes == [Node(true, 2, 0)] && chains == [[2]]
      ensures entries == nodes && |copies| == numFats && FreeCount(fat, root, |fat|) == |fat| - 3
    {
      var n := spf * eps;
      root, this.bpc, this.eps, this.spf := 2, bpc, eps, spf;
      fat := seq(n, i => if i <= 2 then END else 0);
      copies := seq(numFats, k => seq(n, i => if i <= 2 then END else 0));
      data := seq(n, i => Zeros(bpc));
      nodes := [Node(true, 2, 0)];
      entries := [Node(true, 2, 0)];
      chains := [[2]];
      new;
      assert Leads(fat, [2], 0);
      assert ChainsOk(fat, chains);
      FreshCount(fat, |fat|);
    }

    static lemma {:induction false} FreshCount(fat: seq<nat>, n: nat)
      requires 3 <= n <= |fat| && forall i :: 0 <= i < |fat| ==> fat[i] == if i <= 2 then END else 0
      ensures FreeCount(fat, 2, n) == n - 3
      decreases n
    {
      EndIsEnd();
      if n > 3 {
        FreshCount(fat, n - 1);
      } else {
        assert FreeCount(fat, 2, 2) == 0;
      }
    }
  }

  /**
   A write to a new file that the volume has no room for takes the last free cluster and fails
   without telling the directory entry. Unlinking the file then frees nothing: no file has the
   cluster any more, and none is free.
   */
  method LostCluster() returns (v: Volume, rc: int)
    ensures v.Valid() && rc == 0 && v.chains == [[2], []] && FreeCount(v.fat, v.root, |v.fat|) == 0 && |v.fat| == 4
  {
    v := new Volume(1, 4, 1, 1);
    assert FreeCount(v.fat, v.root, |v.fat|) == 1;
    rc := v.Create(0, true, true, true);
    assert v.chains == [[2], []] && v.entries[1] == Node(false, 0, 0);
    ghost var done;
    rc, done := v.Write(1, 0, [7, 8]);
    assert rc == -1 && v.entries[1].cluster == 0 && |v.chains[1]| == 1;
    assert v.chains[0] == [2];
    rc := v.Unlink(1);
    assert v.chains[0] == [2] && v.chains[1] == [];
  }
}
