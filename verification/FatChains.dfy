/**
 The cluster chains of a FAT32 volume (kernel/fat32.c; the FAT Data Structure section of the
 Microsoft FAT32 File System Specification): a chain per file or directory, no cluster in two
 places, and the bytes a chain holds.
 */
module FatChains {
  const M28: nat := 0x1000_0000
  const BAD: nat := 0x0FFF_FFF7
  const END: nat := 0x0FFF_FFFF

  /** The 28 bits of an entry that count, and the update that keeps the other four. */
  function Low(v: nat): nat { v % M28 }
  function Keep4(raw: nat, value: nat): nat { raw - Low(raw) + Low(value) }

  lemma Keep4Parts(raw: nat, value: nat)
    ensures Low(Keep4(raw, value)) == Low(value) && Keep4(raw, value) / M28 == raw / M28
  {
  }

  /** An entry has 28 bits; setting it changes those and keeps the four above them. */
  lemma EntryBits(raw: nat, value: nat)
    ensures Low(raw) == raw % 0x1000_0000
    ensures Keep4(raw, value) % 0x1000_0000 == value % 0x1000_0000 && Keep4(raw, value) / 0x1000_0000 == raw / 0x1000_0000
  {
    Keep4Parts(raw, value);
  }

  /** fat32_get_next_cluster. */
  function Next(fat: seq<nat>, c: nat): nat {
    if c < 2 || c >= |fat| then 0 else if Low(fat[c]) >= BAD then 0 else Low(fat[c])
  }

  /** Entry i of the chain leads to the next one, or ends the chain. */
  predicate Leads(fat: seq<nat>, cs: seq<nat>, i: nat)
    requires i < |cs|
  {
    && 2 <= cs[i] < |fat|
    && (if i + 1 < |cs| then fat[cs[i]] % 0x1000_0000 == cs[i + 1] else fat[cs[i]] % 0x1000_0000 >= 0x0FFF_FFF7)
  }

  ghost predicate ChainOk(fat: seq<nat>, cs: seq<nat>) { forall i :: 0 <= i < |cs| ==> Leads(fat, cs, i) }

  /** No cluster is in two places: chains are acyclic and disjoint. */
  ghost predicate Separate(chains: seq<seq<nat>>) {
    forall f, i, g, j | 0 <= f < |chains| && 0 <= i < |chains[f]| && 0 <= g < |chains| && 0 <= j < |chains[g]| ::
      chains[f][i] == chains[g][j] ==> f == g && i == j
  }

  ghost predicate ChainsOk(fat: seq<nat>, chains: seq<seq<nat>>) {
    |fat| <= 0x0FFF_FFF7 && (forall f :: 0 <= f < |chains| ==> ChainOk(fat, chains[f])) && Separate(chains)
  }

  ghost predicate Unused(chains: seq<seq<nat>>, c: nat) { forall f :: 0 <= f < |chains| ==> c !in chains[f] }

  // ----- changes to the table ----------------------------------------------------------------------

  /** Clusters on a chain are not free. */
  lemma FreeUnused(fat: seq<nat>, chains: seq<seq<nat>>, c: nat)
    requires ChainsOk(fat, chains) && c < |fat| && Low(fat[c]) == 0
    ensures Unused(chains, c)
  {
    forall f | 0 <= f < |chains| ensures c !in chains[f] {
      assert ChainOk(fat, chains[f]);
      forall i | 0 <= i < |chains[f]| ensures chains[f][i] != c {
        assert Leads(fat, chains[f], i);
        if i + 1 < |chains[f]| { assert Leads(fat, chains[f], i + 1); }
      }
    }
  }

  lemma ChainSame(fat: seq<nat>, fat': seq<nat>, cs: seq<nat>)
    requires ChainOk(fat, cs) && |fat'| == |fat| && forall i :: 0 <= i < |cs| && cs[i] < |fat| ==> fat'[cs[i]] == fat[cs[i]]
    ensures ChainOk(fat', cs)
  {
    forall i | 0 <= i < |cs| ensures Leads(fat', cs, i) { assert Leads(fat, cs, i); }
  }

  /** An entry that is on no chain can be set to anything. */
  lemma SetUnused(fat: seq<nat>, chains: seq<seq<nat>>, c: nat, v: nat)
    requires ChainsOk(fat, chains) && c < |fat| && Unused(chains, c)
    ensures ChainsOk(fat[c := v], chains)
  {
    forall f | 0 <= f < |chains| ensures ChainOk(fat[c := v], chains[f]) { ChainSame(fat, fat[c := v], chains[f]); }
  }

  /** Chain f grows by c, which is marked as an end already. */
  function Grown(chains: seq<seq<nat>>, f: nat, c: nat): seq<seq<nat>>
    requires f < |chains|
  {
    chains[f := chains[f] + [c]]
  }

  lemma GrownSeparate(chains: seq<seq<nat>>, f: nat, c: nat)
    requires Separate(chains) && f < |chains| && Unused(chains, c)
    ensures Separate(Grown(chains, f, c))
  {
    var ch := Grown(chains, f, c);
    forall a, i, b, j | 0 <= a < |ch| && 0 <= i < |ch[a]| && 0 <= b < |ch| && 0 <= j < |ch[b]| && ch[a][i] == ch[b][j] ensures a == b && i == j {
      assert i < |chains[a]| ==> chains[a][i] in chains[a];
      assert j < |chains[b]| ==> chains[b][j] in chains[b];
    }
  }

  /** The link from the old end of chain f makes the new cluster its end. */
  lemma LinkGrows(fat: seq<nat>, fat': seq<nat>, chains: seq<seq<nat>>, f: nat, c: nat)
    requires ChainsOk(fat, chains) && f < |chains| && Unused(chains, c) && 2 <= c < |fat| && Low(fat[c]) >= BAD && |fat'| == |fat|
    requires var cs := chains[f]; var l := |cs| - 1;
      if cs == [] then fat' == fat else cs[l] < |fat| && Low(fat'[cs[l]]) == c && fat' == fat[cs[l] := fat'[cs[l]]]
    ensures ChainsOk(fat', Grown(chains, f, c))
  {
    var ch := Grown(chains, f, c);
    GrownSeparate(chains, f, c);
    var cs, l := chains[f], |chains[f]| - 1;
    forall g | 0 <= g < |ch| ensures ChainOk(fat', ch[g]) {
      assert ChainOk(fat, chains[g]);
      if g != f {
        if cs != [] { forall i | 0 <= i < |chains[g]| ensures chains[g][i] != cs[l] { } }
        ChainSame(fat, fat', chains[g]);
      } else {
        forall i | 0 <= i < |ch[f]| ensures Leads(fat', ch[f], i) {
          if i < |cs| {
            assert Leads(fat, cs, i) && cs[i] in cs;
            if i < l { assert cs[i] != cs[l]; }
          } else if cs != [] {
            assert cs[l] in cs;
          }
        }
      }
    }
  }

  lemma DropChain(fat: seq<nat>, chains: seq<seq<nat>>, f: nat)
    requires ChainsOk(fat, chains) && f < |chains|
    ensures ChainsOk(fat, chains[f := []]) && forall i :: 0 <= i < |chains[f]| ==> Unused(chains[f := []], chains[f][i])
  {
    var ch := chains[f := []];
    forall i | 0 <= i < |chains[f]| ensures Unused(ch, chains[f][i]) {
      forall g | 0 <= g < |ch| ensures chains[f][i] !in ch[g] { }
    }
  }

  // ----- free clusters -----------------------------------------------------------------------------

  /** Clusters from 2 to m-1 that an allocation may take. */
  function FreeCount(fat: seq<nat>, root: nat, m: nat): nat
    requires m <= |fat|
  {
    if m <= 2 then 0 else FreeCount(fat, root, m - 1) + (if m - 1 != root && Low(fat[m - 1]) == 0 then 1 else 0)
  }

  /** Cluster c holds nothing: no chain has it, and it is not the root directory's. */
  predicate IsFree(fat: seq<nat>, root: nat, c: nat) { 2 <= c < |fat| && c != root && fat[c] % 0x1000_0000 == 0 }

  ghost function FreeSet(fat: seq<nat>, root: nat, m: nat): set<nat> { set c: nat | c < m && IsFree(fat, root, c) }

  /** The count is the number of free clusters. */
  lemma {:induction false} FreeCountIs(fat: seq<nat>, root: nat, m: nat)
    requires m <= |fat|
    ensures FreeCount(fat, root, m) == |FreeSet(fat, root, m)|
    decreases m
  {
    if m > 2 {
      FreeCountIs(fat, root, m - 1);
      var c := m - 1;
      assert FreeSet(fat, root, m) == FreeSet(fat, root, c) + if IsFree(fat, root, c) then {c} else {};
    } else {
      assert FreeSet(fat, root, m) == {};
    }
  }

  lemma {:induction false} FreeCountSet(fat: seq<nat>, root: nat, m: nat, c: nat, v: nat)
    requires m <= |fat| && 2 <= c < |fat| && c != root
    ensures FreeCount(fat[c := v], root, m) ==
      FreeCount(fat, root, m) + (if c >= m then 0 else (if Low(v) == 0 then 1 else 0) - (if Low(fat[c]) == 0 then 1 else 0))
    decreases m
  {
    if m > 2 { FreeCountSet(fat, root, m - 1, c, v); }
  }

  lemma {:induction false} FreeCountSame(fat: seq<nat>, root: nat, m: nat, c: nat, v: nat)
    requires m <= |fat| && c < |fat| && (Low(v) == 0 <==> Low(fat[c]) == 0)
    ensures FreeCount(fat[c := v], root, m) == FreeCount(fat, root, m)
    decreases m
  {
    if m > 2 { FreeCountSame(fat, root, m - 1, c, v); }
  }

  lemma {:induction false} FreeCountNone(fat: seq<nat>, root: nat, m: nat)
    requires m <= |fat|
    ensures FreeCount(fat, root, m) == 0 <==> forall c :: 2 <= c < m && c != root ==> Low(fat[c]) != 0
    decreases m
  {
    if m > 2 { FreeCountNone(fat, root, m - 1); }
  }

  // ----- bytes -------------------------------------------------------------------------------------

  ghost predicate DataOk(data: seq<seq<nat>>, bpc: nat) { forall c :: 0 <= c < |data| ==> |data[c]| == bpc }

  ghost predicate Inside(cs: seq<nat>, n: nat) { forall i :: 0 <= i < |cs| ==> cs[i] < n }

  /** The clusters of a chain, one after the other. */
  ghost function Flat(cs: seq<nat>, data: seq<seq<nat>>): seq<nat>
    requires Inside(cs, |data|)
  {
    if cs == [] then [] else Flat(cs[..|cs| - 1], data) + data[cs[|cs| - 1]]
  }

  lemma {:induction false} FlatLength(cs: seq<nat>, data: seq<seq<nat>>, bpc: nat)
    requires Inside(cs, |data|) && DataOk(data, bpc)
    ensures |Flat(cs, data)| == |cs| * bpc
    decreases |cs|
  {
    if cs != [] {
      FlatLength(cs[..|cs| - 1], data, bpc);
      assert |cs| * bpc == (|cs| - 1) * bpc + bpc;
    }
  }

  lemma Assoc(a: seq<nat>, b: seq<nat>, c: seq<nat>)
    ensures a + (b + c) == a + b + c
  {
  }

  lemma {:induction false} FlatConcat(a: seq<nat>, b: seq<nat>, data: seq<seq<nat>>)
    requires Inside(a, |data|) && Inside(b, |data|) && Inside(a + b, |data|)
    ensures Flat(a + b, data) == Flat(a, data) + Flat(b, data)
    decreases |b|
  {
    if b == [] {
      assert a + b == a;
    } else {
      var l := |b| - 1;
      assert (a + b)[..|a + b| - 1] == a + b[..l];
      FlatConcat(a, b[..l], data);
      assert (a + b)[|a + b| - 1] == b[l];
      Assoc(Flat(a, data), Flat(b[..l], data), data[b[l]]);
    }
  }

  lemma {:induction false} FlatSame(cs: seq<nat>, data: seq<seq<nat>>, data': seq<seq<nat>>)
    requires Inside(cs, |data|) && |data'| == |data| && forall i :: 0 <= i < |cs| ==> data'[cs[i]] == data[cs[i]]
    ensures Flat(cs, data') == Flat(cs, data)
    decreases |cs|
  {
    if cs != [] { FlatSame(cs[..|cs| - 1], data, data'); }
  }

  /** Where cluster j of a chain is among the chain's bytes, and what replacing it does. */
  lemma FlatPut(cs: seq<nat>, data: seq<seq<nat>>, bpc: nat, j: nat, x: seq<nat>)
    requires Inside(cs, |data|) && DataOk(data, bpc) && j < |cs| && |x| == bpc && forall i :: 0 <= i < |cs| && i != j ==> cs[i] != cs[j]
    ensures j * bpc + bpc <= |Flat(cs, data)| && Flat(cs, data)[j * bpc..j * bpc + bpc] == data[cs[j]]
    ensures Flat(cs, data[cs[j] := x]) == Flat(cs, data)[..j * bpc] + x + Flat(cs, data)[j * bpc + bpc..]
  {
    var a, b, data' := cs[..j], cs[j + 1..], data[cs[j] := x];
    assert cs == a + [cs[j]] + b;
    FlatParts(a, cs[j], b, data);
    FlatParts(a, cs[j], b, data');
    FlatLength(a, data, bpc);
    FlatSame(a, data, data');
    FlatSame(b, data, data');
    Middle(Flat(a, data), data[cs[j]], Flat(b, data), x);
  }

  /** Replacing the middle part of a sequence. */
  lemma Middle(a: seq<nat>, x: seq<nat>, b: seq<nat>, y: seq<nat>)
    requires |y| == |x|
    ensures var r := a + x + b; |a| + |x| <= |r| && r[|a|..|a| + |x|] == x && a + y + b == r[..|a|] + y + r[|a| + |x|..]
  {
    var r := a + x + b;
    assert r[..|a|] == a && r[|a| + |x|..] == b;
  }

  lemma FlatParts(a: seq<nat>, c: nat, b: seq<nat>, data: seq<seq<nat>>)
    requires Inside(a, |data|) && c < |data| && Inside(b, |data|)
    ensures Inside(a + [c] + b, |data|) && Flat(a + [c] + b, data) == Flat(a, data) + data[c] + Flat(b, data)
  {
    FlatConcat(a + [c], b, data);
    assert (a + [c])[..|a|] == a;
  }
}
