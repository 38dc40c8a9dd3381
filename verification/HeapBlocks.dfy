/**
 The kernel heap (kernel/kheap.c) as a row of blocks: what kmalloc and kfree do to it, without
 the memory words. Sizes are in words of four bytes; a block includes its header and footer.
 */
module HeapBlocks {
  const U32: nat := 0x1_0000_0000
  const MIN_WORDS: nat := 4

  datatype Block = Block(at: nat, words: nat, used: bool)

  /** Block i begins where the one before it ends. */
  predicate Follows(bs: seq<Block>, i: nat)
    requires 0 < i < |bs|
  {
    bs[i].at == bs[i - 1].at + bs[i - 1].words
  }

  /** Blocks i-1 and i are not both free. */
  predicate Parted(bs: seq<Block>, i: nat)
    requires 0 < i < |bs|
  {
    bs[i - 1].used || bs[i].used
  }

  /** The blocks cover the words from `from` to `to`, one after the other. */
  ghost predicate Row(bs: seq<Block>, from: nat, to: nat) {
    && |bs| > 0 && bs[0].at == from && bs[|bs| - 1].at + bs[|bs| - 1].words == to
    && (forall i :: 0 <= i < |bs| ==> bs[i].words >= MIN_WORDS && bs[i].words % 2 == 0)
    && (forall i :: 0 < i < |bs| ==> Follows(bs, i))
  }

  /** The blocks cover the n words of the region. */
  ghost predicate Tiling(bs: seq<Block>, n: nat) { Row(bs, 0, n) }

  /** All but the last block are a row too. */
  lemma FrontRow(bs: seq<Block>, from: nat, to: nat)
    requires Row(bs, from, to) && |bs| > 1
    ensures Row(bs[..|bs| - 1], from, bs[|bs| - 1].at)
  {
    var l := |bs| - 1;
    assert Follows(bs, l);
    forall i | 0 < i < l ensures Follows(bs[..l], i) { assert Follows(bs, i); }
  }

  lemma {:induction false} Ordered(bs: seq<Block>, from: nat, to: nat, i: nat, j: nat)
    requires Row(bs, from, to) && i < j < |bs|
    ensures from <= bs[i].at && bs[i].at + bs[i].words <= bs[j].at && bs[j].at + bs[j].words <= to
    decreases |bs|
  {
    FrontRow(bs, from, to);
    assert Follows(bs, |bs| - 1);
    if j < |bs| - 1 {
      Ordered(bs[..|bs| - 1], from, bs[|bs| - 1].at, i, j);
    } else if i < j - 1 {
      Ordered(bs[..|bs| - 1], from, bs[|bs| - 1].at, i, j - 1);
    } else if i > 0 {
      Ordered(bs[..|bs| - 1], from, bs[|bs| - 1].at, 0, i);
    }
  }

  /** All blocks lie in the region, apart from each other. */
  lemma AllOrdered(bs: seq<Block>, from: nat, to: nat)
    requires Row(bs, from, to)
    ensures forall i, j :: 0 <= i < j < |bs| ==> bs[i].at + bs[i].words <= bs[j].at
    ensures forall i :: 0 <= i < |bs| ==> from <= bs[i].at && bs[i].at + bs[i].words <= to
  {
    forall i, j | 0 <= i < j < |bs| ensures bs[i].at + bs[i].words <= bs[j].at { Ordered(bs, from, to, i, j); }
    forall i | 0 <= i < |bs| ensures from <= bs[i].at && bs[i].at + bs[i].words <= to {
      if i > 0 { Ordered(bs, from, to, 0, i); } else if |bs| > 1 { Ordered(bs, from, to, 0, |bs| - 1); }
    }
  }

  /** Free neighbours are always merged. */
  ghost predicate Merged(bs: seq<Block>) {
    forall i :: 0 < i < |bs| ==> Parted(bs, i)
  }

  ghost predicate FreeStart(bs: seq<Block>, h: nat) {
    exists i :: 0 <= i < |bs| && bs[i].at == h && !bs[i].used
  }

  function Words(bs: seq<Block>, used: bool): nat {
    if bs == [] then 0 else Words(bs[..|bs| - 1], used) + (if bs[|bs| - 1].used == used then bs[|bs| - 1].words else 0)
  }

  // ----- operations ------------------------------------------------------------------------------

  /** Replaces blocks i .. i+k-1 by `by`. */
  function Splice(bs: seq<Block>, i: nat, k: nat, by_: seq<Block>): (r: seq<Block>)
    requires i + k <= |bs|
    ensures |r| == |bs| - k + |by_|
    ensures forall q :: 0 <= q < |r| ==> r[q] == if q < i then bs[q] else if q < i + |by_| then by_[q - i] else bs[q - |by_| + k]
  {
    bs[..i] + by_ + bs[i + k..]
  }

  /** Allocation takes the front of block i; what is left stays a block if it is big enough to be one. */
  function Take(bs: seq<Block>, i: nat, total: nat): seq<Block>
    requires i < |bs| && total <= bs[i].words
  {
    var b := bs[i];
    if b.words - total >= MIN_WORDS then
      Splice(bs, i, 1, [Block(b.at, total, true), Block(b.at + total, b.words - total, false)])
    else bs[i := b.(used := true)]
  }

  /** Blocks i and i+1 become one free block. */
  function Join(bs: seq<Block>, i: nat): seq<Block>
    requires i + 1 < |bs|
  {
    Splice(bs, i, 2, [Block(bs[i].at, bs[i].words + bs[i + 1].words, false)])
  }

  predicate JoinsNext(bs: seq<Block>, i: nat) { i + 1 < |bs| && !bs[i + 1].used }
  predicate JoinsPrev(bs: seq<Block>, i: nat) { 0 < i < |bs| && !bs[i - 1].used }

  function JoinRight(bs: seq<Block>, i: nat): seq<Block> { if JoinsNext(bs, i) then Join(bs, i) else bs }
  function JoinLeft(bs: seq<Block>, i: nat): seq<Block> { if JoinsPrev(bs, i) then Join(bs, i - 1) else bs }

  /** Releasing block i merges it with its free neighbours. */
  function Release(bs: seq<Block>, i: nat): seq<Block>
    requires i < |bs|
  {
    JoinLeft(JoinRight(bs[i := bs[i].(used := false)], i), i)
  }

  // ----- what they keep ---------------------------------------------------------------------------

  /** Replacing a stretch of blocks by others that cover the same words keeps the tiling. */
  lemma SpliceTiles(bs: seq<Block>, n: nat, i: nat, k: nat, by_: seq<Block>)
    requires Tiling(bs, n) && k > 0 && i + k <= |bs| && Row(by_, bs[i].at, bs[i + k - 1].at + bs[i + k - 1].words)
    ensures Tiling(Splice(bs, i, k, by_), n)
  {
    var r := Splice(bs, i, k, by_);
    hide Splice;
    forall q | 0 < q < |r| ensures Follows(r, q) { SpliceFollows(bs, n, i, k, by_, q); }
  }

  lemma SpliceFollows(bs: seq<Block>, n: nat, i: nat, k: nat, by_: seq<Block>, q: nat)
    requires Tiling(bs, n) && k > 0 && i + k <= |bs| && Row(by_, bs[i].at, bs[i + k - 1].at + bs[i + k - 1].words)
    requires 0 < q < |Splice(bs, i, k, by_)|
    ensures Follows(Splice(bs, i, k, by_), q)
  {
    if q <= i {
      assert Follows(bs, q);
    } else if q < i + |by_| {
      assert Follows(by_, q - i);
    } else {
      assert Follows(bs, q - |by_| + k);
    }
  }

  lemma TwoRow(at: nat, total: nat, words: nat)
    requires MIN_WORDS <= total <= words - MIN_WORDS && total % 2 == 0 && words % 2 == 0
    ensures Row([Block(at, total, true), Block(at + total, words - total, false)], at, at + words)
  {
    var two := [Block(at, total, true), Block(at + total, words - total, false)];
    assert Follows(two, 1);
    assert (words - total) % 2 == 0;
  }

  lemma FlagTiles(bs: seq<Block>, n: nat, i: nat, used: bool)
    requires Tiling(bs, n) && i < |bs|
    ensures Tiling(bs[i := bs[i].(used := used)], n)
  {
    var r := bs[i := bs[i].(used := used)];
    forall k | 0 < k < |r| ensures Follows(r, k) { assert Follows(bs, k); }
  }

  lemma RowSize(bs: seq<Block>, from: nat, to: nat, i: nat)
    requires Row(bs, from, to) && i < |bs|
    ensures bs[i].words >= MIN_WORDS && bs[i].words % 2 == 0
  {
  }

  lemma TakeTiles(bs: seq<Block>, n: nat, i: nat, total: nat)
    requires Tiling(bs, n) && i < |bs| && MIN_WORDS <= total <= bs[i].words && total % 2 == 0
    ensures Tiling(Take(bs, i, total), n)
  {
    hide Row, Follows;
    var b := bs[i];
    RowSize(bs, 0, n, i);
    if b.words - total >= MIN_WORDS {
      TwoRow(b.at, total, b.words);
      SpliceTiles(bs, n, i, 1, [Block(b.at, total, true), Block(b.at + total, b.words - total, false)]);
    } else {
      FlagTiles(bs, n, i, true);
    }
  }

  lemma OneBlockRow(at: nat, a: nat, b: nat)
    requires a >= MIN_WORDS && b >= MIN_WORDS && a % 2 == 0 && b % 2 == 0
    ensures Row([Block(at, a + b, false)], at, at + a + b)
  {
  }

  lemma JoinTiles(bs: seq<Block>, n: nat, i: nat)
    requires Tiling(bs, n) && i + 1 < |bs|
    ensures Tiling(Join(bs, i), n)
  {
    assert Follows(bs, i + 1);
    RowSize(bs, 0, n, i);
    RowSize(bs, 0, n, i + 1);
    hide Row, Follows, Splice;
    OneBlockRow(bs[i].at, bs[i].words, bs[i + 1].words);
    SpliceTiles(bs, n, i, 2, [Block(bs[i].at, bs[i].words + bs[i + 1].words, false)]);
  }

  lemma TakeMerges(bs: seq<Block>, i: nat, total: nat)
    requires Merged(bs) && i < |bs| && total <= bs[i].words && !bs[i].used
    ensures Merged(Take(bs, i, total))
  {
    var b, r := bs[i], Take(bs, i, total);
    if b.words - total >= MIN_WORDS {
      forall k | 0 < k < |r| ensures Parted(r, k) {
        if k < i { assert Parted(bs, k); }
        if k > i + 1 { assert Parted(bs, k - 1); }
      }
    } else {
      forall k | 0 < k < |r| ensures Parted(r, k) { assert Parted(bs, k); }
    }
  }

  /** Merged everywhere but around block i. */
  ghost predicate MergedBut(bs: seq<Block>, lo: int, hi: int) {
    forall k :: 0 < k < |bs| && !(lo <= k <= hi) ==> Parted(bs, k)
  }

  lemma FreedKeeps(bs: seq<Block>, n: nat, i: nat)
    requires Tiling(bs, n) && Merged(bs) && i < |bs|
    ensures var freed := bs[i := bs[i].(used := false)]; Tiling(freed, n) && MergedBut(freed, i, i + 1)
  {
    var freed := bs[i := bs[i].(used := false)];
    FlagTiles(bs, n, i, false);
    forall k | 0 < k < |bs| && !(i <= k <= i + 1) ensures Parted(freed, k) { assert Parted(bs, k); }
  }

  lemma RightKeeps(bs: seq<Block>, n: nat, i: nat)
    requires Tiling(bs, n) && i < |bs| && !bs[i].used && MergedBut(bs, i, i + 1)
    ensures var r := JoinRight(bs, i); Tiling(r, n) && i < |r| && !r[i].used && MergedBut(r, i, i) && r[..i] == bs[..i]
  {
    if JoinsNext(bs, i) {
      JoinTiles(bs, n, i);
      var r := Join(bs, i);
      forall k | 0 < k < |r| && k != i ensures Parted(r, k) {
        assert Parted(bs, if k < i then k else k + 1);
      }
    }
  }

  lemma LeftKeeps(bs: seq<Block>, n: nat, i: nat)
    requires Tiling(bs, n) && i < |bs| && !bs[i].used && MergedBut(bs, i, i)
    ensures Tiling(JoinLeft(bs, i), n) && Merged(JoinLeft(bs, i))
  {
    if JoinsPrev(bs, i) {
      JoinTiles(bs, n, i - 1);
      var r := Join(bs, i - 1);
      forall k | 0 < k < |r| ensures Parted(r, k) {
        assert Parted(bs, if k < i then k else k + 1);
      }
    } else {
      forall k | 0 < k < |bs| ensures Parted(bs, k) { }
    }
  }

  lemma ReleaseKeeps(bs: seq<Block>, n: nat, i: nat)
    requires Tiling(bs, n) && Merged(bs) && i < |bs| && bs[i].used
    ensures Tiling(Release(bs, i), n) && Merged(Release(bs, i))
  {
    var freed := bs[i := bs[i].(used := false)];
    FreedKeeps(bs, n, i);
    RightKeeps(freed, n, i);
    LeftKeeps(JoinRight(freed, i), n, i);
  }

  /** Releasing what was just taken gives back the very same row of blocks. */
  lemma TakeRelease(bs: seq<Block>, i: nat, total: nat)
    requires Merged(bs) && i < |bs| && !bs[i].used && total <= bs[i].words
    ensures i < |Take(bs, i, total)| && Take(bs, i, total)[i].used && Release(Take(bs, i, total), i) == bs
  {
    var t := Take(bs, i, total);
    var freed := t[i := t[i].(used := false)];
    if bs[i].words - total >= MIN_WORDS {
      assert JoinsNext(freed, i);
      assert Join(freed, i) == bs;
    } else {
      assert freed == bs;
      assert i + 1 < |bs| ==> Parted(bs, i + 1);
    }
    assert i > 0 ==> Parted(bs, i);
  }

  /** If nothing is in use the whole region is one free block. */
  lemma AllFree(bs: seq<Block>, n: nat)
    requires Tiling(bs, n) && Merged(bs) && forall i :: 0 <= i < |bs| ==> !bs[i].used
    ensures bs == [Block(0, n, false)]
  {
    assert |bs| == 1 || Parted(bs, 1);
  }

  lemma {:induction false} AllWords(bs: seq<Block>, n: nat)
    requires Tiling(bs, n)
    ensures Words(bs, true) + Words(bs, false) == n
    decreases |bs|
  {
    var k := |bs| - 1;
    if k > 0 {
      FrontRow(bs, 0, n);
      AllWords(bs[..k], bs[k].at);
    } else {
      assert bs[..0] == [];
    }
  }

  lemma {:induction false} WordsConcat(a: seq<Block>, b: seq<Block>, used: bool)
    ensures Words(a + b, used) == Words(a, used) + Words(b, used)
    decreases |b|
  {
    if b == [] {
      assert a + b == a;
    } else {
      assert (a + b)[..|a + b| - 1] == a + b[..|b| - 1];
      WordsConcat(a, b[..|b| - 1], used);
    }
  }

  lemma SpliceWords(bs: seq<Block>, i: nat, k: nat, by_: seq<Block>, used: bool)
    requires i + k <= |bs|
    ensures Words(Splice(bs, i, k, by_), used) == Words(bs, used) - Words(bs[i..i + k], used) + Words(by_, used)
  {
    assert bs == bs[..i] + bs[i..i + k] + bs[i + k..];
    WordsConcat(bs[..i] + bs[i..i + k], bs[i + k..], used);
    WordsConcat(bs[..i], bs[i..i + k], used);
    WordsConcat(bs[..i] + by_, bs[i + k..], used);
    WordsConcat(bs[..i], by_, used);
  }

  /** Releasing a block frees exactly its words, allocating uses exactly the words of the new block. */
  lemma ReleaseWords(bs: seq<Block>, n: nat, i: nat)
    requires Tiling(bs, n) && Merged(bs) && i < |bs| && bs[i].used
    ensures Words(Release(bs, i), true) == Words(bs, true) - bs[i].words
    ensures Words(Release(bs, i), false) == Words(bs, false) + bs[i].words
  {
    hide Row, Merged, MergedBut, Splice, Words, Join;
    var freed := bs[i := bs[i].(used := false)];
    FreedWords(bs, i);
    FreedKeeps(bs, n, i);
    RightKeeps(freed, n, i);
    var right := JoinRight(freed, i);
    if JoinsNext(freed, i) { JoinWords(freed, i); }
    if JoinsPrev(right, i) { JoinWords(right, i - 1); }
    ReleaseKeeps(bs, n, i);
    AllWords(bs, n);
    AllWords(Release(bs, i), n);
  }

  lemma FreedWords(bs: seq<Block>, i: nat)
    requires i < |bs| && bs[i].used
    ensures Words(bs[i := bs[i].(used := false)], true) == Words(bs, true) - bs[i].words
  {
    var one := [bs[i].(used := false)];
    assert bs[i := one[0]] == Splice(bs, i, 1, one);
    SpliceWords(bs, i, 1, one, true);
    assert bs[i..i + 1] == [bs[i]];
    OneWords(bs[i], true);
    OneWords(one[0], true);
  }

  lemma OneWords(b: Block, used: bool)
    ensures Words([b], used) == if b.used == used then b.words else 0
  {
    assert [b][..0] == [];
  }

  lemma JoinWords(bs: seq<Block>, i: nat)
    requires i + 1 < |bs| && !bs[i].used && !bs[i + 1].used
    ensures Words(Join(bs, i), true) == Words(bs, true)
  {
    var one := [Block(bs[i].at, bs[i].words + bs[i + 1].words, false)];
    SpliceWords(bs, i, 2, one, true);
    assert bs[i..i + 2] == [bs[i], bs[i + 1]];
    assert one[..0] == [] && bs[i..i + 2][..1] == [bs[i]] && bs[i..i + 2][..1][..0] == [];
  }

  // ----- sizes -----------------------------------------------------------------------------------

  /** ALIGN8 on 32 bits. */
  function Align8(x: nat): nat { ((x + 7) % U32) / 8 * 8 }

  /** The block size in bytes that kmalloc looks for. */
  function Total(size: nat): (t: nat)
    ensures t >= 4 * MIN_WORDS && t % 8 == 0
  {
    var total := (Align8(size) + 8) % U32;
    if total < 4 * MIN_WORDS then 4 * MIN_WORDS else total
  }

  /** The payload of such a block holds the request exactly when the 32-bit sum does not wrap around. */
  lemma TotalExact(size: nat)
    requires size < 0x1_0000_0000
    ensures Total(size) - 8 >= size <==> size <= 0xFFFF_FFF0
  {
  }

  /** It is the smallest size a block can have that holds the request: blocks are multiples of 8 bytes, at least 16. */
  lemma TotalLeast(size: nat, t: nat)
    requires 0 < size <= 0xFFFF_FFF0 && t % 8 == 0 && t >= 16
    ensures t >= Total(size) <==> t - 8 >= size
    ensures Total(size) % 8 == 0 && Total(size) >= 16
  {
    assert Align8(size) == (size + 7) / 8 * 8;
  }

  /** A block split off for a request, or taken whole because the rest would be too small, wastes less than 16 bytes. */
  lemma TakenTight(bs: seq<Block>, i: nat, size: nat)
    requires i < |bs| && 4 * bs[i].words >= Total(size) && bs[i].words % 2 == 0 && 0 < size <= 0xFFFF_FFF0
    ensures var b := Take(bs, i, Total(size) / 4);
      i < |b| && b[i].used && b[i].at == bs[i].at && size <= 4 * b[i].words - 8 < size + 16
  {
    TotalLeast(size, Total(size));
    assert Total(size) == 16 || Total(size) == (size + 7) / 8 * 8 + 8;
  }

  /** For a request that wraps around, the block is the smallest there is. */
  lemma TotalWraps(size: nat)
    requires 0xFFFF_FFF0 < size < U32
    ensures Total(size) == 4 * MIN_WORDS
  {
  }
}
