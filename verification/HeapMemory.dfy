/**
 The words of the kernel heap (kernel/kheap.c): headers and footers, and the free list that
 runs through the free blocks. Addresses are in words from the base of the region; a list node
 is the word after a header, so no node has address 0, which stands for the null link.
 */
module HeapMemory {
  import opened HeapBlocks

  type Mem = seq<nat>

  function Tag(words: nat, used: bool): nat { 4 * words + (if used then 1 else 0) }

  /** blk_size and blk_alloc. */
  function SizeOf(tag: nat): nat { tag - tag % 2 }
  predicate UsedBit(tag: nat) { tag % 2 == 1 }
  function WordsOf(tag: nat): nat { tag / 4 }

  lemma TagParts(words: nat, used: bool)
    ensures SizeOf(Tag(words, used)) == Tag(words, false) && UsedBit(Tag(words, used)) == used && WordsOf(Tag(words, used)) == words
  {
    var b := if used then 1 else 0;
    assert Tag(words, used) == 2 * (2 * words) + b;
    assert Tag(words, used) % 2 == b;
  }

  /** Header and footer of a block say the same. */
  predicate Tagged(m: Mem, b: Block) {
    b.words > 0 && b.at + b.words <= |m| && m[b.at] == Tag(b.words, b.used) == m[b.at + b.words - 1]
  }

  ghost predicate TagsOk(m: Mem, bs: seq<Block>) { forall i :: 0 <= i < |bs| ==> Tagged(m, bs[i]) }

  function Link(free: seq<nat>, k: nat): nat { if k < |free| then free[k] + 1 else 0 }
  function Back(free: seq<nat>, k: nat): nat { if 0 < k <= |free| then free[k - 1] + 1 else 0 }

  predicate LinkedAt(m: Mem, free: seq<nat>, k: nat)
    requires k < |free|
  {
    free[k] + 2 < |m| && m[free[k] + 1] == Back(free, k) && m[free[k] + 2] == Link(free, k + 1)
  }

  /** The list in memory that starts at head is the list of the blocks in `free`. */
  ghost predicate Linked(m: Mem, free: seq<nat>, head: nat) {
    head == Link(free, 0) && forall k :: 0 <= k < |free| ==> LinkedAt(m, free, k)
  }

  ghost predicate Distinct(free: seq<nat>) { forall i, j :: 0 <= i < j < |free| ==> free[i] != free[j] }

  /** The list has exactly the free blocks, apart from those in miss. */
  ghost predicate Listed(free: seq<nat>, bs: seq<Block>, miss: set<nat>) {
    forall h :: h in free <==> FreeStart(bs, h) && h !in miss
  }

  /** The heap invariant, with free blocks that are off the list for the moment. */
  ghost predicate Good(m: Mem, head: nat, bs: seq<Block>, free: seq<nat>, miss: set<nat>) {
    Tiling(bs, |m|) && TagsOk(m, bs) && Linked(m, free, head) && Distinct(free) && Listed(free, bs, miss)
  }

  // ----- what stays untouched -----------------------------------------------------------------------

  /** m' differs from m only in the list nodes of the blocks in hs. */
  ghost predicate OnlyNodes(m: Mem, m': Mem, hs: seq<nat>) {
    |m'| == |m| && forall w :: 0 <= w < |m| && (w - 1 !in hs) && (w - 2 !in hs) ==> m'[w] == m[w]
  }

  /** The payload of every allocated block is unchanged. */
  ghost predicate LiveSame(m: Mem, m': Mem, bs: seq<Block>) {
    |m'| == |m| && forall b, w :: b in bs && b.used && b.at < w < b.at + b.words - 1 && w < |m| ==> m'[w] == m[w]
  }

  lemma LiveSameVia(m: Mem, m': Mem, m'': Mem, bs: seq<Block>)
    requires LiveSame(m, m', bs) && LiveSame(m', m'', bs)
    ensures LiveSame(m, m'', bs)
  {
  }

  lemma LiveSameBlocks(m: Mem, m': Mem, bs: seq<Block>, bs': seq<Block>)
    requires LiveSame(m, m', bs) && forall b :: b in bs' && b.used ==> b in bs
    ensures LiveSame(m, m', bs')
  {
  }

  /** The node words of a free block are in no other block, and are not its own tags. */
  lemma NodeWords(bs: seq<Block>, n: nat, f: nat, i: nat)
    requires Tiling(bs, n) && FreeStart(bs, f) && i < |bs|
    ensures f + 3 < n
    ensures f != bs[i].at || bs[i].used ==> f + 3 < bs[i].at || bs[i].at + bs[i].words <= f
    ensures f == bs[i].at && !bs[i].used ==> f + 2 < bs[i].at + bs[i].words - 1
  {
    var j :| 0 <= j < |bs| && bs[j].at == f && !bs[j].used;
    RowSize(bs, 0, n, j);
    RowSize(bs, 0, n, i);
    AllOrdered(bs, 0, n);
    if i < j { assert bs[i].at + bs[i].words <= bs[j].at; }
    if j < i { assert bs[j].at + bs[j].words <= bs[i].at; }
  }

  /** Changing list nodes of free blocks changes no tag and no payload. */
  lemma NodesFrame(m: Mem, m': Mem, bs: seq<Block>, hs: seq<nat>)
    requires Tiling(bs, |m|) && TagsOk(m, bs) && OnlyNodes(m, m', hs) && forall h :: h in hs ==> FreeStart(bs, h)
    ensures TagsOk(m', bs) && LiveSame(m, m', bs)
  {
    hide Row;
    forall i | 0 <= i < |bs| ensures Tagged(m', bs[i]) {
      var b := bs[i];
      assert Tagged(m, b);
      forall w | w == b.at || w == b.at + b.words - 1 ensures m'[w] == m[w] {
        NotNode(bs, |m|, hs, i, w);
      }
    }
    forall b, w | b in bs && b.used && b.at < w < b.at + b.words - 1 && w < |m| ensures m'[w] == m[w] {
      var i :| 0 <= i < |bs| && bs[i] == b;
      NotNode(bs, |m|, hs, i, w);
    }
  }

  lemma NotNode(bs: seq<Block>, n: nat, hs: seq<nat>, i: nat, w: nat)
    requires Tiling(bs, n) && i < |bs| && bs[i].at <= w < bs[i].at + bs[i].words && (forall h :: h in hs ==> FreeStart(bs, h))
    requires bs[i].used || w == bs[i].at || w == bs[i].at + bs[i].words - 1
    ensures w - 1 !in hs && w - 2 !in hs
  {
    hide Row;
    forall h | h in hs ensures h != w - 1 && h != w - 2 { NodeWords(bs, n, h, i); }
  }

  // ----- the free list --------------------------------------------------------------------------------

  /** Blocks on the list are far enough apart that their nodes do not overlap. */
  ghost predicate Spaced(free: seq<nat>) {
    forall i, j :: 0 <= i < j < |free| ==> free[i] + 3 < free[j] || free[j] + 3 < free[i]
  }

  lemma ListSpaced(bs: seq<Block>, n: nat, free: seq<nat>)
    requires Tiling(bs, n) && Distinct(free) && forall h :: h in free ==> FreeStart(bs, h)
    ensures Spaced(free)
  {
    hide Row;
    forall i, j | 0 <= i < j < |free| ensures free[i] + 3 < free[j] || free[j] + 3 < free[i] {
      assert free[i] in free && FreeStart(bs, free[i]);
      var a :| 0 <= a < |bs| && bs[a].at == free[i] && !bs[a].used;
      NodeWords(bs, n, free[j], a);
      RowSize(bs, 0, n, a);
    }
  }

  /** free_list_insert: the block goes to the front. */
  lemma PushLinks(m: Mem, m': Mem, free: seq<nat>, head: nat, h: nat)
    requires Linked(m, free, head) && Spaced([h] + free) && h + 3 < |m|
    requires m' == if head != 0 && head < |m| then m[h + 1 := 0][h + 2 := head][head := h + 1] else m[h + 1 := 0][h + 2 := head]
    ensures Linked(m', [h] + free, h + 1) && OnlyNodes(m, m', [h] + free)
  {
    var free' := [h] + free;
    if |free| > 0 { assert LinkedAt(m, free, 0) && free'[1] == free[0] && (free'[0] + 3 < free'[1] || free'[1] + 3 < free'[0]); }
    forall k | 0 <= k < |free'| ensures LinkedAt(m', free', k) {
      if k > 0 {
        assert LinkedAt(m, free, k - 1) && free'[k] == free[k - 1];
        assert free'[0] + 3 < free'[k] || free'[k] + 3 < free'[0];
        if k > 1 { assert free'[1] + 3 < free'[k] || free'[k] + 3 < free'[1]; }
      }
    }
    forall w | 0 <= w < |m| && (w - 1 !in free') && (w - 2 !in free') ensures m'[w] == m[w] {
      assert h == free'[0];
      if |free| > 0 { assert free[0] == free'[1]; }
    }
  }

  function Dropped(free: seq<nat>, k: nat): seq<nat>
    requires k < |free|
  {
    free[..k] + free[k + 1..]
  }

  /** free_list_remove: the neighbours on the list are linked to each other. */
  lemma DropLinks(m: Mem, m1: Mem, m2: Mem, free: seq<nat>, head: nat, k: nat)
    requires Linked(m, free, head) && Spaced(free) && k < |free|
    requires m1 == if k > 0 && free[k - 1] + 2 < |m| then m[free[k - 1] + 2 := Link(free, k + 1)] else m
    requires m2 == if k + 1 < |free| && free[k + 1] + 1 < |m| then m1[free[k + 1] + 1 := Back(free, k)] else m1
    ensures Linked(m2, Dropped(free, k), if k == 0 then Link(free, 1) else head) && OnlyNodes(m, m2, Dropped(free, k))
  {
    var free' := Dropped(free, k);
    if k > 0 { assert LinkedAt(m, free, k - 1) && free'[k - 1] == free[k - 1]; }
    if k + 1 < |free| { assert LinkedAt(m, free, k + 1) && free'[k] == free[k + 1]; }
    forall j | 0 <= j < |free| ensures free[j] + 2 < |m| { assert LinkedAt(m, free, j); }
    if 0 < k < |free| - 1 { assert free[k - 1] + 3 < free[k + 1] || free[k + 1] + 3 < free[k - 1]; }
    forall q | 0 <= q < |free'| ensures LinkedAt(m2, free', q) {
      DropOne(m, m2, free, k, q);
    }
  }

  lemma DropOne(m: Mem, m2: Mem, free: seq<nat>, k: nat, q: nat)
    requires Spaced(free) && k < |free| && q < |free| - 1 && |m2| == |m| && (forall j :: 0 <= j < |free| ==> LinkedAt(m, free, j))
    requires forall j :: 0 <= j < |free| ==> free[j] + 2 < |m|
    requires k > 0 ==> m2[free[k - 1] + 2] == Link(free, k + 1)
    requires k + 1 < |free| ==> m2[free[k + 1] + 1] == Back(free, k)
    requires forall w :: 0 <= w < |m| && (k > 0 ==> w != free[k - 1] + 2) && (k + 1 < |free| ==> w != free[k + 1] + 1) ==> m2[w] == m[w]
    ensures LinkedAt(m2, Dropped(free, k), q)
  {
    var o := if q < k then q else q + 1;
    assert LinkedAt(m, free, o) && Dropped(free, k)[q] == free[o];
    assert free[o] + 1 != free[o] + 2;
    if k > 0 && o != k - 1 { FarApart(free, o, k - 1); }
    if k + 1 < |free| && o != k + 1 { FarApart(free, o, k + 1); }
    DropBack(free, k, q);
    DropNext(free, k, q);
  }

  /** The neighbours on the list after block k has left it. */
  lemma DropBack(free: seq<nat>, k: nat, q: nat)
    requires k < |free| && q < |free| - 1
    ensures Back(Dropped(free, k), q) == if q == k then Back(free, k) else Back(free, if q < k then q else q + 1)
  {
  }

  lemma DropNext(free: seq<nat>, k: nat, q: nat)
    requires k < |free| && q < |free| - 1
    ensures Link(Dropped(free, k), q + 1) == if q + 1 == k then Link(free, k + 1) else Link(free, if q < k then q + 1 else q + 2)
  {
  }

  lemma FarApart(free: seq<nat>, a: nat, b: nat)
    requires Spaced(free) && a < |free| && b < |free| && a != b
    ensures free[a] + 3 < free[b] || free[b] + 3 < free[a]
  {
  }

  /** Taking a block off the list. */
  lemma DropGood(m: Mem, m1: Mem, m2: Mem, head: nat, bs: seq<Block>, free: seq<nat>, miss: set<nat>, k: nat)
    requires Good(m, head, bs, free, miss) && k < |free|
    requires m1 == if k > 0 && free[k - 1] + 2 < |m| then m[free[k - 1] + 2 := Link(free, k + 1)] else m
    requires m2 == if k + 1 < |free| && free[k + 1] + 1 < |m| then m1[free[k + 1] + 1 := Back(free, k)] else m1
    ensures Good(m2, if k == 0 then Link(free, 1) else head, bs, Dropped(free, k), miss + {free[k]}) && LiveSame(m, m2, bs)
  {
    hide Row, TagsOk, Linked, FreeStart, OnlyNodes, LiveSame;
    ListSpaced(bs, |m|, free);
    DropLinks(m, m1, m2, free, head, k);
    DropListed(free, bs, miss, k);
    NodesFrame(m, m2, bs, Dropped(free, k));
  }

  lemma DropListed(free: seq<nat>, bs: seq<Block>, miss: set<nat>, k: nat)
    requires Distinct(free) && Listed(free, bs, miss) && k < |free|
    ensures Distinct(Dropped(free, k)) && Listed(Dropped(free, k), bs, miss + {free[k]})
    ensures forall h :: h in Dropped(free, k) ==> FreeStart(bs, h)
  {
    hide FreeStart;
    var free' := Dropped(free, k);
    forall h ensures h in free' <==> h in free && h != free[k] {
      if h in free && h != free[k] {
        var q :| 0 <= q < |free| && free[q] == h;
        assert free'[if q < k then q else q - 1] == h;
      }
    }
  }

  /** Putting a free block on the list. */
  lemma PushGood(m: Mem, m': Mem, head: nat, bs: seq<Block>, free: seq<nat>, miss: set<nat>, h: nat)
    requires Good(m, head, bs, free, miss) && h in miss && FreeStart(bs, h) && h + 3 < |m|
    requires m' == if head != 0 && head < |m| then m[h + 1 := 0][h + 2 := head][head := h + 1] else m[h + 1 := 0][h + 2 := head]
    ensures Good(m', h + 1, bs, [h] + free, miss - {h}) && LiveSame(m, m', bs)
  {
    hide Row, TagsOk, Linked, FreeStart, OnlyNodes, LiveSame;
    var free' := [h] + free;
    assert forall x :: x in free' <==> x == h || x in free;
    assert h !in free;
    ListSpaced(bs, |m|, free');
    PushLinks(m, m', free, head, h);
    NodesFrame(m, m', bs, free');
  }

  // ----- splitting and merging ------------------------------------------------------------------------

  /** m' differs from m only between lo and hi. */
  ghost predicate Inside(m: Mem, m': Mem, lo: nat, hi: nat) {
    |m'| == |m| && forall w :: 0 <= w < |m| && !(lo <= w < hi) ==> m'[w] == m[w]
  }

  /** Blocks outside the stretch keep all their words. */
  lemma OutsideSame(m: Mem, m': Mem, bs: seq<Block>, i: nat, k: nat, j: nat)
    requires Tiling(bs, |m|) && k > 0 && i + k <= |bs| && j < |bs| && !(i <= j < i + k)
    requires Inside(m, m', bs[i].at, bs[i + k - 1].at + bs[i + k - 1].words)
    ensures bs[j].at + bs[j].words <= |m| && forall w :: bs[j].at <= w < bs[j].at + bs[j].words ==> m'[w] == m[w]
  {
    AllOrdered(bs, 0, |m|);
    hide Row;
    if j < i { Ordered(bs, 0, |m|, j, i); } else { Ordered(bs, 0, |m|, i + k - 1, j); }
  }

  lemma SpliceTags(m: Mem, m': Mem, bs: seq<Block>, i: nat, k: nat, by_: seq<Block>)
    requires Tiling(bs, |m|) && TagsOk(m, bs) && k > 0 && i + k <= |bs|
    requires Inside(m, m', bs[i].at, bs[i + k - 1].at + bs[i + k - 1].words) && TagsOk(m', by_)
    ensures TagsOk(m', Splice(bs, i, k, by_))
  {
    SameLength(m, m', bs[i].at, bs[i + k - 1].at + bs[i + k - 1].words);
    hide Row, Inside, Tiling;
    var r := Splice(bs, i, k, by_);
    forall q | 0 <= q < |r| ensures Tagged(m', r[q]) {
      if i <= q < i + |by_| {
        assert Tagged(m', by_[q - i]);
      } else {
        var j := if q < i then q else q - |by_| + k;
        assert Tagged(m, bs[j]) && r[q] == bs[j];
        OutsideSame(m, m', bs, i, k, j);
      }
    }
  }

  lemma SpliceLive(m: Mem, m': Mem, bs: seq<Block>, i: nat, k: nat)
    requires Tiling(bs, |m|) && k > 0 && i + k <= |bs|
    requires Inside(m, m', bs[i].at, bs[i + k - 1].at + bs[i + k - 1].words) && |m'| == |m|
    ensures LiveSame(m, m', bs[..i] + bs[i + k..])
  {
    hide Row, Inside, Tiling;
    var rest := bs[..i] + bs[i + k..];
    forall b, w | b in rest && b.used && b.at < w < b.at + b.words - 1 && w < |m| ensures m'[w] == m[w] {
      var q :| 0 <= q < |rest| && rest[q] == b;
      OutsideSame(m, m', bs, i, k, if q < i then q else q + k);
    }
  }

  lemma SpliceLinks(m: Mem, m': Mem, head: nat, bs: seq<Block>, free: seq<nat>, i: nat, k: nat)
    requires Tiling(bs, |m|) && Linked(m, free, head) && k > 0 && i + k <= |bs| && (forall h :: h in free ==> FreeStart(bs, h))
    requires Inside(m, m', bs[i].at, bs[i + k - 1].at + bs[i + k - 1].words)
    requires forall q :: i <= q < i + k ==> bs[q].at !in free
    ensures Linked(m', free, head)
  {
    AllOrdered(bs, 0, |m|);
    hide Row, Follows;
    forall c | 0 <= c < |free| ensures LinkedAt(m', free, c) {
      assert LinkedAt(m, free, c) && free[c] in free && FreeStart(bs, free[c]);
      var j :| 0 <= j < |bs| && bs[j].at == free[c] && !bs[j].used;
      RowSize(bs, 0, |m|, j);
      if j < i { assert bs[j].at + bs[j].words <= bs[i].at; }
      else { assert bs[i + k - 1].at + bs[i + k - 1].words <= bs[j].at; }
    }
  }

  /** A block is one of i .. i+k-1 exactly if it starts in the words they cover. */
  lemma StartPlace(bs: seq<Block>, n: nat, i: nat, k: nat, j: nat)
    requires Tiling(bs, n) && k > 0 && i + k <= |bs| && j < |bs|
    ensures i <= j < i + k <==> bs[i].at <= bs[j].at < bs[i + k - 1].at + bs[i + k - 1].words
  {
    RowSize(bs, 0, n, j);
    RowSize(bs, 0, n, i);
    RowSize(bs, 0, n, i + k - 1);
    hide Row;
    if i < j { Ordered(bs, 0, n, i, j); }
    if j < i { Ordered(bs, 0, n, j, i); }
    if j < i + k - 1 { Ordered(bs, 0, n, j, i + k - 1); }
    if i + k - 1 < j { Ordered(bs, 0, n, i + k - 1, j); }
  }

  /** The free blocks after a splice are the new ones and the old ones outside the stretch. */
  lemma SpliceStarts(bs: seq<Block>, n: nat, i: nat, k: nat, by_: seq<Block>, x: nat)
    requires Tiling(bs, n) && k > 0 && i + k <= |bs| && Row(by_, bs[i].at, bs[i + k - 1].at + bs[i + k - 1].words)
    ensures var inside := bs[i].at <= x < bs[i + k - 1].at + bs[i + k - 1].words;
      FreeStart(Splice(bs, i, k, by_), x) <==> if inside then FreeStart(by_, x) else FreeStart(bs, x)
    ensures FreeStart(by_, x) ==> bs[i].at <= x < bs[i + k - 1].at + bs[i + k - 1].words
  {
    hide Row, Tiling;
    var r := Splice(bs, i, k, by_);
    if FreeStart(by_, x) {
      var q :| 0 <= q < |by_| && by_[q].at == x && !by_[q].used;
      ByInside(by_, bs[i].at, bs[i + k - 1].at + bs[i + k - 1].words, q);
      assert r[i + q].at == x && !r[i + q].used;
    }
    if FreeStart(bs, x) && !(bs[i].at <= x < bs[i + k - 1].at + bs[i + k - 1].words) {
      var q :| 0 <= q < |bs| && bs[q].at == x && !bs[q].used;
      StartPlace(bs, n, i, k, q);
      assert q < i || q >= i + k;
      assert r[if q < i then q else q - k + |by_|] == bs[q];
    }
    if FreeStart(r, x) { SplicedStart(bs, n, i, k, by_, x); }
  }

  lemma SplicedStart(bs: seq<Block>, n: nat, i: nat, k: nat, by_: seq<Block>, x: nat)
    requires Tiling(bs, n) && k > 0 && i + k <= |bs| && Row(by_, bs[i].at, bs[i + k - 1].at + bs[i + k - 1].words)
    requires FreeStart(Splice(bs, i, k, by_), x)
    ensures var inside := bs[i].at <= x < bs[i + k - 1].at + bs[i + k - 1].words; if inside then FreeStart(by_, x) else FreeStart(bs, x)
  {
    hide Row, Tiling;
    var r := Splice(bs, i, k, by_);
    var q :| 0 <= q < |r| && r[q].at == x && !r[q].used;
    if i <= q < i + |by_| {
      assert by_[q - i] == r[q];
      ByInside(by_, bs[i].at, bs[i + k - 1].at + bs[i + k - 1].words, q - i);
    } else {
      var j := if q < i then q else q - |by_| + k;
      assert bs[j] == r[q];
      StartPlace(bs, n, i, k, j);
    }
  }

  lemma ByInside(bs: seq<Block>, from: nat, to: nat, q: nat)
    requires Row(bs, from, to) && q < |bs|
    ensures from <= bs[q].at < to
  {
    AllOrdered(bs, from, to);
    RowSize(bs, from, to, q);
  }

  /**
   Rewriting the tags of a stretch of blocks that are off the list: the heap is good again with
   the new blocks, whose free ones are off the list, and no payload outside the stretch changed.
   */
  lemma SpliceGood(m: Mem, m': Mem, head: nat, bs: seq<Block>, free: seq<nat>, miss: set<nat>, miss': set<nat>, i: nat, k: nat, by_: seq<Block>)
    requires Good(m, head, bs, free, miss) && k > 0 && i + k <= |bs|
    requires Inside(m, m', bs[i].at, bs[i + k - 1].at + bs[i + k - 1].words) && TagsOk(m', by_)
    requires Row(by_, bs[i].at, bs[i + k - 1].at + bs[i + k - 1].words)
    requires forall q :: i <= q < i + k ==> bs[q].at !in free
    requires forall x :: x in miss ==> exists q :: i <= q < i + k && bs[q].at == x
    requires forall x :: x in miss' <==> FreeStart(by_, x)
    ensures Good(m', head, Splice(bs, i, k, by_), free, miss') && LiveSame(m, m', bs[..i] + bs[i + k..])
  {
    hide Row, TagsOk, Linked, FreeStart, Inside, LiveSame, Splice;
    SpliceTiles(bs, |m|, i, k, by_);
    SameLength(m, m', bs[i].at, bs[i + k - 1].at + bs[i + k - 1].words);
    SpliceTags(m, m', bs, i, k, by_);
    SpliceLive(m, m', bs, i, k);
    SpliceLinks(m, m', head, bs, free, i, k);
    var lo, hi := bs[i].at, bs[i + k - 1].at + bs[i + k - 1].words;
    forall q | i <= q < i + k ensures lo <= bs[q].at < hi { StartPlace(bs, |m|, i, k, q); }
    forall x: nat ensures x in free <==> FreeStart(Splice(bs, i, k, by_), x) && x !in miss' {
      SpliceStarts(bs, |m|, i, k, by_, x);
      if x in free { NotInside(bs, |m|, free, i, k, x); }
    }
  }

  lemma NotInside(bs: seq<Block>, n: nat, free: seq<nat>, i: nat, k: nat, x: nat)
    requires Tiling(bs, n) && k > 0 && i + k <= |bs| && (forall q :: i <= q < i + k ==> bs[q].at !in free) && x in free && FreeStart(bs, x)
    ensures !(bs[i].at <= x < bs[i + k - 1].at + bs[i + k - 1].words)
  {
    hide Row;
    var j :| 0 <= j < |bs| && bs[j].at == x && !bs[j].used;
    StartPlace(bs, n, i, k, j);
  }

  lemma SameLength(m: Mem, m': Mem, lo: nat, hi: nat)
    requires Inside(m, m', lo, hi)
    ensures |m'| == |m|
  {
  }

  // ----- adding up the list ----------------------------------------------------------------------------

  /** Words of the free block that starts at h. */
  ghost function SizeAt(bs: seq<Block>, h: nat): nat {
    if bs == [] then 0
    else
      var b := bs[|bs| - 1];
      if b.at == h && !b.used then b.words else SizeAt(bs[..|bs| - 1], h)
  }

  ghost function SumOf(bs: seq<Block>, free: seq<nat>): nat {
    if free == [] then 0 else SumOf(bs, free[..|free| - 1]) + SizeAt(bs, free[|free| - 1])
  }

  ghost predicate OwnStarts(bs: seq<Block>) { forall i, j :: 0 <= i < j < |bs| ==> bs[i].at + bs[i].words <= bs[j].at && bs[i].words > 0 }

  lemma {:induction false} SizeOfBlock(bs: seq<Block>, i: nat)
    requires OwnStarts(bs) && i < |bs| && !bs[i].used && bs[i].words > 0
    ensures SizeAt(bs, bs[i].at) == bs[i].words
    decreases |bs|
  {
    if i < |bs| - 1 { SizeOfBlock(bs[..|bs| - 1], i); }
  }

  lemma {:induction false} SumDrop(bs: seq<Block>, free: seq<nat>, k: nat)
    requires k < |free|
    ensures SumOf(bs, free) == SumOf(bs, Dropped(free, k)) + SizeAt(bs, free[k])
    decreases |free|
  {
    var l := |free| - 1;
    if k == l {
      assert Dropped(free, k) == free[..l];
    } else {
      SumDrop(bs, free[..l], k);
      assert Dropped(free, k)[..l - 1] == Dropped(free[..l], k);
      assert Dropped(free, k)[l - 1] == free[l];
    }
  }

  lemma {:induction false} SumEmpty(free: seq<nat>)
    ensures SumOf([], free) == 0
    decreases |free|
  {
    if free != [] { SumEmpty(free[..|free| - 1]); }
  }

  lemma {:induction false} SumFront(bs: seq<Block>, free: seq<nat>)
    requires |bs| > 0 && forall k :: 0 <= k < |free| ==> free[k] != bs[|bs| - 1].at || bs[|bs| - 1].used
    ensures SumOf(bs, free) == SumOf(bs[..|bs| - 1], free)
    decreases |free|
  {
    if free != [] {
      SumFront(bs, free[..|free| - 1]);
    }
  }

  /** If the list has exactly the free blocks, each once, it adds up to their words. */
  lemma {:induction false} ListSum(bs: seq<Block>, free: seq<nat>)
    requires Distinct(free) && Listed(free, bs, {}) && OwnStarts(bs)
    ensures SumOf(bs, free) == Words(bs, false)
    decreases |bs|
  {
    if bs == [] {
      SumEmpty(free);
    } else {
      var l := |bs| - 1;
      var b, front := bs[l], bs[..l];
      FrontStarts(bs);
      if b.used {
        SumFront(bs, free);
        ListSum(front, free);
      } else {
        assert bs[l].at == b.at;
        assert b.at in free;
        var k :| 0 <= k < |free| && free[k] == b.at;
        SumDrop(bs, free, k);
        DropListed(free, bs, {}, k);
        assert b.at !in Dropped(free, k);
        SumFront(bs, Dropped(free, k));
        ListSum(front, Dropped(free, k));
      }
    }
  }

  lemma FrontStarts(bs: seq<Block>)
    requires |bs| > 0 && OwnStarts(bs)
    ensures OwnStarts(bs[..|bs| - 1])
    ensures forall h :: FreeStart(bs[..|bs| - 1], h) <==> FreeStart(bs, h) && (bs[|bs| - 1].used || h != bs[|bs| - 1].at)
  {
    var l := |bs| - 1;
    var front := bs[..l];
    forall h ensures FreeStart(front, h) <==> FreeStart(bs, h) && (bs[l].used || h != bs[l].at) {
      if FreeStart(front, h) {
        var i :| 0 <= i < |front| && front[i].at == h && !front[i].used;
        assert bs[i] == front[i];
      }
      if FreeStart(bs, h) && (bs[l].used || h != bs[l].at) {
        var i :| 0 <= i < |bs| && bs[i].at == h && !bs[i].used;
        assert front[i] == bs[i];
      }
    }
  }
}
