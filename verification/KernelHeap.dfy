/**
 The kernel's allocator (kernel/kheap.c): kmalloc, kfree and krealloc over the memory words,
 proved against the row of blocks of HeapBlocks.
 */
module KernelHeap {
  import opened HeapBlocks
  import opened HeapMemory

  class Heap {
    const mem: array<nat>
    var head: nat
    ghost var blocks: seq<Block>
    ghost var free: seq<nat>

    /** The invariant while the blocks in miss are off the free list. */
    ghost predicate Partly(miss: set<nat>)
      reads this, mem
    {
      Good(mem[..], head, blocks, free, miss)
    }

    ghost predicate Valid()
      reads this, mem
    {
      Partly({}) && Merged(blocks)
    }

    /** p points to the payload of allocated block i. */
    ghost predicate Live(p: nat, i: nat)
      reads this
    {
      i < |blocks| && blocks[i].used && p == blocks[i].at + 1
    }

    method Store(i: nat, v: nat)
      requires i < mem.Length
      modifies mem
      ensures mem[..] == old(mem[..])[i := v]
    {
      mem[i] := v;
    }

    /** Writes header and footer of the block at h. */
    method SetTags(h: nat, v: nat)
      requires WordsOf(v) > 0 && h + WordsOf(v) <= mem.Length
      modifies mem
      ensures mem[..] == old(mem[..])[h := v][h + WordsOf(v) - 1 := v]
    {
      Store(h, v);
      Store(h + WordsOf(v) - 1, v);
    }

    /** kheap_initialize: one free block. The region is a whole number of pages. */
    constructor (words: nat)
      requires words >= MIN_WORDS && words % 2 == 0
      ensures Valid() && blocks == [Block(0, words, false)] && mem.Length == words && fresh(mem)
    {
      var m := new nat[words](i => 0);
      m[0] := Tag(words, false);
      m[words - 1] := Tag(words, false);
      m[1], m[2] := 0, 0;
      mem := m;
      head := 1;
      blocks := [Block(0, words, false)];
      free := [0];
      new;
      assert FreeStart(blocks, 0) by { assert blocks[0].at == 0; }
      assert Tagged(mem[..], blocks[0]);
      assert LinkedAt(mem[..], free, 0);
    }

    // ----- the free list --------------------------------------------------------------------------------

    /** free_list_remove of the block at h. */
    method Unlink(h: nat, ghost miss: set<nat>)
      requires Partly(miss) && h in free
      modifies mem, this`head, this`free
      ensures Partly(miss + {h}) && LiveSame(old(mem[..]), mem[..], blocks)
      ensures forall x :: x in free <==> x in old(free) && x != h
    {
      hide Row, TagsOk, LiveSame, FreeStart;
      ghost var k :| 0 <= k < |free| && free[k] == h;
      ghost var m := mem[..];
      assert LinkedAt(m, free, k) && m[h + 1] == mem[h + 1] && m[h + 2] == mem[h + 2];
      if k > 0 { assert LinkedAt(m, free, k - 1); }
      if k + 1 < |free| { assert LinkedAt(m, free, k + 1); }
      var prev, next := mem[h + 1], mem[h + 2];
      var head' := head;
      if prev != 0 { Store(prev + 1, next); } else { head' := next; }
      ghost var m1 := mem[..];
      if next != 0 { Store(next, prev); }
      DropGood(m, m1, mem[..], head, blocks, free, miss, k);
      DropMembers(free, k);
      head := head';
      free := Dropped(free, k);
    }

    static lemma DropMembers(free: seq<nat>, k: nat)
      requires Distinct(free) && k < |free|
      ensures forall x :: x in Dropped(free, k) <==> x in free && x != free[k]
    {
      forall x | x in free && x != free[k] ensures x in Dropped(free, k) {
        var q :| 0 <= q < |free| && free[q] == x;
        assert Dropped(free, k)[if q < k then q else q - 1] == x;
      }
    }

    /** free_list_insert of block i, whose tags say free already; the source writes them once more. */
    method Insert(h: nat, ghost i: nat, ghost miss: set<nat>)
      requires Partly(miss) && h in miss && i < |blocks| && blocks[i].at == h && !blocks[i].used
      modifies mem, this`head, this`free
      ensures Partly(miss - {h}) && free == [h] + old(free) && LiveSame(old(mem[..]), mem[..], blocks)
    {
      hide Good, LiveSame, FreeStart, SizeOf, UsedBit, WordsOf;
      ghost var m := mem[..];
      Fits(i, miss);
      HeadInside(miss);
      TagParts(blocks[i].words, false);
      assert m[h] == mem[h] == Tag(blocks[i].words, false) == m[h + blocks[i].words - 1];
      SetTags(h, SizeOf(mem[h]));
      assert mem[..] == m;
      Push(h);
      PushGood(m, mem[..], old(head), blocks, free, miss, h);
      free := [h] + free;
    }

    /** The link part of an insertion. */
    method Push(h: nat)
      requires h + 3 < mem.Length && head < mem.Length
      modifies mem, this`head
      ensures head == h + 1
      ensures var m := old(mem[..])[h + 1 := 0][h + 2 := old(head)];
        mem[..] == if old(head) != 0 then m[old(head) := h + 1] else m
    {
      Store(h + 1, 0);
      Store(h + 2, head);
      if head != 0 { Store(head, h + 1); }
      head := h + 1;
    }

    lemma HeadInside(miss: set<nat>)
      requires Partly(miss)
      ensures head < mem.Length
    {
      if |free| > 0 { assert LinkedAt(mem[..], free, 0); } else { RowSize(blocks, 0, mem.Length, 0); AllOrdered(blocks, 0, mem.Length); }
    }

    lemma Fits(i: nat, miss: set<nat>)
      requires Partly(miss) && i < |blocks|
      ensures blocks[i].words >= MIN_WORDS && blocks[i].at + blocks[i].words <= mem.Length && Tagged(mem[..], blocks[i])
      ensures !blocks[i].used ==> FreeStart(blocks, blocks[i].at)
    {
      RowSize(blocks, 0, mem.Length, i);
      AllOrdered(blocks, 0, mem.Length);
    }

    /** No free block at h has `total` bytes. */
    static ghost predicate TooSmall(bs: seq<Block>, h: nat, total: nat) {
      forall j :: 0 <= j < |bs| && bs[j].at == h && !bs[j].used ==> 4 * bs[j].words < total
    }

    /** The block at h is the first on the list that has `total` bytes. */
    static ghost predicate FirstFit(bs: seq<Block>, free: seq<nat>, h: nat, total: nat) {
      exists k :: 0 <= k < |free| && free[k] == h && forall q :: 0 <= q < k ==> TooSmall(bs, free[q], total)
    }

    /** find_fit: the first block on the list that is large enough. */
    method FindFit(total: nat) returns (found: bool, h: nat, ghost i: nat)
      requires Partly({})
      ensures found ==> h in free && i < |blocks| && blocks[i].at == h && !blocks[i].used && 4 * blocks[i].words >= total
      ensures found ==> FirstFit(blocks, free, h, total)
      ensures !found ==> forall j :: 0 <= j < |blocks| && !blocks[j].used ==> 4 * blocks[j].words < total
    {
      hide Good, TooSmall, SizeOf, UsedBit, WordsOf;
      var cur := head;
      ghost var k := 0;
      ListHead();
      while cur != 0
        invariant 0 <= k <= |free| && cur == Link(free, k)
        invariant forall q :: 0 <= q < k ==> TooSmall(blocks, free[q], total)
        decreases |free| - k
      {
        h := cur - 1;
        i := AtNode(k);
        TagParts(blocks[i].words, false);
        if !UsedBit(mem[h]) && SizeOf(mem[h]) >= total { return true, h, i; }
        OneTooSmall(i, total);
        cur := mem[cur + 1];
        k := k + 1;
      }
      NoneFits(total);
      return false, 0, 0;
    }

    lemma ListHead()
      requires Partly({})
      ensures head == Link(free, 0)
    {
    }

    /** The k-th node of the list: its block, its tag and its link. */
    lemma AtNode(k: nat) returns (i: nat)
      requires Partly({}) && k < |free|
      ensures i < |blocks| && blocks[i].at == free[k] && !blocks[i].used && free[k] + 2 < mem.Length
      ensures mem[free[k]] == Tag(blocks[i].words, false) && mem[free[k] + 2] == Link(free, k + 1)
    {
      assert LinkedAt(mem[..], free, k) && free[k] in free && FreeStart(blocks, free[k]);
      i :| 0 <= i < |blocks| && blocks[i].at == free[k] && !blocks[i].used;
      hide Row;
      Fits(i, {});
    }

    lemma OneTooSmall(i: nat, total: nat)
      requires Partly({}) && i < |blocks| && !blocks[i].used && 4 * blocks[i].words < total
      ensures TooSmall(blocks, blocks[i].at, total)
    {
      hide Row;
      forall j | 0 <= j < |blocks| && blocks[j].at == blocks[i].at && !blocks[j].used ensures 4 * blocks[j].words < total {
        Fits(j, {});
        Fits(i, {});
      }
    }

    lemma NoneFits(total: nat)
      requires Partly({}) && forall q :: 0 <= q < |free| ==> TooSmall(blocks, free[q], total)
      ensures forall j :: 0 <= j < |blocks| && !blocks[j].used ==> 4 * blocks[j].words < total
    {
      hide Row;
      forall j | 0 <= j < |blocks| && !blocks[j].used ensures 4 * blocks[j].words < total {
        Fits(j, {});
        assert blocks[j].at in free;
        var q :| 0 <= q < |free| && free[q] == blocks[j].at;
      }
    }

    // ----- tags -----------------------------------------------------------------------------------------

    /** Marks block i, which is not on the list, and writes its tags. */
    method Mark(h: nat, used: bool, ghost i: nat, ghost miss: set<nat>)
      requires i < |blocks| && blocks[i].at == h && blocks[i].used == !used && miss == (if used then {h} else {}) && Partly(miss)
      modifies mem, this`blocks
      ensures blocks == old(blocks)[i := old(blocks)[i].(used := used)] && Partly(if used then {} else {h})
      ensures LiveSame(old(mem[..]), mem[..], old(blocks)[..i] + old(blocks)[i + 1..])
    {
      hide Row, Linked, LiveSame, SizeOf, UsedBit, WordsOf;
      ghost var m, b := mem[..], blocks[i];
      Fits(i, miss);
      assert m[h] == mem[h];
      TagParts(b.words, !used);
      TagParts(b.words, used);
      var v := SizeOf(mem[h]) + (if used then 1 else 0);
      SetTags(h, v);
      ghost var by_ := [b.(used := used)];
      OneRow(i, miss, m, used);
      assert Tagged(mem[..], by_[0]);
      OffList(i, miss, m);
      OneStart(by_[0]);
      SpliceGood(m, mem[..], head, blocks, free, miss, if used then {} else {h}, i, 1, by_);
      assert Splice(blocks, i, 1, by_) == blocks[i := by_[0]];
      blocks := blocks[i := by_[0]];
    }

    lemma OneRow(i: nat, miss: set<nat>, m: Mem, used: bool)
      requires Good(m, head, blocks, free, miss) && i < |blocks|
      ensures Row([blocks[i].(used := used)], blocks[i].at, blocks[i].at + blocks[i].words)
    {
      RowSize(blocks, 0, |m|, i);
    }

    static lemma OneStart(b: Block)
      ensures forall x :: FreeStart([b], x) <==> x == b.at && !b.used
    {
      forall x ensures FreeStart([b], x) <==> x == b.at && !b.used {
        if x == b.at && !b.used { assert [b][0].at == x; }
      }
    }

    /** Allocated blocks and blocks in miss are not on the list. */
    lemma OffList(i: nat, miss: set<nat>, m: Mem)
      requires Good(m, head, blocks, free, miss) && i < |blocks| && (blocks[i].used || blocks[i].at in miss)
      ensures blocks[i].at !in free
    {
      hide Row;
      forall j | 0 <= j < |blocks| && blocks[j].at == blocks[i].at ensures j == i { StartPlace(blocks, |m|, i, 1, j); RowSize(blocks, 0, |m|, i); }
    }

    /** Writes the tags of an allocated block and of a free one behind it. */
    method TwoTags(h: nat, total: nat, rem: nat)
      requires total >= MIN_WORDS && rem >= MIN_WORDS && h + total + rem <= mem.Length
      modifies mem
      ensures Inside(old(mem[..]), mem[..], h, h + total + rem)
      ensures TagsOk(mem[..], [Block(h, total, true), Block(h + total, rem, false)])
    {
      hide SizeOf, UsedBit, WordsOf, Tag;
      TagParts(total, true);
      TagParts(rem, false);
      SetTags(h, Tag(total, true));
      SetTags(h + total, Tag(rem, false));
      assert Tagged(mem[..], Block(h, total, true)) && Tagged(mem[..], Block(h + total, rem, false));
    }

    /** Cuts block i, which is off the list, into an allocated front and a free rest. */
    method Split(h: nat, total: nat, ghost i: nat)
      requires Partly({h}) && i < |blocks| && blocks[i].at == h && !blocks[i].used
      requires MIN_WORDS <= total <= blocks[i].words - MIN_WORDS && total % 2 == 0
      modifies mem, this`blocks
      ensures blocks == Take(old(blocks), i, total) && Partly({h + total})
      ensures LiveSame(old(mem[..]), mem[..], old(blocks)[..i] + old(blocks)[i + 1..])
    {
      hide Row, Linked, LiveSame, SizeOf, UsedBit, WordsOf, Inside, TagsOk;
      ghost var m, b := mem[..], blocks[i];
      Fits(i, {h});
      assert m[h] == mem[h];
      TagParts(b.words, false);
      var rem := WordsOf(SizeOf(mem[h])) - total;
      TwoTags(h, total, rem);
      ghost var by_ := [Block(h, total, true), Block(h + total, rem, false)];
      RowSize(blocks, 0, |m|, i);
      TwoRow(h, total, b.words);
      OffList(i, {h}, m);
      TwoStarts(by_);
      SpliceGood(m, mem[..], head, blocks, free, {h}, {h + total}, i, 1, by_);
      blocks := Take(blocks, i, total);
    }

    static lemma TwoStarts(bs: seq<Block>)
      requires |bs| == 2 && bs[0].used && !bs[1].used
      ensures forall x :: FreeStart(bs, x) <==> x == bs[1].at
    {
    }

    /** Writes the tags of two free blocks made one. */
    method JoinTags(h: nat, n: nat, ghost a: nat, ghost b: nat)
      requires a > 0 && b > 0 && n == h + a && h + a + b <= mem.Length && mem[h] == Tag(a, false) && mem[n] == Tag(b, false)
      modifies mem
      ensures Inside(old(mem[..]), mem[..], h, h + a + b) && TagsOk(mem[..], [Block(h, a + b, false)])
    {
      hide SizeOf, UsedBit, WordsOf;
      TagParts(a, false);
      TagParts(b, false);
      TagParts(a + b, false);
      SetTags(h, SizeOf(mem[h]) + SizeOf(mem[n]));
      assert Tagged(mem[..], Block(h, a + b, false));
    }

    /** Makes blocks i and i+1, both free and off the list, one block. */
    method Merge(h: nat, n: nat, ghost i: nat)
      requires i + 1 < |blocks| && !blocks[i].used && !blocks[i + 1].used
      requires blocks[i].at == h && blocks[i + 1].at == n && Partly({h, n})
      modifies mem, this`blocks
      ensures blocks == Join(old(blocks), i) && Partly({h})
      ensures LiveSame(old(mem[..]), mem[..], blocks)
    {
      hide Row, Linked, LiveSame, SizeOf, UsedBit, WordsOf, Inside, TagsOk, Join, Splice;
      ghost var m, bs := mem[..], blocks;
      ghost var a, b := blocks[i].words, blocks[i + 1].words;
      Fits(i, {h, n});
      Fits(i + 1, {h, n});
      Adjacent(i, {h, n});
      assert m[h] == mem[h] && m[n] == mem[n];
      JoinTags(h, n, a, b);
      ghost var by_ := [Block(h, a + b, false)];
      JoinedRow(i, {h, n}, m);
      OffList(i, {h, n}, m);
      OffList(i + 1, {h, n}, m);
      OneStart(by_[0]);
      SpliceGood(m, mem[..], head, blocks, free, {h, n}, {h}, i, 2, by_);
      JoinIs(blocks, i);
      blocks := Join(blocks, i);
      JoinLive(bs, i);
      LiveSameBlocks(m, mem[..], bs[..i] + bs[i + 2..], blocks);
    }

    lemma Adjacent(i: nat, miss: set<nat>)
      requires Partly(miss) && i + 1 < |blocks|
      ensures blocks[i + 1].at == blocks[i].at + blocks[i].words
    {
      assert Follows(blocks, i + 1);
    }

    lemma JoinedRow(i: nat, miss: set<nat>, m: Mem)
      requires Good(m, head, blocks, free, miss) && i + 1 < |blocks|
      ensures Row([Block(blocks[i].at, blocks[i].words + blocks[i + 1].words, false)], blocks[i].at, blocks[i + 1].at + blocks[i + 1].words)
    {
      assert Follows(blocks, i + 1);
      RowSize(blocks, 0, |m|, i);
      RowSize(blocks, 0, |m|, i + 1);
    }

    static lemma JoinIs(bs: seq<Block>, i: nat)
      requires i + 1 < |bs|
      ensures Join(bs, i) == Splice(bs, i, 2, [Block(bs[i].at, bs[i].words + bs[i + 1].words, false)])
    {
    }

    /** The allocated blocks are the same after a merge of free ones. */
    static lemma JoinLive(bs: seq<Block>, i: nat)
      requires i + 1 < |bs| && !bs[i].used && !bs[i + 1].used
      ensures forall b :: b in Join(bs, i) && b.used ==> b in bs[..i] + bs[i + 2..]
      ensures forall b :: b in bs && b.used ==> b in Join(bs, i)
    {
      forall b | b in bs && b.used ensures b in Join(bs, i) {
        var j :| 0 <= j < |bs| && bs[j] == b;
        assert Join(bs, i)[if j < i then j else j - 1] == b;
      }
    }

    // ----- the interface ----------------------------------------------------------------------------------

    /**
     kmalloc. It fails only if no free block is large enough; otherwise the row of blocks changes
     as Take says for the first free block on the list that fits, and no allocated payload changes.
     */
    method Kmalloc(size: nat) returns (p: nat, ghost i: nat)
      requires Valid() && size < U32
      modifies mem, this`head, this`free, this`blocks
      ensures Valid() && LiveSame(old(mem[..]), mem[..], old(blocks))
      ensures p == 0 <==> size == 0 || forall j :: 0 <= j < |old(blocks)| && !old(blocks)[j].used ==> 4 * old(blocks)[j].words < Total(size)
      ensures 0 < size <= U32 - 16 ==> (p == 0 <==> NoFit(old(blocks), size))
      ensures size > U32 - 16 ==> (p == 0 <==> forall j :: 0 <= j < |old(blocks)| ==> old(blocks)[j].used)
      ensures p == 0 ==> mem[..] == old(mem[..]) && blocks == old(blocks)
      ensures p != 0 && size <= U32 - 16 ==> i < |blocks| && size <= 4 * blocks[i].words - 8 < size + 16
      ensures p != 0 ==>
        && i < |old(blocks)| && !old(blocks)[i].used && 4 * old(blocks)[i].words >= Total(size)
        && FirstFit(old(blocks), old(free), old(blocks)[i].at, Total(size))
        && blocks == Take(old(blocks), i, Total(size) / 4) && Live(p, i)
    {
      hide Good, LiveSame, Total, Merged, SizeOf, UsedBit, WordsOf, FirstFit, Tiling, Tagged;
      i := 0;
      ghost var m0, bs := mem[..], blocks;
      LiveSameRefl(m0, bs);
      if size == 0 { return 0, 0; }
      var total := Total(size);
      TotalWords(size);
      FitMeans(size);
      Tiles({});
      var found, h;
      found, h, i := FindFit(total);
      if !found { return 0, i; }
      Carve(h, total, i);
      if size <= U32 - 16 { EvenWords(bs, i); TakenTight(bs, i, size); }
      p := h + 1;
    }

    /** The free block i at h becomes allocated, split if the rest is large enough for a block. */
    method Carve(h: nat, total: nat, ghost i: nat)
      requires Valid() && h in free && i < |blocks| && blocks[i].at == h && !blocks[i].used && 4 * blocks[i].words >= total
      requires total / 4 >= MIN_WORDS && total / 4 % 2 == 0 && 4 * (total / 4) == total
      modifies mem, this`head, this`free, this`blocks
      ensures Valid() && LiveSame(old(mem[..]), mem[..], old(blocks))
      ensures blocks == Take(old(blocks), i, total / 4) && Live(h + 1, i)
    {
      hide Good, LiveSame, Total, Merged, SizeOf, UsedBit, WordsOf, FirstFit, Tiling, Tagged;
      ghost var m0, bs := mem[..], blocks;
      Fits(i, {});
      TakeMerges(bs, i, total / 4);
      Unlink(h, {});
      assert {} + {h} == {h};
      ghost var m1 := mem[..];
      Fits(i, {h});
      assert m1[h] == mem[h];
      TagParts(blocks[i].words, false);
      var cur := SizeOf(mem[h]);
      var rem := if cur > total then cur - total else 0;
      LiveRest(bs, i);
      if rem >= 4 * MIN_WORDS {
        Split(h, total / 4, i);
        LiveSameBlocks(m1, mem[..], bs[..i] + bs[i + 1..], bs);
        ghost var m2 := mem[..];
        assert blocks[i + 1].at == h + total / 4;
        Insert(h + total / 4, i + 1, {h + total / 4});
        assert {h + total / 4} - {h + total / 4} == {};
        TakeLive(bs, i, total / 4);
        LiveSameBlocks(m2, mem[..], blocks, bs);
        LiveSameVia(m1, m2, mem[..], bs);
      } else {
        Mark(h, true, i, {h});
        LiveSameBlocks(m1, mem[..], bs[..i] + bs[i + 1..], bs);
      }
      LiveSameVia(m0, m1, mem[..], bs);
    }

    lemma EvenWords(bs: seq<Block>, i: nat)
      requires Tiling(bs, mem.Length) && i < |bs|
      ensures bs[i].words % 2 == 0 && bs[i].words >= 4
    {
    }

    /** What it takes for a free block to be large enough, in bytes of payload. */
    lemma FitMeans(size: nat)
      requires Partly({}) && 0 < size < U32
      ensures size <= U32 - 16 ==>
        (NoFit(blocks, size) <==> forall j :: 0 <= j < |blocks| && !blocks[j].used ==> 4 * blocks[j].words < Total(size))
      ensures size > U32 - 16 ==>
        ((forall j :: 0 <= j < |blocks| ==> blocks[j].used) <==>
         forall j :: 0 <= j < |blocks| && !blocks[j].used ==> 4 * blocks[j].words < Total(size))
    {
      hide Total;
      Tiles({});
      if size > U32 - 16 { TotalWraps(size); }
      forall j | 0 <= j < |blocks|
        ensures blocks[j].words >= 4
        ensures size <= U32 - 16 ==> (4 * blocks[j].words >= Total(size) <==> 4 * blocks[j].words - 8 >= size)
      {
        EvenWords(blocks, j);
        if size <= U32 - 16 { TotalLeast(size, 4 * blocks[j].words); }
      }
    }

    static lemma LiveSameRefl(m: Mem, bs: seq<Block>)
      ensures LiveSame(m, m, bs)
    {
    }

    static lemma TotalWords(size: nat)
      ensures Total(size) / 4 >= MIN_WORDS && Total(size) / 4 % 2 == 0 && 4 * (Total(size) / 4) == Total(size)
    {
    }

    static lemma LiveRest(bs: seq<Block>, i: nat)
      requires i < |bs| && !bs[i].used
      ensures forall b :: b in bs && b.used ==> b in bs[..i] + bs[i + 1..]
    {
    }

    static lemma TakeLive(bs: seq<Block>, i: nat, total: nat)
      requires i < |bs| && !bs[i].used && total <= bs[i].words
      ensures forall b :: b in bs && b.used ==> b in Take(bs, i, total)
    {
      var t := Take(bs, i, total);
      forall b | b in bs && b.used ensures b in t {
        var j :| 0 <= j < |bs| && bs[j] == b;
        assert t[if j < i then j else if bs[i].words - total >= MIN_WORDS then j + 1 else j] == b;
      }
    }

    /** What follows block i in memory: the end of the region, or the next block. */
    lemma NextAt(i: nat, miss: set<nat>)
      requires Partly(miss) && i < |blocks|
      ensures blocks[i].at + blocks[i].words == mem.Length <==> i + 1 == |blocks|
      ensures i + 1 < |blocks| ==> blocks[i + 1].at == blocks[i].at + blocks[i].words
    {
      if i + 1 < |blocks| {
        Adjacent(i, miss);
        Fits(i + 1, miss);
      }
    }

    /** Merges blocks i and i+1; one of them is off the list already, the other one is at x. */
    method Absorb(h: nat, n: nat, x: nat, ghost i: nat)
      requires i + 1 < |blocks| && blocks[i].at == h && blocks[i + 1].at == n && !blocks[i].used && !blocks[i + 1].used
      requires h != n && (x == h || x == n) && Partly({if x == h then n else h})
      modifies mem, this`head, this`free, this`blocks
      ensures blocks == Join(old(blocks), i) && Partly({h}) && LiveSame(old(mem[..]), mem[..], blocks)
    {
      hide Good, LiveSame, SizeOf, UsedBit, WordsOf;
      ghost var m, bs := mem[..], blocks;
      ghost var other := if x == h then n else h;
      OnList(if x == h then i else i + 1, {other});
      Unlink(x, {other});
      assert {other} + {x} == {h, n};
      ghost var m1 := mem[..];
      Merge(h, n, i);
      JoinLive(bs, i);
      LiveSameBlocks(m, m1, bs, blocks);
      LiveSameVia(m, m1, mem[..], blocks);
    }

    /** The tags around block i: its own, that of the next block, and the footer of the one before. */
    lemma TagsAround(i: nat, miss: set<nat>)
      requires Partly(miss) && i < |blocks|
      ensures blocks[i].at + blocks[i].words <= mem.Length && blocks[i].words > 0 && mem[blocks[i].at] == Tag(blocks[i].words, blocks[i].used)
      ensures i + 1 < |blocks| <==> blocks[i].at + blocks[i].words < mem.Length
      ensures i + 1 < |blocks| ==>
        blocks[i + 1].at == blocks[i].at + blocks[i].words && mem[blocks[i + 1].at] == Tag(blocks[i + 1].words, blocks[i + 1].used)
      ensures i > 0 <==> blocks[i].at > 0
      ensures i > 0 ==>
        var p := blocks[i - 1];
        p.words > 0 && p.at + p.words == blocks[i].at && mem[blocks[i].at - 1] == Tag(p.words, p.used) == mem[p.at]
    {
      hide Good;
      Fits(i, miss);
      NextAt(i, miss);
      if i + 1 < |blocks| { Fits(i + 1, miss); }
      if i > 0 {
        Fits(i - 1, miss);
        NextAt(i - 1, miss);
      } else {
        AtZero(miss);
      }
    }

    lemma AtZero(miss: set<nat>)
      requires Partly(miss)
      ensures |blocks| > 0 && blocks[0].at == 0
    {
    }

    /** The part of coalesce_neighbors about the following block. */
    method MergeNext(h: nat, ghost i: nat)
      requires Partly({h}) && i < |blocks| && blocks[i].at == h && !blocks[i].used
      modifies mem, this`head, this`free, this`blocks
      ensures blocks == JoinRight(old(blocks), i) && Partly({h}) && i < |blocks| && blocks[i].at == h && !blocks[i].used
      ensures LiveSame(old(mem[..]), mem[..], blocks)
    {
      hide Good, LiveSame, SizeOf, UsedBit, WordsOf, Tag;
      TagsAround(i, {h});
      TagParts(blocks[i].words, false);
      var n := h + WordsOf(SizeOf(mem[h]));
      LiveSameRefl(mem[..], blocks);
      if n < mem.Length {
        TagParts(blocks[i + 1].words, blocks[i + 1].used);
        if !UsedBit(mem[n]) { Absorb(h, n, n, i); }
      }
    }

    /** A free block outside miss is on the list. */
    lemma OnList(i: nat, miss: set<nat>)
      requires Partly(miss) && i < |blocks| && !blocks[i].used && blocks[i].at !in miss
      ensures blocks[i].at in free
    {
      assert FreeStart(blocks, blocks[i].at);
    }

    /** The part of coalesce_neighbors about the block before, found through its footer. */
    method MergePrev(h: nat, ghost i: nat) returns (h': nat, ghost i': nat)
      requires Partly({h}) && i < |blocks| && blocks[i].at == h && !blocks[i].used
      modifies mem, this`head, this`free, this`blocks
      ensures blocks == JoinLeft(old(blocks), i) && Partly({h'}) && i' < |blocks| && blocks[i'].at == h' && !blocks[i'].used
      ensures LiveSame(old(mem[..]), mem[..], blocks)
    {
      hide Good, LiveSame, SizeOf, UsedBit, WordsOf, Tag;
      h', i' := h, i;
      TagsAround(i, {h});
      LiveSameRefl(mem[..], blocks);
      if h > 0 {
        TagParts(blocks[i - 1].words, blocks[i - 1].used);
        TagParts(blocks[i - 1].words, false);
        var size := WordsOf(SizeOf(mem[h - 1]));
        if size <= h && !UsedBit(mem[h - size]) {
          var q := h - size;
          Absorb(q, h, q, i - 1);
          h', i' := q, i - 1;
        }
      }
    }

    /** kfree of a live payload, or of NULL: Release, and no other payload changes. */
    method Kfree(p: nat, ghost i: nat)
      requires Valid() && (p == 0 || Live(p, i))
      modifies mem, this`head, this`free, this`blocks
      ensures Valid() && LiveSame(old(mem[..]), mem[..], blocks)
      ensures p == 0 ==> blocks == old(blocks) && mem[..] == old(mem[..])
      ensures p != 0 ==> blocks == Release(old(blocks), i)
    {
      hide Good, LiveSame, Merged, JoinLeft, JoinRight, Tiling;
      LiveSameRefl(mem[..], blocks);
      if p == 0 { return; }
      ghost var m, bs := mem[..], blocks;
      var h := p - 1;
      Tiles({});
      ReleaseKeeps(bs, mem.Length, i);
      Mark(h, false, i, {});
      ghost var m1, freed := mem[..], blocks;
      MergeNext(h, i);
      ghost var m2, right := mem[..], blocks;
      ghost var k;
      h, k := MergePrev(h, i);
      ghost var m3 := mem[..];
      Insert(h, k, {h});
      assert {h} - {h} == {};
      ReleaseLive(bs, i);
      LiveSameBlocks(m, m1, bs[..i] + bs[i + 1..], blocks);
      LiveSameBlocks(m1, m2, right, blocks);
      LiveSameVia(m, m1, m2, blocks);
      LiveSameVia(m, m2, m3, blocks);
      LiveSameVia(m, m3, mem[..], blocks);
    }

    lemma Tiles(miss: set<nat>)
      requires Partly(miss)
      ensures Tiling(blocks, mem.Length)
    {
    }

    /** Releasing block i leaves exactly the other allocated blocks. */
    static lemma ReleaseLive(bs: seq<Block>, i: nat)
      requires i < |bs| && bs[i].used
      ensures forall b :: b in Release(bs, i) && b.used ==> b in JoinRight(bs[i := bs[i].(used := false)], i) && b in bs[..i] + bs[i + 1..]
      ensures forall b :: b in bs[..i] + bs[i + 1..] && b.used ==> b in Release(bs, i)
    {
      hide Join;
      var freed := bs[i := bs[i].(used := false)];
      var right := JoinRight(freed, i);
      FlagLive(bs, i);
      if JoinsNext(freed, i) { JoinLive(freed, i); JoinFront(freed, i); }
      if JoinsPrev(right, i) { JoinLive(right, i - 1); }
      forall b | b in Release(bs, i) && b.used ensures b in right && b in freed { }
    }

    static lemma JoinFront(bs: seq<Block>, i: nat)
      requires i + 1 < |bs|
      ensures i < |Join(bs, i)| && !Join(bs, i)[i].used && forall j :: 0 <= j < i ==> Join(bs, i)[j] == bs[j]
    {
    }

    static lemma FlagLive(bs: seq<Block>, i: nat)
      requires i < |bs|
      ensures var freed := bs[i := bs[i].(used := false)];
        forall b: Block :: b.used ==> (b in freed <==> b in bs[..i] + bs[i + 1..])
    {
      var freed, rest := bs[i := bs[i].(used := false)], bs[..i] + bs[i + 1..];
      forall b: Block | b.used ensures b in freed <==> b in rest {
        if b in freed {
          var j :| 0 <= j < |freed| && freed[j] == b;
          assert rest[if j < i then j else j - 1] == b;
        }
        if b in rest {
          var j :| 0 <= j < |rest| && rest[j] == b;
          assert freed[if j < i then j else j + 1] == b;
        }
      }
    }

    // ----- resizing -------------------------------------------------------------------------------------

    /** Writing into the payload of an allocated block keeps the invariant and the other payloads. */
    lemma PayloadGood(m: Mem, m': Mem, k: nat)
      requires Good(m, head, blocks, free, {}) && k < |blocks| && blocks[k].used
      requires Inside(m, m', blocks[k].at + 1, blocks[k].at + blocks[k].words - 1)
      ensures Good(m', head, blocks, free, {}) && LiveSame(m, m', blocks[..k] + blocks[k + 1..])
    {
      hide Row, Linked, LiveSame, FreeStart;
      var b := blocks[k];
      RowSize(blocks, 0, |m|, k);
      OneRow(k, {}, m, true);
      OffList(k, {}, m);
      OneStart(b);
      assert Tagged(m, b);
      assert Tagged(m', [b][0]);
      SpliceGood(m, m', head, blocks, free, {}, {}, k, 1, [b]);
      assert Splice(blocks, k, 1, [b]) == blocks;
    }

    /** memcpy of n words into the payload of block k. */
    method Copy(to: nat, from: nat, n: nat, ghost k: nat)
      requires Partly({}) && Live(to, k) && n + 2 <= blocks[k].words && from + n <= mem.Length && (from + n <= blocks[k].at || to + n < from)
      modifies mem
      ensures Partly({}) && LiveSame(old(mem[..]), mem[..], blocks[..k] + blocks[k + 1..])
      ensures to + n <= mem.Length && mem[to..to + n] == old(mem[from..from + n])
    {
      hide Good, LiveSame, Tagged;
      ghost var m := mem[..];
      Fits(k, {});
      for w := 0 to n
        invariant Inside(m, mem[..], to, to + n)
        invariant mem[to..to + w] == m[from..from + w]
      {
        assert mem[from + w] == mem[..][from + w] == m[from + w];
        Store(to + w, mem[from + w]);
        assert mem[to..to + w + 1] == mem[..][to..to + w + 1] == m[from..from + w + 1];
      }
      assert Inside(m, mem[..], blocks[k].at + 1, blocks[k].at + blocks[k].words - 1);
      PayloadGood(m, mem[..], k);
    }

    /** The index of block i after an allocation took block j. */
    static ghost function Moved(bs: seq<Block>, j: nat, total: nat, i: nat): (k: nat)
      requires j < |bs| && !bs[j].used && total <= bs[j].words && i < |bs| && bs[i].used
      ensures k < |Take(bs, j, total)| && Take(bs, j, total)[k] == bs[i] && k != j
    {
      if j < i && bs[j].words - total >= MIN_WORDS then i + 1 else i
    }

    /** The words of a block between its tags. */
    static function Payload(m: Mem, b: Block): (s: seq<nat>) {
      if 2 <= b.words && b.at + b.words <= |m| then m[b.at + 1..b.at + b.words - 1] else []
    }

    static lemma PayloadSame(m: Mem, m': Mem, bs: seq<Block>, b: Block)
      requires LiveSame(m, m', bs) && b in bs && b.used
      ensures Payload(m', b) == Payload(m, b)
    {
    }

    /** The outcome of krealloc for an allocated block b that has to grow. */
    static ghost predicate Grew(m: Mem, bs: seq<Block>, m': Mem, bs': seq<Block>, b: Block, p: nat, size: nat) {
      exists k :: 0 <= k < |bs'| && bs'[k].used && bs'[k].at + 1 == p && 4 * bs'[k].words - 8 >= size && Payload(m, b) <= Payload(m', bs'[k])
    }

    /** No free block is large enough for the request. */
    static ghost predicate NoFit(bs: seq<Block>, size: nat) {
      forall j :: 0 <= j < |bs| && !bs[j].used ==> 4 * bs[j].words - 8 < size
    }

    /** p points to a payload of at least `size` bytes. */
    static ghost predicate Holds(bs: seq<Block>, p: nat, size: nat) {
      exists k :: 0 <= k < |bs| && bs[k].used && bs[k].at + 1 == p && 4 * bs[k].words - 8 >= size
    }

    /**
     krealloc. Growing moves the payload to a new block and frees the old one; if there is no
     room nothing changes. The size is one for which kmalloc's sum does not wrap around.
     */
    method Krealloc(p: nat, size: nat, ghost i: nat) returns (r: nat)
      requires Valid() && (p == 0 || Live(p, i)) && size <= U32 - 16
      modifies mem, this`head, this`free, this`blocks
      ensures Valid()
      ensures p == 0 ==> (r == 0 <==> size == 0 || NoFit(old(blocks), size)) && (r != 0 ==> Holds(blocks, r, size))
      ensures p != 0 && size > 4 * old(blocks)[i].words - 8 ==> (r == 0 <==> NoFit(old(blocks), size))
      ensures p != 0 && size == 0 ==> r == 0 && blocks == Release(old(blocks), i)
      ensures p != 0 && 0 < size <= 4 * old(blocks)[i].words - 8 ==> r == p && mem[..] == old(mem[..]) && blocks == old(blocks)
      ensures p != 0 && size > 4 * old(blocks)[i].words - 8 ==>
        if r == 0 then mem[..] == old(mem[..]) && blocks == old(blocks)
        else Grew(old(mem[..]), old(blocks), mem[..], blocks, old(blocks)[i], r, size)
      ensures forall b :: b in old(blocks) && b.used && !(p != 0 && b == old(blocks)[i]) ==>
        b in blocks && Payload(mem[..], b) == Payload(old(mem[..]), b)
    {
      hide Good, LiveSame, Merged, Release, Take, Total, Payload, SizeOf, UsedBit, WordsOf, Grew;
      ghost var m0, bs := mem[..], blocks;
      if p != 0 { Fits(i, {}); }
      if p == 0 {
        ghost var j;
        r, j := Kmalloc(size);
        if r != 0 { TakeLive(bs, j, Total(size) / 4); TotalWords(size); TakenSize(bs, j, size); }
        forall b | b in bs && b.used ensures Payload(mem[..], b) == Payload(m0, b) { PayloadSame(m0, mem[..], bs, b); }
        return;
      }
      if size == 0 {
        Kfree(p, i);
        AfterRelease(m0, mem[..], bs, i, mem.Length);
        return 0;
      }
      TagParts(blocks[i].words, true);
      assert mem[p - 1] == m0[p - 1];
      var old_ := SizeOf(mem[p - 1]) - 8;
      if size <= old_ { return p; }
      r := Grow(p, size, old_ / 4, i);
    }

    /** Allocates, copies, frees. */
    method Grow(p: nat, size: nat, n: nat, ghost i: nat) returns (r: nat)
      requires Valid() && Live(p, i) && size <= U32 - 16 && size > 4 * blocks[i].words - 8 && n + 2 == blocks[i].words
      modifies mem, this`head, this`free, this`blocks
      ensures Valid() && (r == 0 <==> NoFit(old(blocks), size))
      ensures r == 0 ==> mem[..] == old(mem[..]) && blocks == old(blocks)
      ensures r != 0 ==> Grew(old(mem[..]), old(blocks), mem[..], blocks, old(blocks)[i], r, size)
      ensures forall b :: b in old(blocks) && b.used && b != old(blocks)[i] ==> b in blocks && Payload(mem[..], b) == Payload(old(mem[..]), b)
    {
      hide Good, LiveSame, Merged, Release, Take, Total, Payload, Grew;
      ghost var m0, bs := mem[..], blocks;
      ghost var j;
      Fits(i, {});
      Tiles({});
      r, j := Kmalloc(size);
      if r == 0 { return; }
      Fits(j, {});
      LiveStarts(bs, mem.Length, j);
      ghost var m1, b1, t := mem[..], blocks, Total(size) / 4;
      TotalWords(size);
      TakeLive(bs, j, t);
      ghost var i1 := Moved(bs, j, t, i);
      TakenSize(bs, j, size);
      Apart(i1, j);
      Copy(r, p, n, j);
      ghost var m2 := mem[..];
      Kfree(p, i1);
      GrowEnd(m0, bs, m1, b1, m2, mem[..], i, i1, j, p, r, n, size, mem.Length);
    }

    /** No allocated block starts where a free one does. */
    static lemma LiveStarts(bs: seq<Block>, n: nat, j: nat)
      requires Tiling(bs, n) && j < |bs| && !bs[j].used
      ensures forall b :: b in bs && b.used ==> b.at != bs[j].at
    {
      hide Row;
      forall b | b in bs && b.used ensures b.at != bs[j].at {
        var i :| 0 <= i < |bs| && bs[i] == b;
        StartPlace(bs, n, j, 1, i);
        RowSize(bs, 0, n, j);
      }
    }

    static lemma TakenSize(bs: seq<Block>, j: nat, size: nat)
      requires j < |bs| && 4 * bs[j].words >= Total(size) && size <= U32 - 16
      ensures var b := Take(bs, j, Total(size) / 4);
        j < |b| && b[j].used && 4 * b[j].words - 8 >= size && b[j].at == bs[j].at
    {
      TotalWords(size);
      TotalExact(size);
    }

    /** Two different blocks do not overlap. */
    lemma Apart(i: nat, j: nat)
      requires Partly({}) && i < |blocks| && j < |blocks| && i != j
      ensures blocks[i].at + blocks[i].words <= mem.Length
      ensures blocks[i].at + blocks[i].words <= blocks[j].at || blocks[j].at + blocks[j].words <= blocks[i].at
    {
      AllOrdered(blocks, 0, mem.Length);
      hide Row;
    }

    static lemma AfterRelease(m: Mem, m': Mem, bs: seq<Block>, i: nat, n: nat)
      requires i < |bs| && bs[i].used && LiveSame(m, m', Release(bs, i))
      ensures forall b :: b in bs && b.used && b != bs[i] ==> b in Release(bs, i) && Payload(m', b) == Payload(m, b)
    {
      hide Release, LiveSame, Payload;
      ReleaseLive(bs, i);
      forall b | b in bs && b.used && b != bs[i] ensures b in Release(bs, i) && Payload(m', b) == Payload(m, b) {
        OtherIn(bs, i, b);
        PayloadSame(m, m', Release(bs, i), b);
      }
    }

    static lemma OtherIn(bs: seq<Block>, i: nat, b: Block)
      requires i < |bs| && b in bs && b != bs[i]
      ensures b in bs[..i] + bs[i + 1..]
    {
    }

    /** The copy and the payloads of all other blocks survive the final release. */
    static lemma GrowEnd(m0: Mem, bs: seq<Block>, m1: Mem, b1: seq<Block>, m2: Mem, m3: Mem, i: nat, i1: nat, j: nat,
                         p: nat, r: nat, n: nat, size: nat, len: nat)
      requires |m0| == |m1| == |m2| == |m3| == len && i < |bs| && bs[i].used && i1 < |b1| && b1[i1] == bs[i] && j < |b1| &&
        b1[j].used && b1[j] != bs[i]
      requires p == bs[i].at + 1 && r == b1[j].at + 1 && n + 2 == bs[i].words && 4 * b1[j].words - 8 >= size && size > 4 * bs[i].words - 8
      requires bs[i].at + bs[i].words <= len && b1[j].at + b1[j].words <= len
      requires (forall b :: b in bs && b.used ==> b in b1 && b != b1[j])
      requires LiveSame(m0, m1, bs) && LiveSame(m1, m2, b1[..j] + b1[j + 1..]) && m2[r..r + n] == m1[p..p + n] && LiveSame(m2, m3, Release(b1, i1))
      ensures Grew(m0, bs, m3, Release(b1, i1), bs[i], r, size)
      ensures forall b :: b in bs && b.used && b != bs[i] ==> b in Release(b1, i1) && Payload(m3, b) == Payload(m0, b)
    {
      hide Release, LiveSame;
      AfterRelease(m2, m3, b1, i1, len);
      forall b | b in bs && b.used ensures Payload(m2, b) == Payload(m0, b) {
        PayloadSame(m0, m1, bs, b);
        OtherIn(b1, j, b);
        PayloadSame(m1, m2, b1[..j] + b1[j + 1..], b);
      }
      PayloadSame(m0, m1, bs, bs[i]);
      assert Payload(m3, b1[j]) == Payload(m2, b1[j]);
      var k :| 0 <= k < |Release(b1, i1)| && Release(b1, i1)[k] == b1[j];
      assert Payload(m2, b1[j])[..n] == m2[r..r + n];
      assert Payload(m1, bs[i]) == m1[p..p + n];
    }

    // ----- accounting ------------------------------------------------------------------------------------

    /** kheap_free_bytes: the list adds up to the free part of the region. */
    method FreeBytes() returns (sum: nat)
      requires Valid()
      ensures sum == 4 * Words(blocks, false) && sum + 4 * Words(blocks, true) == 4 * mem.Length
    {
      hide Good, Merged, SizeOf, UsedBit, WordsOf;
      sum := 0;
      var cur := head;
      ghost var k := 0;
      ListHead();
      while cur != 0
        invariant 0 <= k <= |free| && cur == Link(free, k) && sum == 4 * SumOf(blocks, free[..k])
        decreases |free| - k
      {
        ghost var i := AtNode(k);
        TagParts(blocks[i].words, false);
        NodeSize(i);
        assert free[..k + 1][..k] == free[..k];
        sum := sum + SizeOf(mem[cur - 1]);
        cur := mem[cur + 1];
        k := k + 1;
      }
      assert free[..|free|] == free;
      Accounts();
    }

    lemma NodeSize(i: nat)
      requires Partly({}) && i < |blocks| && !blocks[i].used
      ensures SizeAt(blocks, blocks[i].at) == blocks[i].words
    {
      AllOrdered(blocks, 0, mem.Length);
      SizeOfBlock(blocks, i);
    }

    lemma Accounts()
      requires Partly({})
      ensures SumOf(blocks, free) == Words(blocks, false) && Words(blocks, true) + Words(blocks, false) == mem.Length
    {
      AllOrdered(blocks, 0, mem.Length);
      AllWords(blocks, mem.Length);
      ListSum(blocks, free);
    }

    /** Freeing all live payloads, in any order, leaves one free block: the heap as it was made. */
    method Drain(ps: seq<nat>)
      requires Valid() && Distinct(ps) && forall p: nat :: p in ps <==> LivePayload(blocks, p)
      modifies mem, this`head, this`free, this`blocks
      ensures Valid() && blocks == [Block(0, mem.Length, false)]
    {
      hide Good, Merged, LiveSame, Release, LivePayload;
      assert ps[0..] == ps;
      for k := 0 to |ps|
        invariant Valid() && forall p: nat :: p in ps[k..] <==> LivePayload(blocks, p)
      {
        assert ps[k] in ps[k..];
        ghost var i := PointsTo(blocks, ps[k]);
        ghost var bs := blocks;
        Tiles({});
        Kfree(ps[k], i);
        ReleasePayloads(bs, mem.Length, i);
        forall p: nat ensures p in ps[k + 1..] <==> LivePayload(blocks, p) {
          Behind(ps, k, p);
        }
      }
      NothingLive();
    }

    static lemma Behind(ps: seq<nat>, k: nat, p: nat)
      requires Distinct(ps) && k < |ps|
      ensures p in ps[k + 1..] <==> p in ps[k..] && p != ps[k]
    {
      assert ps[k..] == [ps[k]] + ps[k + 1..];
    }

    static ghost predicate LivePayload(bs: seq<Block>, p: nat) { exists j :: 0 <= j < |bs| && bs[j].used && p == bs[j].at + 1 }

    static lemma PointsTo(bs: seq<Block>, p: nat) returns (i: nat)
      requires LivePayload(bs, p)
      ensures i < |bs| && bs[i].used && p == bs[i].at + 1
    {
      i :| 0 <= i < |bs| && bs[i].used && p == bs[i].at + 1;
    }

    static lemma Points(bs: seq<Block>, b: Block)
      requires b in bs && b.used
      ensures LivePayload(bs, b.at + 1)
    {
    }

    static lemma ReleasePayloads(bs: seq<Block>, n: nat, i: nat)
      requires Tiling(bs, n) && i < |bs| && bs[i].used
      ensures forall p: nat :: LivePayload(Release(bs, i), p) <==> LivePayload(bs, p) && p != bs[i].at + 1
    {
      hide *;
      ReleaseLive(bs, i);
      forall p: nat ensures LivePayload(Release(bs, i), p) <==> LivePayload(bs, p) && p != bs[i].at + 1 {
        if LivePayload(Release(bs, i), p) {
          var j := PointsTo(Release(bs, i), p);
          var b := Release(bs, i)[j];
          assert b in bs[..i] + bs[i + 1..];
          RestStarts(bs, n, i, b);
          Points(bs, b);
        }
        if LivePayload(bs, p) && p != bs[i].at + 1 {
          var j := PointsTo(bs, p);
          OtherIn(bs, i, bs[j]);
          Points(Release(bs, i), bs[j]);
        }
      }
    }

    static lemma RestStarts(bs: seq<Block>, n: nat, i: nat, b: Block)
      requires Tiling(bs, n) && i < |bs| && b in bs[..i] + bs[i + 1..]
      ensures b in bs && b.at != bs[i].at
    {
      hide Row;
      var q :| 0 <= q < |bs| - 1 && (bs[..i] + bs[i + 1..])[q] == b;
      var j := if q < i then q else q + 1;
      assert bs[j] == b;
      StartPlace(bs, n, i, 1, j);
      RowSize(bs, 0, n, i);
    }

    lemma NothingLive()
      requires Valid() && forall p: nat :: !LivePayload(blocks, p)
      ensures blocks == [Block(0, mem.Length, false)]
    {
      forall i | 0 <= i < |blocks| ensures !blocks[i].used {
        assert !LivePayload(blocks, blocks[i].at + 1);
      }
      AllFree(blocks, mem.Length);
    }
  }
}
