/**
 Whole runs of the block layer: for every sequence of calls, the answers are those of plain
 arrays of blocks, whatever the cache evicts on the way.
 */
module BlockRuns {
  import opened WriteBack
  import opened BlockCache

  datatype Call<B> = ReadCall(index: nat, lba: nat, count: nat) | WriteCall(index: nat, lba: nat, data: seq<B>) | FlushCall(index: nat) | FlushAllCall

  datatype Answer<B> = Answer(rc: int, out: seq<B>)

  /** All blocks of device `index` are on the disk as in m. */
  ghost predicate Durable<B>(devs: seq<Device>, index: nat, m: map<Key, B>, disk: map<Key, B>) {
    index < |devs| && forall lba :: 0 <= lba < devs[index].blockCount ==> OnDisk(m, disk, Resolve(devs, index, lba))
  }

  ghost predicate OnDisk<B>(m: map<Key, B>, disk: map<Key, B>, k: Key) { k in disk && k in m && disk[k] == m[k] }

  /**
   Arrays m give answer a to call c, which writes the blocks in `put` and leaves `disk`; `failed`
   says a driver call failed.
   */
  ghost predicate Fits<B>(devs: seq<Device>, m: map<Key, B>, c: Call<B>, a: Answer<B>, put: seq<(Key, B)>, failed: bool, disk: map<Key, B>) {
    match c
    case ReadCall(index, lba, count) =>
      && put == []
      && if index >= |devs| || count == 0 then a.rc == -1
      else if !devs[index].canRead then a.rc == -2
      else if devs[index].blockCount <= lba then a.rc == -3
      else if devs[index].blockCount < lba + count then a.rc == -4
      else
        var k := Resolve(devs, index, lba);
        && (!failed ==> a.rc == 0) && (forall j :: k.lba <= j < k.lba + count ==> Key(k.dev, j) in m)
        && (a.rc == 0 ==> a.out == Blocks(m, k.dev, k.lba, count))
    case WriteCall(index, lba, data) =>
      if index >= |devs| || data == [] then a.rc == -1 && put == []
      else if !devs[index].canWrite then a.rc == -2 && put == []
      else if devs[index].readonly then a.rc == -3 && put == []
      else if devs[index].blockCount <= lba then a.rc == -4 && put == []
      else if devs[index].blockCount < lba + |data| then a.rc == -5 && put == []
      else
        var k := Resolve(devs, index, lba);
        && (!failed ==> a.rc == 0) && put <= WriteList(k.dev, k.lba, data)
        && (a.rc == 0 ==> put == WriteList(k.dev, k.lba, data))
    case FlushCall(index) =>
      && put == [] && (if index >= |devs| then a.rc == -1 else !failed ==> a.rc == 0)
      && (a.rc == 0 ==> Durable(devs, index, m, disk))
    case FlushAllCall => put == [] && (!failed ==> a.rc == 0) && (a.rc == 0 ==> disk == m)
  }

  ghost function Concat<T>(ss: seq<seq<T>>): seq<T> {
    if ss == [] then [] else Concat(ss[..|ss| - 1]) + ss[|ss| - 1]
  }

  /** Every call of the run is answered from the arrays as all writes before it left them. */
  ghost predicate Served<B>(devs: seq<Device>, m: map<Key, B>, calls: seq<Call<B>>, answers: seq<Answer<B>>,
                            puts: seq<seq<(Key, B)>>, fails: seq<bool>, disks: seq<map<Key, B>>)
  {
    && |calls| == |answers| == |puts| == |fails| == |disks|
    && forall i :: 0 <= i < |calls| ==> Fits(devs, PutAll(m, Concat(puts[..i])), calls[i], answers[i], puts[i], fails[i], disks[i])
  }

  lemma ServedSnoc<B>(devs: seq<Device>, m: map<Key, B>, calls: seq<Call<B>>, answers: seq<Answer<B>>, puts: seq<seq<(Key, B)>>, fails: seq<bool>,
                      disks: seq<map<Key, B>>, c: Call<B>, a: Answer<B>, put: seq<(Key, B)>, failed: bool, disk: map<Key, B>)
    requires Served(devs, m, calls, answers, puts, fails, disks) && Fits(devs, PutAll(m, Concat(puts)), c, a, put, failed, disk)
    ensures Served(devs, m, calls + [c], answers + [a], puts + [put], fails + [failed], disks + [disk])
    ensures Concat(puts + [put]) == Concat(puts) + put
  {
    hide Fits;
    var puts' := puts + [put];
    assert puts'[..|puts|] == puts;
    forall i | 0 <= i < |calls| ensures puts'[..i] == puts[..i] { }
  }

  /** The steps ios make the disks: ats[i] of them have been taken when call i returns, and no others write. */
  ghost predicate Through<B>(w: Wb<Key, B>, ios: seq<Io<Key, B>>, puts: seq<seq<(Key, B)>>, disks: seq<map<Key, B>>, ats: seq<nat>) {
    && |ats| == |puts| == |disks|
    && forall i :: 0 <= i < |ats| ==> Reached(w, ios, Concat(puts[..i + 1]), disks[i], ats[i])
  }

  ghost predicate Reached<B>(w: Wb<Key, B>, ios: seq<Io<Key, B>>, put: seq<(Key, B)>, disk: map<Key, B>, at: nat) {
    at <= |ios| && disk == ApplyAll(w, ios[..at]).disk && put == Puts(ios[..at])
  }

  lemma ThroughSnoc<B>(w: Wb<Key, B>, ios: seq<Io<Key, B>>, puts: seq<seq<(Key, B)>>, disks: seq<map<Key, B>>, ats: seq<nat>, more: seq<Io<Key, B>>)
    requires Through(w, ios, puts, disks, ats) && Puts(ios) == Concat(puts)
    ensures Through(w, ios + more, puts + [Puts(more)], disks + [ApplyAll(ApplyAll(w, ios), more).disk], ats + [|ios + more|])
  {
    var ios', puts', disks', ats' := ios + more, puts + [Puts(more)], disks + [ApplyAll(ApplyAll(w, ios), more).disk], ats + [|ios + more|];
    forall i | 0 <= i < |ats'| ensures Reached(w, ios', Concat(puts'[..i + 1]), disks'[i], ats'[i]) {
      if i < |ats| {
        assert Reached(w, ios, Concat(puts[..i + 1]), disks[i], ats[i]);
        assert ios'[..ats[i]] == ios[..ats[i]] && puts'[..i + 1] == puts[..i + 1];
      } else {
        assert ios'[..|ios'|] == ios' && puts'[..|puts'|] == puts' && puts'[..|puts|] == puts;
        ApplyAllConcat(w, ios, more);
        PutsConcat(ios, more);
      }
    }
  }

  /** A block on the disk as readers see it stays so until it is written again. */
  lemma StaysOnDisk<B>(w: Wb<Key, B>, ios: seq<Io<Key, B>>, at: nat, end: nat, k: Key)
    requires at <= end <= |ios| && OnDisk(ApplyAll(w, ios[..at]).log, ApplyAll(w, ios[..at]).disk, k)
    requires forall j :: at <= j < end && ios[j].Put? ==> ios[j].k != k
    ensures OnDisk(ApplyAll(w, ios[..at]).log, ApplyAll(w, ios[..end]).disk, k)
  {
    hide ApplyAll;
    var tail := ios[at..end];
    assert ios[..end] == ios[..at] + tail;
    ApplyAllConcat(w, ios[..at], tail);
    forall j | 0 <= j < |tail| && tail[j].Put? ensures tail[j].k != k { assert tail[j] == ios[at + j]; }
    Unwritten(ApplyAll(w, ios[..at]), tail, k);
  }

  /** What a successful flush of k's device, or of all devices, leaves. */
  lemma FlushFound<B>(devs: seq<Device>, m: map<Key, B>, c: Call<B>, a: Answer<B>, put: seq<(Key, B)>, failed: bool,
    disk: map<Key, B>, index: nat, lba: nat)
    requires Fits(devs, m, c, a, put, failed, disk) && a.rc == 0 && index < |devs| && lba < devs[index].blockCount
    requires c == FlushCall(index) || (c == FlushAllCall && Resolve(devs, index, lba) in m)
    ensures OnDisk(m, disk, Resolve(devs, index, lba)) && put == []
  {
  }

  /**
   Durability over a run: what a successful flush found stays on the disk, through every crash
   later in the run, until the block is written again.
   */
  lemma FlushLasts<B>(devs: seq<Device>, w: Wb<Key, B>, calls: seq<Call<B>>, answers: seq<Answer<B>>, puts: seq<seq<(Key, B)>>, fails: seq<bool>,
                      disks: seq<map<Key, B>>, ios: seq<Io<Key, B>>, ats: seq<nat>, i: nat, index: nat, lba: nat, end: nat)
    requires Served(devs, w.log, calls, answers, puts, fails, disks) && Through(w, ios, puts, disks, ats) && i < |calls|
    requires index < |devs| && lba < devs[index].blockCount && answers[i].rc == 0 && ats[i] <= end <= |ios|
    requires calls[i] == FlushCall(index) || (calls[i] == FlushAllCall && Resolve(devs, index, lba) in PutAll(w.log, Concat(puts[..i])))
    requires forall j :: ats[i] <= j < end && ios[j].Put? ==> ios[j].k != Resolve(devs, index, lba)
    ensures OnDisk(PutAll(w.log, Concat(puts[..i])), ApplyAll(w, ios[..end]).disk, Resolve(devs, index, lba))
  {
    hide Fits, OnDisk, Resolve, ApplyAll, PutAll;
    var k, m := Resolve(devs, index, lba), PutAll(w.log, Concat(puts[..i]));
    assert Fits(devs, m, calls[i], answers[i], puts[i], fails[i], disks[i]);
    FlushFound(devs, m, calls[i], answers[i], puts[i], fails[i], disks[i], index, lba);
    assert Reached(w, ios, Concat(puts[..i + 1]), disks[i], ats[i]);
    LogIsPuts(w, ios[..ats[i]]);
    assert puts[..i + 1][..i] == puts[..i];
    assert Concat(puts[..i + 1]) == Concat(puts[..i]) + puts[i] == Concat(puts[..i]);
    StaysOnDisk(w, ios, ats[i], end, k);
  }

  /** One call, any kind. */
  method Serve<B>(cache: Cache<B>, c: Call<B>) returns (a: Answer<B>, ghost ios: seq<Io<Key, B>>)
    requires cache.Valid()
    modifies cache
    ensures cache.Valid() && cache.W() == ApplyAll(old(cache.W()), ios)
    ensures cache.faults >= old(cache.faults) && Fits(cache.devs, old(cache.log), c, a, Puts(ios), cache.faults > old(cache.faults), cache.disk)
  {
    hide CacheOk, DevsOk;
    var rc, out := 0, [];
    match c {
    case ReadCall(index, lba, count) =>
      rc, out, ios := cache.Read(index, lba, count);
      LogIsPuts(old(cache.W()), ios);
    case WriteCall(index, lba, data) =>
      rc, ios := cache.Write(index, lba, data);
    case FlushCall(index) =>
      rc, ios := cache.Flush(index);
      LogIsPuts(old(cache.W()), ios);
    case FlushAllCall =>
      rc, ios := cache.FlushAll();
      LogIsPuts(old(cache.W()), ios);
    }
    a := Answer(rc, out);
  }

  /**
   Every run: the calls are served as by plain arrays, readers see exactly the writes made, and
   the disks have been through the write-back steps `ios`, which contain those writes in order;
   disks[i], the one call i left, is durable if that call was a successful flush.
   */
  method Run<B>(cache: Cache<B>, calls: seq<Call<B>>)
    returns (answers: seq<Answer<B>>, ghost puts: seq<seq<(Key, B)>>, ghost fails: seq<bool>, ghost ios: seq<Io<Key, B>>,
             ghost disks: seq<map<Key, B>>, ghost ats: seq<nat>)
    requires cache.Valid()
    modifies cache
    ensures cache.Valid() && Served(cache.devs, old(cache.log), calls, answers, puts, fails, disks)
    ensures Through(old(cache.W()), ios, puts, disks, ats)
    ensures cache.faults >= old(cache.faults) && (cache.faults > old(cache.faults) <==> exists i :: 0 <= i < |fails| && fails[i])
    ensures cache.log == PutAll(old(cache.log), Concat(puts))
    ensures cache.W() == ApplyAll(old(cache.W()), ios) && Puts(ios) == Concat(puts)
  {
    hide CacheOk, DevsOk, Fits, Served, Through;
    answers, puts, fails, ios, disks, ats := [], [], [], [], [], [];
    ServedNone(cache.devs, cache.log);
    ghost var w0 := cache.W();
    assert calls[..0] == [];
    for i := 0 to |calls|
      invariant cache.Valid() && Served(cache.devs, w0.log, calls[..i], answers, puts, fails, disks)
      invariant Through(w0, ios, puts, disks, ats)
      invariant cache.faults >= old(cache.faults) && (cache.faults > old(cache.faults) <==> exists j :: 0 <= j < |fails| && fails[j])
      invariant cache.log == PutAll(w0.log, Concat(puts)) && cache.W() == ApplyAll(w0, ios) && Puts(ios) == Concat(puts)
    {
      ghost var w := cache.W();
      var a;
      ghost var n := cache.faults;
      ghost var more;
      a, more := Serve(cache, calls[i]);
      ghost var failed := cache.faults > n;
      ServedSnoc(cache.devs, w0.log, calls[..i], answers, puts, fails, disks, calls[i], a, Puts(more), failed, cache.disk);
      ThroughSnoc(w0, ios, puts, disks, ats, more);
      LogIsPuts(w, more);
      PutAllConcat(w0.log, Concat(puts), Puts(more));
      ApplyAllConcat(w0, ios, more);
      PutsConcat(ios, more);
      assert calls[..i + 1] == calls[..i] + [calls[i]];
      SomeFail(fails, failed);
      answers, puts, fails, disks := answers + [a], puts + [Puts(more)], fails + [failed], disks + [cache.disk];
      ios, ats := ios + more, ats + [|ios + more|];
    }
    assert calls[..|calls|] == calls;
  }

  lemma SomeFail(fails: seq<bool>, failed: bool)
    ensures (exists j :: 0 <= j < |fails + [failed]| && (fails + [failed])[j]) <==> failed || exists j :: 0 <= j < |fails| && fails[j]
  {
    var all := fails + [failed];
    assert all[|fails|] == failed;
    if j :| 0 <= j < |fails| && fails[j] { assert all[j]; }
  }

  lemma ServedNone<B>(devs: seq<Device>, m: map<Key, B>)
    ensures Served(devs, m, [], [], [], [], []) && PutAll(m, Concat([])) == m
    ensures forall w: Wb<Key, B> :: Through(w, [], [], [], [])
  {
  }

  // ----- single blocks over runs ----------------------------------------------------------------------

  /** Call c writes block k of a whole device, directly or through a partition. */
  ghost predicate Covers<B>(devs: seq<Device>, c: Call<B>, k: Key) {
    && c.WriteCall? && c.index < |devs|
    && match devs[c.index].kind
       case Whole => k.dev == c.index && c.lba <= k.lba < c.lba + |c.data|
       case Part(parent, start) => k.dev == parent && start + c.lba <= k.lba < start + c.lba + |c.data|
  }

  lemma {:induction false} PutMiss<K, B>(m: map<K, B>, puts: seq<(K, B)>, k: K)
    requires forall i :: 0 <= i < |puts| ==> puts[i].0 != k
    ensures (k in PutAll(m, puts) <==> k in m) && (k in m ==> PutAll(m, puts)[k] == m[k])
    decreases |puts|
  {
    if puts != [] { PutMiss(m, puts[..|puts| - 1], k); }
  }

  lemma PutHit<B>(m: map<Key, B>, dev: nat, lba: nat, data: seq<B>, x: nat)
    requires x < |data|
    ensures var p := PutAll(m, WriteList(dev, lba, data)); Key(dev, lba + x) in p && p[Key(dev, lba + x)] == data[x]
  {
    var all, k := WriteList(dev, lba, data), Key(dev, lba + x);
    var a, b := all[..x + 1], all[x + 1..];
    assert all == a + b && a[..x] + [(k, data[x])] == a;
    PutAllConcat(m, a, b);
    assert a[..|a| - 1] == a[..x];
    PutMiss(PutAll(m, a), b, k);
  }

  /** A call that does not cover block k leaves it. */
  lemma CallMisses<B>(devs: seq<Device>, m: map<Key, B>, c: Call<B>, a: Answer<B>, put: seq<(Key, B)>, failed: bool, disk: map<Key, B>, k: Key)
    requires Fits(devs, m, c, a, put, failed, disk) && !Covers(devs, c, k)
    ensures (k in PutAll(m, put) <==> k in m) && (k in m ==> PutAll(m, put)[k] == m[k])
  {
    forall i | 0 <= i < |put| ensures put[i].0 != k {
      assert put[i] == WriteList(Resolve(devs, c.index, c.lba).dev, Resolve(devs, c.index, c.lba).lba, c.data)[i];
      assert put[i].0 == Resolve(devs, c.index, c.lba + i);
    }
    PutMiss(m, put, k);
  }

  lemma {:induction false} Untouched<B>(devs: seq<Device>, m: map<Key, B>, calls: seq<Call<B>>, answers: seq<Answer<B>>, puts: seq<seq<(Key, B)>>,
                                        fails: seq<bool>, disks: seq<map<Key, B>>, i: nat, r: nat, k: Key)
    requires Served(devs, m, calls, answers, puts, fails, disks) && i <= r <= |calls|
    requires forall n :: i <= n < r ==> !Covers(devs, calls[n], k)
    ensures var a, b := PutAll(m, Concat(puts[..i])), PutAll(m, Concat(puts[..r])); (k in b <==> k in a) && (k in a ==> b[k] == a[k])
    decreases r - i
  {
    hide Fits, Covers, PutAll;
    if i < r {
      Untouched(devs, m, calls, answers, puts, fails, disks, i, r - 1, k);
      var c := PutAll(m, Concat(puts[..r - 1]));
      assert Fits(devs, c, calls[r - 1], answers[r - 1], puts[r - 1], fails[r - 1], disks[r - 1]);
      CallMisses(devs, c, calls[r - 1], answers[r - 1], puts[r - 1], fails[r - 1], disks[r - 1], k);
      assert puts[..r][..r - 1] == puts[..r - 1];
      PutAllConcat(m, Concat(puts[..r - 1]), puts[r - 1]);
    }
  }

  /**
   Readers see the last write: over every run, a block read by call r is the one that the last
   call before it to cover that block gave it, through whatever partitions the two calls went.
   */
  lemma ReadsLastWrite<B>(devs: seq<Device>, m: map<Key, B>, calls: seq<Call<B>>, answers: seq<Answer<B>>, puts: seq<seq<(Key, B)>>,
                          fails: seq<bool>, disks: seq<map<Key, B>>, w: nat, x: nat, r: nat, j: nat)
    requires Served(devs, m, calls, answers, puts, fails, disks) && w < r < |calls|
    requires calls[w].WriteCall? && answers[w].rc == 0 && x < |calls[w].data| && calls[w].index < |devs|
    requires calls[r].ReadCall? && answers[r].rc == 0 && j < calls[r].count && calls[r].index < |devs|
    requires Resolve(devs, calls[w].index, calls[w].lba + x) == Resolve(devs, calls[r].index, calls[r].lba + j)
    requires forall n :: w < n < r ==> !Covers(devs, calls[n], Resolve(devs, calls[w].index, calls[w].lba + x))
    ensures |answers[r].out| == calls[r].count && answers[r].out[j] == calls[w].data[x]
  {
    hide Covers, PutAll;
    var k := Resolve(devs, calls[w].index, calls[w].lba + x);
    var before, after := PutAll(m, Concat(puts[..w])), PutAll(m, Concat(puts[..w + 1]));
    assert Fits(devs, before, calls[w], answers[w], puts[w], fails[w], disks[w]);
    var f := Resolve(devs, calls[w].index, calls[w].lba);
    PutHit(before, f.dev, f.lba, calls[w].data, x);
    assert puts[..w + 1][..w] == puts[..w];
    PutAllConcat(m, Concat(puts[..w]), puts[w]);
    Untouched(devs, m, calls, answers, puts, fails, disks, w + 1, r, k);
    assert Fits(devs, PutAll(m, Concat(puts[..r])), calls[r], answers[r], puts[r], fails[r], disks[r]);
  }

  /** A block that no call before r covers is read as it was at the start. */
  lemma ReadsFirst<B>(devs: seq<Device>, m: map<Key, B>, calls: seq<Call<B>>, answers: seq<Answer<B>>, puts: seq<seq<(Key, B)>>,
                      fails: seq<bool>, disks: seq<map<Key, B>>, r: nat, j: nat)
    requires Served(devs, m, calls, answers, puts, fails, disks) && r < |calls|
    requires calls[r].ReadCall? && answers[r].rc == 0 && j < calls[r].count && calls[r].index < |devs|
    requires forall n :: 0 <= n < r ==> !Covers(devs, calls[n], Resolve(devs, calls[r].index, calls[r].lba + j))
    ensures var k := Resolve(devs, calls[r].index, calls[r].lba + j);
      |answers[r].out| == calls[r].count && k in m && answers[r].out[j] == m[k]
  {
    hide Covers;
    Untouched(devs, m, calls, answers, puts, fails, disks, 0, r, Resolve(devs, calls[r].index, calls[r].lba + j));
    assert puts[..0] == [];
    assert Fits(devs, PutAll(m, Concat(puts[..r])), calls[r], answers[r], puts[r], fails[r], disks[r]);
  }

  /** Where a block of a device is: a partition is the window of its parent that begins at its start. */
  lemma Window(devs: seq<Device>, index: nat, lba: nat)
    requires DevsOk(devs) && index < |devs| && lba < devs[index].blockCount
    ensures devs[index].kind.Whole? ==> Resolve(devs, index, lba) == Key(index, lba)
    ensures devs[index].kind.Part? ==>
      var p := devs[index].kind;
      Resolve(devs, index, lba) == Key(p.parent, p.start + lba) && p.parent < |devs| && p.start + lba < devs[p.parent].blockCount
  {
  }
}
