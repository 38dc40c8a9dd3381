/**
 The block layer (kernel/blockdev.c with the partition translation of kernel/mbr.c): a
 clock-replaced write-back cache in front of the devices. For every sequence of calls it
 behaves like plain arrays of blocks, and towards the disks like the machine of WriteBack.
 */
module BlockCache {
  import opened WriteBack

  /** A whole device, or a window of one (mbr_partition_ctx_t). */
  datatype Kind = Whole | Part(parent: nat, start: nat)

  datatype Device = Device(blockCount: nat, canRead: bool, canWrite: bool, readonly: bool, is512: bool, kind: Kind)

  datatype Key = Key(dev: nat, lba: nat)

  datatype Entry<B> = Entry(valid: bool, dirty: bool, ref: bool, key: Key, data: B)

  predicate Cached(d: Device) { d.canRead && d.kind.Whole? && d.is512 }

  predicate Writable(d: Device) { d.canWrite && !d.readonly }

  predicate KeyOk(devs: seq<Device>, k: Key) {
    k.dev < |devs| && devs[k.dev].kind.Whole? && k.lba < devs[k.dev].blockCount
  }

  /** Partitions are windows inside whole devices, read-only if the whole device is (kernel/mbr.c:108, 150). */
  predicate DevsOk(devs: seq<Device>) {
    forall i :: 0 <= i < |devs| && devs[i].kind.Part? ==>
      var p := devs[i].kind;
      && p.parent < |devs| && devs[p.parent].kind.Whole? && p.start + devs[i].blockCount <= devs[p.parent].blockCount
      && (Writable(devs[i]) ==> Writable(devs[p.parent]))
      && devs[p.parent].canRead
  }

  /** Where block lba of device index really lives. */
  function Resolve(devs: seq<Device>, index: nat, lba: nat): Key
    requires index < |devs|
  {
    match devs[index].kind
    case Whole => Key(index, lba)
    case Part(parent, start) => Key(parent, start + lba)
  }

  /** An entry holds block k. */
  predicate Holds<B>(e: Entry<B>, k: Key) { e.valid && e.key == k }

  ghost predicate EntryOk<B>(e: Entry<B>, devs: seq<Device>, disk: map<Key, B>, log: map<Key, B>) {
    e.valid ==>
      && KeyOk(devs, e.key) && Cached(devs[e.key.dev]) && e.key in disk && e.key in log
      && e.data == log[e.key] && (!e.dirty ==> disk[e.key] == e.data)
      && (e.dirty ==> Writable(devs[e.key.dev]))
  }

  ghost predicate Unique<B>(entries: seq<Entry<B>>) {
    forall i, j | 0 <= i < |entries| && 0 <= j < |entries| && entries[i].valid && entries[j].valid ::
      entries[i].key == entries[j].key ==> i == j
  }

  /** Blocks without an entry are what the disk says. */
  ghost predicate Backed<B>(entries: seq<Entry<B>>, disk: map<Key, B>, log: map<Key, B>) {
    forall k :: k in disk && k in log && disk[k] != log[k] ==> exists i :: 0 <= i < |entries| && Holds(entries[i], k)
  }

  ghost predicate CacheOk<B>(entries: seq<Entry<B>>, devs: seq<Device>, disk: map<Key, B>, log: map<Key, B>) {
    && disk.Keys == log.Keys && (forall k :: k in disk <==> KeyOk(devs, k))
    && (forall i :: 0 <= i < |entries| ==> EntryOk(entries[i], devs, disk, log))
    && Unique(entries) && Backed(entries, disk, log)
  }

  lemma EntryClean<B>(entries: seq<Entry<B>>, devs: seq<Device>, disk: map<Key, B>, log: map<Key, B>, i: nat)
    requires CacheOk(entries, devs, disk, log) && i < |entries| && entries[i].valid
    ensures var e := entries[i];
            e.key in log && CacheOk(entries[i := e.(dirty := false)], devs, disk[e.key := log[e.key]], log)
  {
    var e := entries[i];
    var entries' := entries[i := e.(dirty := false)];
    var disk' := disk[e.key := log[e.key]];
    forall k | k in disk' && k in log && disk'[k] != log[k] ensures exists j :: 0 <= j < |entries'| && Holds(entries'[j], k) {
      var j :| 0 <= j < |entries| && Holds(entries[j], k);
      assert Holds(entries'[j], k);
    }
  }

  lemma EntryRef<B>(entries: seq<Entry<B>>, devs: seq<Device>, disk: map<Key, B>, log: map<Key, B>, i: nat, r: bool)
    requires CacheOk(entries, devs, disk, log) && i < |entries|
    ensures CacheOk(entries[i := entries[i].(ref := r)], devs, disk, log)
  {
    var entries' := entries[i := entries[i].(ref := r)];
    forall k | k in disk && k in log && disk[k] != log[k] ensures exists j :: 0 <= j < |entries'| && Holds(entries'[j], k) {
      var j :| 0 <= j < |entries| && Holds(entries[j], k);
      assert Holds(entries'[j], k);
    }
  }

  /** A slot that is clean or empty can be given to a block that has no entry. */
  lemma EntryReplace<B>(entries: seq<Entry<B>>, devs: seq<Device>, disk: map<Key, B>, log: map<Key, B>, i: nat, e: Entry<B>, log': map<Key, B>)
    requires CacheOk(entries, devs, disk, log) && i < |entries| && !(entries[i].valid && entries[i].dirty)
    requires e.valid && KeyOk(devs, e.key) && log' == log[e.key := e.data]
    requires Cached(devs[e.key.dev]) && (e.dirty ==> Writable(devs[e.key.dev])) && (!e.dirty ==> disk[e.key] == e.data)
    requires forall j :: 0 <= j < |entries| ==> !Holds(entries[j], e.key)
    ensures CacheOk(entries[i := e], devs, disk, log')
  {
    var entries' := entries[i := e];
    forall k | k in disk && k in log' && disk[k] != log'[k] ensures exists j :: 0 <= j < |entries'| && Holds(entries'[j], k) {
      if k == e.key {
        assert Holds(entries'[i], k);
      } else {
        var j :| 0 <= j < |entries| && Holds(entries[j], k);
        assert j != i;
        assert Holds(entries'[j], k);
      }
    }
    forall j | 0 <= j < |entries'| ensures EntryOk(entries'[j], devs, disk, log') {
      if j != i { assert EntryOk(entries[j], devs, disk, log); assert !Holds(entries[j], e.key); }
    }
    forall a, b | 0 <= a < |entries'| && 0 <= b < |entries'| && entries'[a].valid && entries'[b].valid && entries'[a].key == entries'[b].key
      ensures a == b
    {
      assert b != i ==> !Holds(entries[b], e.key);
      assert a != i ==> !Holds(entries[a], e.key);
    }
  }

  lemma EntryRewrite<B>(entries: seq<Entry<B>>, devs: seq<Device>, disk: map<Key, B>, log: map<Key, B>, i: nat, b: B)
    requires CacheOk(entries, devs, disk, log) && i < |entries| && entries[i].valid && Writable(devs[entries[i].key.dev])
    ensures var e := entries[i];
            CacheOk(entries[i := e.(data := b, dirty := true, ref := true)], devs, disk, log[e.key := b])
  {
    var e := entries[i];
    var entries' := entries[i := e.(data := b, dirty := true, ref := true)];
    var log' := log[e.key := b];
    forall k | k in disk && k in log' && disk[k] != log'[k] ensures exists j :: 0 <= j < |entries'| && Holds(entries'[j], k) {
      if k == e.key {
        assert Holds(entries'[i], k);
      } else {
        var j :| 0 <= j < |entries| && Holds(entries[j], k);
        assert Holds(entries'[j], k);
      }
    }
  }

  /** A write straight to an uncached device. */
  lemma RawWrite<B>(entries: seq<Entry<B>>, devs: seq<Device>, disk: map<Key, B>, log: map<Key, B>, k: Key, b: B)
    requires CacheOk(entries, devs, disk, log) && KeyOk(devs, k) && !Cached(devs[k.dev])
    ensures CacheOk(entries, devs, disk[k := b], log[k := b])
  {
    var disk', log' := disk[k := b], log[k := b];
    forall j | j in disk' && j in log' && disk'[j] != log'[j] ensures exists i :: 0 <= i < |entries| && Holds(entries[i], j) {
      assert j != k;
    }
  }

  /** Blocks lba .. lba+count-1 of device index exist and can be read; the same for writing. */
  ghost predicate CanRead(devs: seq<Device>, index: nat, lba: nat, count: nat) {
    index < |devs| && devs[index].canRead && 0 < count && lba + count <= devs[index].blockCount
  }

  ghost predicate CanWrite(devs: seq<Device>, index: nat, lba: nat, count: nat) {
    index < |devs| && devs[index].canWrite && !devs[index].readonly && 0 < count && lba + count <= devs[index].blockCount
  }

  /** The blocks lba .. lba+n-1 of a whole device, as readers see them. */
  ghost function Blocks<B>(log: map<Key, B>, dev: nat, lba: nat, n: nat): seq<B>
    requires forall j :: lba <= j < lba + n ==> Key(dev, j) in log
  {
    seq(n, j requires 0 <= j < n => log[Key(dev, lba + j)])
  }

  /** The steps of writing `data` block by block from lba on. */
  ghost function WriteList<B>(dev: nat, lba: nat, data: seq<B>): seq<(Key, B)> {
    seq(|data|, j requires 0 <= j < |data| => (Key(dev, lba + j), data[j]))
  }

  class Cache<B> {
    const devs: seq<Device>
    var disk: map<Key, B>
    var entries: seq<Entry<B>>
    var hand: nat
    var evictions: nat
    var writebacks: nat
    /** What readers see. */
    ghost var log: map<Key, B>
    /** How many driver calls have failed. */
    ghost var faults: nat

    ghost function W(): Wb<Key, B>
      reads this
    {
      Wb(disk, log)
    }

    ghost predicate Valid()
      reads this
    {
      DevsOk(devs) && |entries| > 0 && hand < |entries| && CacheOk(entries, devs, disk, log)
    }

    /** An empty cache in front of disks that hold every block of every whole device. */
    constructor (devs: seq<Device>, disk: map<Key, B>, slots: nat, blank: B)
      requires DevsOk(devs) && slots > 0 && forall k :: k in disk <==> KeyOk(devs, k)
      ensures Valid() && this.devs == devs && this.disk == disk == log && |entries| == slots
    {
      this.devs, this.disk, this.log, this.faults := devs, disk, disk, 0;
      entries := seq(slots, i => Entry(false, false, false, Key(0, 0), blank));
      hand, evictions, writebacks := 0, 0, 0;
    }

    /** A call fails only if a driver call failed since the count was n. */
    ghost predicate NoneButFaults(n: nat, rc: int)
      reads this`faults
    {
      faults >= n && (rc < 0 ==> faults > n)
    }

    /** The outcome of a driver call: 0, or a negative code. */
    method Driver() returns (rc: int)
      modifies this`faults
      ensures rc <= 0 && faults == old(faults) + (if rc < 0 then 1 else 0)
    {
      rc := *;
      if rc >= 0 { return 0; }
      faults := faults + 1;
    }

    method Find(k: Key) returns (i: int)
      ensures i >= 0 ==> i < |entries| && Holds(entries[i], k)
      ensures i < 0 ==> forall j :: 0 <= j < |entries| ==> !Holds(entries[j], k)
    {
      i := 0;
      while i < |entries|
        invariant 0 <= i <= |entries|
        invariant forall j :: 0 <= j < i ==> !Holds(entries[j], k)
      {
        if entries[i].valid && entries[i].key == k { return; }
        i := i + 1;
      }
      return -1;
    }

    /** Writes a dirty entry to its device; a failed driver call changes nothing. */
    method Writeback(i: nat) returns (rc: int, ghost ios: seq<Io<Key, B>>)
      requires Valid() && i < |entries|
      modifies this`disk, this`entries, this`writebacks, this`faults
      ensures Valid() && rc <= 0 && NoneButFaults(old(faults), rc)
      ensures W() == ApplyAll(old(W()), ios) && Puts(ios) == []
      ensures rc < 0 ==> entries == old(entries) && disk == old(disk)
      ensures |entries| == |old(entries)|
      ensures rc == 0 ==>
        && entries == old(entries)[i := old(entries)[i].(dirty := entries[i].dirty)]
        && (entries[i].valid ==> !entries[i].dirty)
      ensures var e := old(entries)[i];
        if !(e.valid && e.dirty) then
          rc == 0 && entries == old(entries) && disk == old(disk) && faults == old(faults) && writebacks == old(writebacks)
        else rc == 0 ==> disk == old(disk)[e.key := e.data] && writebacks == old(writebacks) + 1
    {
      var e := entries[i];
      ios := [];
      if !e.valid || !e.dirty { return 0, []; }
      if e.key.dev >= |devs| { return -1, []; }
      if !devs[e.key.dev].canWrite { return -1, []; }
      if devs[e.key.dev].readonly { return -1, []; }
      rc := Driver();
      if rc < 0 { return; }
      EntryClean(entries, devs, disk, log, i);
      ApplyAllSnoc(W(), [], Copy(e.key));
      disk := disk[e.key := e.data];
      entries := entries[i := e.(dirty := false)];
      writebacks := writebacks + 1;
      return 0, [] + [Copy(e.key)];
    }

    /** A slot to use: an empty one, or the clock's victim. The clock takes at most |entries| + 1 steps. */
    method GetSlot() returns (i: nat, steps: nat)
      requires Valid()
      modifies this`entries, this`hand, this`evictions
      ensures Valid() && i < |entries| && steps <= |entries| + 1
      ensures RefsOnly(old(entries), entries)
      ensures !entries[i].valid || (!entries[i].ref && forall j :: 0 <= j < |entries| ==> entries[j].valid)
      ensures !entries[i].valid ==>
        entries == old(entries) && hand == old(hand) && evictions == old(evictions) && forall j :: 0 <= j < i ==> entries[j].valid
      ensures entries[i].valid ==>
        steps > 0 && Clocked(old(entries), entries, old(hand), i, steps - 1) && hand == (i + 1) % |entries| && evictions == old(evictions) + 1
    {
      hide CacheOk;
      i := 0;
      while i < |entries|
        invariant 0 <= i <= |entries| && entries == old(entries)
        invariant forall j :: 0 <= j < i ==> entries[j].valid
      {
        if !entries[i].valid { return i, 0; }
        i := i + 1;
      }
      i, steps := Sweep();
    }

    /** The clock: referenced entries are passed, and are no longer referenced; the first other one is the victim. */
    method Sweep() returns (i: nat, steps: nat)
      requires Valid() && forall j :: 0 <= j < |entries| ==> entries[j].valid
      modifies this`entries, this`hand, this`evictions
      ensures Valid() && i < |entries| && 0 < steps <= |entries| + 1 && RefsOnly(old(entries), entries) && !entries[i].ref
      ensures Clocked(old(entries), entries, old(hand), i, steps - 1) && hand == (i + 1) % |entries| && evictions == old(evictions) + 1
      ensures forall j :: 0 <= j < |entries| ==> entries[j].valid
    {
      hide CacheOk, Passed, Clocked, Around, RefsOnly;
      var start := hand;
      ghost var was := entries;
      steps := 0;
      NonePassed(was, start);
      while true
        invariant Passed(was, entries, start, steps) && |entries| == |was| && steps <= |entries|
        invariant start < |entries| && hand == Around(start, steps, |entries|) < |entries| && evictions == old(evictions)
        decreases |entries| - steps
      {
        PassedRefs(was, entries, start, steps);
        if !entries[hand].ref {
          i := hand;
          hand := (hand + 1) % |entries|;
          evictions := evictions + 1;
          RefsOnlyKeeps(was, entries, devs, disk, log);
          AllStillValid(was, entries);
          return i, steps + 1;
        }
        AroundNext(start, steps, |entries|);
        PassOne(was, entries, start, steps);
        entries := entries[hand := entries[hand].(ref := false)];
        hand := (hand + 1) % |entries|;
        steps := steps + 1;
      }
    }

    /** An empty or clean slot for a block without an entry; what was dirty in it goes to its device first. */
    method MakeRoom(k: Key) returns (rc: int, i: nat, ghost ios: seq<Io<Key, B>>)
      requires Valid() && forall j :: 0 <= j < |entries| ==> !Holds(entries[j], k)
      modifies this`disk, this`entries, this`hand, this`evictions, this`writebacks, this`faults
      ensures Valid() && rc <= 0 && i < |entries| && NoneButFaults(old(faults), rc)
      ensures W() == ApplyAll(old(W()), ios) && Puts(ios) == []
      ensures forall j :: 0 <= j < |entries| ==> !Holds(entries[j], k)
      ensures rc == 0 ==> !(entries[i].valid && entries[i].dirty)
      ensures |entries| == |old(entries)|
      ensures !(old(entries)[i].valid && old(entries)[i].dirty) ==>
        rc == 0 && disk == old(disk) && faults == old(faults) && writebacks == old(writebacks)
    {
      hide CacheOk;
      ios := [];
      var steps;
      i, steps := GetSlot();
      assert forall j :: 0 <= j < |entries| ==> Holds(entries[j], k) == Holds(old(entries)[j], k);
      rc := 0;
      if entries[i].valid && entries[i].dirty {
        ghost var was := entries;
        rc, ios := Writeback(i);
        assert forall j :: 0 <= j < |entries| ==> Holds(entries[j], k) == Holds(was[j], k);
      }
    }

    /** One block through the cache: a hit, or a load into a slot made free. */
    method ReadOne(k: Key) returns (rc: int, b: B, ghost ios: seq<Io<Key, B>>)
      requires Valid() && KeyOk(devs, k) && Cached(devs[k.dev])
      modifies this`disk, this`entries, this`hand, this`evictions, this`writebacks, this`faults
      ensures Valid() && rc <= 0 && NoneButFaults(old(faults), rc)
      ensures k in log && (rc == 0 ==> b == log[k])
      ensures W() == ApplyAll(old(W()), ios) && Puts(ios) == []
      ensures rc == 0 ==> exists i :: 0 <= i < |entries| && Holds(entries[i], k) && entries[i].ref
      ensures (exists i :: 0 <= i < |old(entries)| && Holds(old(entries)[i], k)) ==> rc == 0 && disk == old(disk) && faults == old(faults)
    {
      ios := [];
      var f := Find(k);
      InLog(entries, devs, disk, log, k);
      b := disk[k];
      if f >= 0 {
        EntryRef(entries, devs, disk, log, f, true);
        HitData(entries, devs, disk, log, f);
        entries := entries[f := entries[f].(ref := true)];
        assert Holds(entries[f], k);
        return 0, entries[f].data, [];
      }
      hide CacheOk;
      var i;
      rc, i, ios := MakeRoom(k);
      if rc < 0 { return; }
      InLog(entries, devs, disk, log, k);
      rc := Driver();
      if rc < 0 { return; }
      var e := Entry(true, false, true, k, disk[k]);
      LoadedData(entries, devs, disk, log, k);
      assert log[k := disk[k]] == log;
      EntryReplace(entries, devs, disk, log, i, e, log);
      entries := entries[i := e];
      assert Holds(entries[i], k);
      b := e.data;
    }

    /** One block written into the cache. */
    method WriteOne(k: Key, b: B) returns (rc: int, ghost ios: seq<Io<Key, B>>)
      requires Valid() && KeyOk(devs, k) && Cached(devs[k.dev]) && Writable(devs[k.dev])
      modifies this`disk, this`entries, this`hand, this`evictions, this`writebacks, this`log, this`faults
      ensures Valid() && rc <= 0 && NoneButFaults(old(faults), rc)
      ensures log == if rc == 0 then old(log)[k := b] else old(log)
      ensures W() == ApplyAll(old(W()), ios) && Puts(ios) == if rc == 0 then [(k, b)] else []
      ensures rc == 0 ==> exists i :: 0 <= i < |entries| && Holds(entries[i], k) && entries[i].ref && entries[i].dirty && entries[i].data == b
      ensures (exists i :: 0 <= i < |old(entries)| && Holds(old(entries)[i], k)) ==> rc == 0 && disk == old(disk) && faults == old(faults)
    {
      hide CacheOk;
      ios := [];
      ghost var w := W();
      var f := Find(k);
      if f >= 0 {
        HeldKey(entries, devs, disk, log, f);
        EntryRewrite(entries, devs, disk, log, f, b);
        ApplyAllSnoc(w, [], Put(k, b));
        entries := entries[f := entries[f].(data := b, dirty := true, ref := true)];
        assert Holds(entries[f], k);
        log := log[k := b];
        return 0, [] + [Put(k, b)];
      }
      var i;
      rc, i, ios := MakeRoom(k);
      if rc < 0 { return; }
      var e := Entry(true, true, true, k, b);
      EntryReplace(entries, devs, disk, log, i, e, log[k := b]);
      ApplyAllSnoc(w, ios, Put(k, b));
      entries := entries[i := e];
      assert Holds(entries[i], k);
      log := log[k := b];
      ios := ios + [Put(k, b)];
    }

    /** blockdev_read_sync_impl on a whole device: all requested blocks as last written, or an error. */
    method ReadWhole(index: nat, lba: nat, count: nat)
      returns (rc: int, out: seq<B>, ghost ios: seq<Io<Key, B>>)
      requires Valid() && (index < |devs| ==> devs[index].kind.Whole?)
      modifies this`disk, this`entries, this`hand, this`evictions, this`writebacks, this`faults
      ensures Valid() && rc <= 0 && faults >= old(faults)
      ensures index >= |devs| || count == 0 ==> rc == -1
      ensures index < |devs| && count > 0 && !devs[index].canRead ==> rc == -2
      ensures index < |devs| && count > 0 && devs[index].canRead && devs[index].blockCount <= lba ==> rc == -3
      ensures index < |devs| && devs[index].canRead && lba < devs[index].blockCount < lba + count ==> rc == -4
      ensures !CanRead(devs, index, lba, count) ==> W() == old(W())
      ensures CanRead(devs, index, lba, count) ==>
        && NoneButFaults(old(faults), rc) && (forall j :: lba <= j < lba + count ==> Key(index, j) in log)
        && (rc == 0 ==> out == Blocks(log, index, lba, count))
      ensures W() == ApplyAll(old(W()), ios) && Puts(ios) == []
    {
      hide CacheOk;
      rc, out, ios := 0, [], [];
      if index >= |devs| || count == 0 { return -1, [], []; }
      if !devs[index].canRead { return -2, [], []; }
      if lba >= devs[index].blockCount { return -3, [], []; }
      if devs[index].blockCount - lba < count { return -4, [], []; }
      AllInLog(entries, devs, disk, log, index, lba, count);
      if !Cached(devs[index]) {
        rc := Driver();
        if rc < 0 { return; }
        UncachedSame(entries, devs, disk, log, index);
        var d := disk;
        out := seq(count, j requires 0 <= j < count => d[Key(index, lba + j)]);
        return;
      }
      ghost var w := W();
      var i := 0;
      while i < count
        invariant 0 <= i <= count && Valid() && |out| == i && faults >= old(faults) && rc == 0
        invariant log == old(log)
        invariant forall j :: 0 <= j < i ==> Key(index, lba + j) in log && out[j] == log[Key(index, lba + j)]
        invariant W() == ApplyAll(w, ios) && Puts(ios) == []
      {
        var b;
        ghost var more;
        rc, b, more := ReadOne(Key(index, lba + i));
        ApplyAllConcat(w, ios, more);
        PutsConcat(ios, more);
        ios := ios + more;
        if rc < 0 { return; }
        out := out + [b];
        i := i + 1;
      }
    }

    /** One block of a device that is not cached, written by the driver. */
    method RawOne(k: Key, b: B) returns (ghost ios: seq<Io<Key, B>>)
      requires Valid() && KeyOk(devs, k) && !Cached(devs[k.dev])
      modifies this`disk, this`log
      ensures Valid() && W() == ApplyAll(old(W()), ios) && Puts(ios) == [(k, b)]
    {
      RawWrite(entries, devs, disk, log, k, b);
      RawSteps(W(), k, b);
      disk := disk[k := b];
      log := log[k := b];
      ios := [Put(k, b), Copy(k)];
    }

    /** blockdev_write_sync_impl on a whole device: the blocks are written in order, up to a driver failure. */
    method WriteWhole(index: nat, lba: nat, data: seq<B>) returns (rc: int, ghost ios: seq<Io<Key, B>>)
      requires Valid() && (index < |devs| ==> devs[index].kind.Whole?)
      modifies this`disk, this`entries, this`hand, this`evictions, this`writebacks, this`log, this`faults
      ensures Valid() && rc <= 0 && faults >= old(faults)
      ensures index >= |devs| || |data| == 0 ==> rc == -1
      ensures index < |devs| && |data| > 0 && !devs[index].canWrite ==> rc == -2
      ensures index < |devs| && |data| > 0 && devs[index].canWrite && devs[index].readonly ==> rc == -3
      ensures index < |devs| && |data| > 0 && Writable(devs[index]) && devs[index].blockCount <= lba ==> rc == -4
      ensures index < |devs| && Writable(devs[index]) && lba < devs[index].blockCount < lba + |data| ==> rc == -5
      ensures !CanWrite(devs, index, lba, |data|) ==> W() == old(W()) && Puts(ios) == []
      ensures CanWrite(devs, index, lba, |data|) ==> NoneButFaults(old(faults), rc)
      ensures W() == ApplyAll(old(W()), ios) && Puts(ios) <= WriteList(index, lba, data)
      ensures rc == 0 ==> Puts(ios) == WriteList(index, lba, data)
    {
      hide CacheOk;
      rc, ios := 0, [];
      if index >= |devs| || |data| == 0 { return -1, []; }
      if !devs[index].canWrite { return -2, []; }
      if devs[index].readonly { return -3, []; }
      if lba >= devs[index].blockCount { return -4, []; }
      if devs[index].blockCount - lba < |data| { return -5, []; }
      ghost var w := W();
      var raw := !Cached(devs[index]);
      if raw {
        rc := Driver();
        if rc < 0 { return; }
      }
      var i := 0;
      while i < |data|
        invariant 0 <= i <= |data| && Valid() && faults >= old(faults) && rc == 0
        invariant W() == ApplyAll(w, ios) && Puts(ios) == WriteList(index, lba, data)[..i]
      {
        var k := Key(index, lba + i);
        ghost var more;
        if raw {
          more := RawOne(k, data[i]);
        } else {
          rc, more := WriteOne(k, data[i]);
        }
        ApplyAllConcat(w, ios, more);
        PutsConcat(ios, more);
        ios := ios + more;
        if rc < 0 { return; }
        assert WriteList(index, lba, data)[..i + 1] == WriteList(index, lba, data)[..i] + [(k, data[i])];
        i := i + 1;
      }
    }

    /** Reads through the partition table: a partition is a window of its parent. */
    method Read(index: nat, lba: nat, count: nat)
      returns (rc: int, out: seq<B>, ghost ios: seq<Io<Key, B>>)
      requires Valid()
      modifies this`disk, this`entries, this`hand, this`evictions, this`writebacks, this`faults
      ensures Valid() && rc <= 0 && faults >= old(faults)
      ensures index >= |devs| || count == 0 ==> rc == -1
      ensures index < |devs| && count > 0 && !devs[index].canRead ==> rc == -2
      ensures index < |devs| && count > 0 && devs[index].canRead && devs[index].blockCount <= lba ==> rc == -3
      ensures index < |devs| && devs[index].canRead && lba < devs[index].blockCount < lba + count ==> rc == -4
      ensures !CanRead(devs, index, lba, count) ==> W() == old(W())
      ensures CanRead(devs, index, lba, count) ==>
        var k := Resolve(devs, index, lba);
        && NoneButFaults(old(faults), rc) && (forall j :: k.lba <= j < k.lba + count ==> Key(k.dev, j) in log)
        && (rc == 0 ==> out == Blocks(log, k.dev, k.lba, count))
      ensures rc == 0 ==> index < |devs| && |out| == count && match devs[index].kind
        case Whole => forall j :: 0 <= j < count ==> Key(index, lba + j) in log && out[j] == log[Key(index, lba + j)]
        case Part(parent, start) => forall j :: 0 <= j < count ==> Key(parent, start + lba + j) in log && out[j] == log[Key(parent, start + lba + j)]
      ensures W() == ApplyAll(old(W()), ios) && Puts(ios) == []
    {
      hide CacheOk;
      rc, out, ios := 0, [], [];
      if index >= |devs| || count == 0 { return -1, [], []; }
      if !devs[index].canRead { return -2, [], []; }
      if lba >= devs[index].blockCount { return -3, [], []; }
      if devs[index].blockCount - lba < count { return -4, [], []; }
      match devs[index].kind
      case Whole => rc, out, ios := ReadWhole(index, lba, count);
      case Part(parent, start) => rc, out, ios := ReadWhole(parent, start + lba, count);
    }

    method Write(index: nat, lba: nat, data: seq<B>) returns (rc: int, ghost ios: seq<Io<Key, B>>)
      requires Valid()
      modifies this`disk, this`entries, this`hand, this`evictions, this`writebacks, this`log, this`faults
      ensures Valid() && rc <= 0 && faults >= old(faults)
      ensures index >= |devs| || |data| == 0 ==> rc == -1
      ensures index < |devs| && |data| > 0 && !devs[index].canWrite ==> rc == -2
      ensures index < |devs| && |data| > 0 && devs[index].canWrite && devs[index].readonly ==> rc == -3
      ensures index < |devs| && |data| > 0 && Writable(devs[index]) && devs[index].blockCount <= lba ==> rc == -4
      ensures index < |devs| && Writable(devs[index]) && lba < devs[index].blockCount < lba + |data| ==> rc == -5
      ensures !CanWrite(devs, index, lba, |data|) ==> W() == old(W()) && Puts(ios) == []
      ensures W() == ApplyAll(old(W()), ios)
      ensures CanWrite(devs, index, lba, |data|) ==>
        var k := Resolve(devs, index, lba);
        NoneButFaults(old(faults), rc) && Puts(ios) <= WriteList(k.dev, k.lba, data) && (rc == 0 ==> Puts(ios) == WriteList(k.dev, k.lba, data))
      ensures rc == 0 ==> index < |devs| && |Puts(ios)| == |data| && match devs[index].kind
        case Whole => forall j :: 0 <= j < |data| ==> Puts(ios)[j] == (Key(index, lba + j), data[j])
        case Part(parent, start) => forall j :: 0 <= j < |data| ==> Puts(ios)[j] == (Key(parent, start + lba + j), data[j])
    {
      hide CacheOk;
      rc, ios := 0, [];
      if index >= |devs| || |data| == 0 { return -1, []; }
      if !devs[index].canWrite { return -2, []; }
      if devs[index].readonly { return -3, []; }
      if lba >= devs[index].blockCount { return -4, []; }
      if devs[index].blockCount - lba < |data| { return -5, []; }
      match devs[index].kind
      case Whole => rc, ios := WriteWhole(index, lba, data);
      case Part(parent, start) => rc, ios := WriteWhole(parent, start + lba, data);
    }

    /** Writes back every dirty entry of the given devices. */
    method FlushDevs(all: bool, a: nat, b: nat) returns (rc: int, ghost ios: seq<Io<Key, B>>)
      requires Valid()
      modifies this`disk, this`entries, this`writebacks, this`faults
      ensures Valid() && rc <= 0 && NoneButFaults(old(faults), rc)
      ensures W() == ApplyAll(old(W()), ios) && Puts(ios) == []
      ensures rc == 0 ==> forall k :: k in log && (all || k.dev == a || k.dev == b) ==> k in disk && disk[k] == log[k]
      ensures forall k :: k in disk && k in old(disk) && !(all || k.dev == a || k.dev == b) ==> disk[k] == old(disk)[k]
    {
      hide CacheOk;
      rc, ios := 0, [];
      ghost var w := W();
      var i := 0;
      while i < |entries|
        invariant 0 <= i <= |entries| == |old(entries)| && Valid() && rc == 0 && faults >= old(faults)
        invariant W() == ApplyAll(w, ios) && Puts(ios) == []
        invariant forall k :: k in disk && k in old(disk) && !(all || k.dev == a || k.dev == b) ==> disk[k] == old(disk)[k]
        invariant forall j :: 0 <= j < i && entries[j].valid && (all || entries[j].key.dev == a || entries[j].key.dev == b) ==> !entries[j].dirty
      {
        var e := entries[i];
        if e.valid && e.dirty && (all || e.key.dev == a || e.key.dev == b) {
          ghost var more;
          rc, more := Writeback(i);
          ApplyAllConcat(w, ios, more);
          PutsConcat(ios, more);
          ios := ios + more;
          if rc < 0 { return; }
        }
        i := i + 1;
      }
      CleanMeansEqual(entries, devs, disk, log, all, a, b);
    }

    /** blockdev_flush: the device's own entries and, for a partition, its parent's. */
    method Flush(index: nat) returns (rc: int, ghost ios: seq<Io<Key, B>>)
      requires Valid()
      modifies this`disk, this`entries, this`writebacks, this`faults
      ensures Valid() && rc <= 0 && faults >= old(faults) && (if index >= |devs| then rc == -1 else NoneButFaults(old(faults), rc))
      ensures W() == ApplyAll(old(W()), ios) && Puts(ios) == []
      ensures rc == 0 ==> index < |devs| && forall lba :: 0 <= lba < devs[index].blockCount ==>
                var k := Resolve(devs, index, lba); k in disk && k in log && disk[k] == log[k]
      ensures forall k :: k in disk && k in old(disk) && disk[k] != old(disk)[k] ==>
                index < |devs| && (k.dev == index || (devs[index].kind.Part? && devs[index].kind.parent == k.dev))
    {
      hide CacheOk;
      if index >= |devs| { return -1, []; }
      var target := match devs[index].kind case Whole => index case Part(parent, _) => parent;
      rc, ios := FlushDevs(false, index, target);
      FlushedKeys(entries, devs, disk, log, index);
    }

    /** blockdev_flush_all: the disks are what readers see. */
    method FlushAll() returns (rc: int, ghost ios: seq<Io<Key, B>>)
      requires Valid()
      modifies this`disk, this`entries, this`writebacks, this`faults
      ensures Valid() && rc <= 0 && NoneButFaults(old(faults), rc)
      ensures W() == ApplyAll(old(W()), ios) && Puts(ios) == []
      ensures rc == 0 ==> disk == log
    {
      hide CacheOk;
      rc, ios := FlushDevs(true, 0, 0);
      SameKeys(entries, devs, disk, log);
    }
  }

  lemma AllInLog<B>(entries: seq<Entry<B>>, devs: seq<Device>, disk: map<Key, B>, log: map<Key, B>, dev: nat, lba: nat, n: nat)
    requires CacheOk(entries, devs, disk, log) && dev < |devs| && devs[dev].kind.Whole? && lba + n <= devs[dev].blockCount
    ensures forall j :: lba <= j < lba + n ==> Key(dev, j) in log && Key(dev, j) in disk && KeyOk(devs, Key(dev, j))
  {
  }

  lemma UncachedSame<B>(entries: seq<Entry<B>>, devs: seq<Device>, disk: map<Key, B>, log: map<Key, B>, dev: nat)
    requires CacheOk(entries, devs, disk, log) && dev < |devs| && !Cached(devs[dev])
    ensures forall k :: k in disk && k in log && k.dev == dev ==> disk[k] == log[k]
  {
  }

  lemma RawSteps<B>(w: Wb<Key, B>, k: Key, b: B)
    ensures ApplyAll(w, [Put(k, b), Copy(k)]) == Wb(w.disk[k := b], w.log[k := b]) && Puts([Put(k, b), Copy(k)]) == [(k, b)]
  {
    ApplyAllSnoc(w, [], Put(k, b));
    ApplyAllSnoc(w, [] + [Put(k, b)], Copy(k));
    assert [] + [Put(k, b)] + [Copy(k)] == [Put(k, b), Copy(k)];
  }

  lemma CleanMeansEqual<B>(entries: seq<Entry<B>>, devs: seq<Device>, disk: map<Key, B>, log: map<Key, B>, all: bool, a: nat, b: nat)
    requires CacheOk(entries, devs, disk, log)
    requires forall j :: 0 <= j < |entries| && entries[j].valid && (all || entries[j].key.dev == a || entries[j].key.dev == b) ==> !entries[j].dirty
    ensures forall k :: k in log && (all || k.dev == a || k.dev == b) ==> k in disk && disk[k] == log[k]
  {
  }

  lemma FlushedKeys<B>(entries: seq<Entry<B>>, devs: seq<Device>, disk: map<Key, B>, log: map<Key, B>, index: nat)
    requires CacheOk(entries, devs, disk, log) && DevsOk(devs) && index < |devs|
    ensures forall lba :: 0 <= lba < devs[index].blockCount ==>
              var k := Resolve(devs, index, lba); k in disk && k in log && (k.dev == index || devs[index].kind == Part(k.dev, k.lba - lba))
  {
    forall lba | 0 <= lba < devs[index].blockCount ensures KeyOk(devs, Resolve(devs, index, lba)) { }
  }

  lemma SameKeys<B>(entries: seq<Entry<B>>, devs: seq<Device>, disk: map<Key, B>, log: map<Key, B>)
    requires CacheOk(entries, devs, disk, log)
    ensures disk.Keys == log.Keys
  {
  }

  lemma InLog<B>(entries: seq<Entry<B>>, devs: seq<Device>, disk: map<Key, B>, log: map<Key, B>, k: Key)
    requires CacheOk(entries, devs, disk, log) && KeyOk(devs, k)
    ensures k in disk && k in log
  {
  }

  lemma HeldKey<B>(entries: seq<Entry<B>>, devs: seq<Device>, disk: map<Key, B>, log: map<Key, B>, i: nat)
    requires CacheOk(entries, devs, disk, log) && i < |entries| && entries[i].valid
    ensures KeyOk(devs, entries[i].key)
  {
    assert EntryOk(entries[i], devs, disk, log);
  }

  lemma HitData<B>(entries: seq<Entry<B>>, devs: seq<Device>, disk: map<Key, B>, log: map<Key, B>, i: nat)
    requires CacheOk(entries, devs, disk, log) && i < |entries| && entries[i].valid
    ensures entries[i].key in log && entries[i].data == log[entries[i].key]
  {
    assert EntryOk(entries[i], devs, disk, log);
  }

  /** A block without an entry is on the disk as readers see it. */
  lemma LoadedData<B>(entries: seq<Entry<B>>, devs: seq<Device>, disk: map<Key, B>, log: map<Key, B>, k: Key)
    requires CacheOk(entries, devs, disk, log) && KeyOk(devs, k)
    requires forall j :: 0 <= j < |entries| ==> !Holds(entries[j], k)
    ensures k in disk && k in log && disk[k] == log[k]
  {
    assert Backed(entries, disk, log);
  }

  /** Same entries up to reference bits. */
  ghost predicate RefsOnly<B>(a: seq<Entry<B>>, b: seq<Entry<B>>) {
    |a| == |b| && forall j :: 0 <= j < |a| ==> b[j].(ref := a[j].ref) == a[j]
  }

  lemma RefsOnlyKeeps<B>(a: seq<Entry<B>>, b: seq<Entry<B>>, devs: seq<Device>, disk: map<Key, B>, log: map<Key, B>)
    requires CacheOk(a, devs, disk, log) && RefsOnly(a, b)
    ensures CacheOk(b, devs, disk, log)
  {
    forall k | k in disk && k in log && disk[k] != log[k] ensures exists j :: 0 <= j < |b| && Holds(b[j], k) {
      var j :| 0 <= j < |a| && Holds(a[j], k);
      assert Holds(b[j], k);
    }
    forall j | 0 <= j < |b| ensures EntryOk(b[j], devs, disk, log) { assert EntryOk(a[j], devs, disk, log); }
  }

  /** j steps on from start, going round n places. */
  function Around(start: nat, j: nat, n: nat): nat
    requires start < n && j <= n
  {
    if start + j < n then start + j else start + j - n
  }

  /** Steps of the hand from start to slot q. */
  function Distance(start: nat, q: nat, n: nat): int { if q >= start then q - start else q + n - start }

  /** A slot the hand passed was referenced and is so no longer; any other is as it was. */
  ghost predicate Swept<B>(a: Entry<B>, b: Entry<B>, passed: bool) { if passed then a.ref && b == a.(ref := false) else b == a }

  /**
   From a to b the hand passed the first k slots from start on, all of them referenced, and stopped
   at slot i: the first that was not, or, if all were, the one it started from.
   */
  ghost predicate Clocked<B>(a: seq<Entry<B>>, b: seq<Entry<B>>, start: nat, i: nat, k: nat) {
    Passed(a, b, start, k) && i < |a| && (if k < |a| then Distance(start, i, |a|) == k && !a[i].ref else i == start)
  }

  ghost predicate Passed<B>(a: seq<Entry<B>>, b: seq<Entry<B>>, start: nat, k: nat) {
    && |a| == |b| && start < |a| && k <= |a|
    && forall q :: 0 <= q < |a| ==> Swept(a[q], b[q], Distance(start, q, |a|) < k)
  }

  lemma NonePassed<B>(a: seq<Entry<B>>, start: nat)
    requires start < |a|
    ensures Passed(a, a, start, 0) && Around(start, 0, |a|) == start
  {
  }

  lemma PassOne<B>(a: seq<Entry<B>>, b: seq<Entry<B>>, start: nat, k: nat)
    requires Passed(a, b, start, k) && k < |a| && b[Around(start, k, |a|)].ref
    ensures var h := Around(start, k, |a|); Passed(a, b[h := b[h].(ref := false)], start, k + 1)
  {
    var h := Around(start, k, |a|);
    forall q | 0 <= q < |a| ensures Swept(a[q], b[h := b[h].(ref := false)][q], Distance(start, q, |a|) < k + 1) {
      assert Swept(a[q], b[q], Distance(start, q, |a|) < k);
    }
  }

  lemma PassedRefs<B>(a: seq<Entry<B>>, b: seq<Entry<B>>, start: nat, k: nat)
    requires Passed(a, b, start, k)
    ensures RefsOnly(a, b) && Around(start, k, |a|) < |a| && (k == |a| ==> !b[Around(start, k, |a|)].ref)
    ensures !b[Around(start, k, |a|)].ref ==> Clocked(a, b, start, Around(start, k, |a|), k)
  {
    forall q | 0 <= q < |a| ensures b[q].(ref := a[q].ref) == a[q] { assert Swept(a[q], b[q], Distance(start, q, |a|) < k); }
    var h := Around(start, k, |a|);
    assert Swept(a[h], b[h], Distance(start, h, |a|) < k);
  }

  lemma AllStillValid<B>(a: seq<Entry<B>>, b: seq<Entry<B>>)
    requires RefsOnly(a, b) && forall j :: 0 <= j < |a| ==> a[j].valid
    ensures |b| == |a| && forall j :: 0 <= j < |b| ==> b[j].valid
  {
    forall j | 0 <= j < |b| ensures b[j].valid { assert b[j].(ref := a[j].ref) == a[j]; }
  }

  lemma AroundNext(start: nat, j: nat, n: nat)
    requires start < n && j < n
    ensures Around(start, j, n) < n && Around(start, j + 1, n) == (Around(start, j, n) + 1) % n
  {
    var h := Around(start, j, n);
    if h + 1 < n { assert (h + 1) % n == h + 1; } else { assert (h + 1) % n == 0; }
  }
}
