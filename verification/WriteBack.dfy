/**
 A disk behind a write-back cache, reduced to what matters for crashes: a write changes what
 readers see, and at any moment the current contents of any block may be copied to the disk.
 */
module WriteBack {

  /** Put is a write into the cache; Copy is the driver writing one block's current contents. */
  datatype Io<K, B> = Put(k: K, b: B) | Copy(k: K)

  datatype Wb<K, B> = Wb(disk: map<K, B>, log: map<K, B>)

  function Apply<K, B>(s: Wb<K, B>, io: Io<K, B>): Wb<K, B> {
    match io
    case Put(k, b) => s.(log := s.log[k := b])
    case Copy(k) => if k in s.log then s.(disk := s.disk[k := s.log[k]]) else s
  }

  function ApplyAll<K, B>(s: Wb<K, B>, ios: seq<Io<K, B>>): Wb<K, B> {
    if ios == [] then s else Apply(ApplyAll(s, ios[..|ios| - 1]), ios[|ios| - 1])
  }

  /** The writes among the steps, in order. */
  function Puts<K, B>(ios: seq<Io<K, B>>): seq<(K, B)> {
    if ios == [] then []
    else
      var io := ios[|ios| - 1];
      Puts(ios[..|ios| - 1]) + (if io.Put? then [(io.k, io.b)] else [])
  }

  lemma {:induction false} ApplyAllConcat<K, B>(s: Wb<K, B>, a: seq<Io<K, B>>, b: seq<Io<K, B>>)
    ensures ApplyAll(s, a + b) == ApplyAll(ApplyAll(s, a), b)
    decreases |b|
  {
    if b == [] {
      assert a + b == a;
    } else {
      assert (a + b)[..|a + b| - 1] == a + b[..|b| - 1];
      ApplyAllConcat(s, a, b[..|b| - 1]);
    }
  }

  lemma {:induction false} PutsConcat<K, B>(a: seq<Io<K, B>>, b: seq<Io<K, B>>)
    ensures Puts(a + b) == Puts(a) + Puts(b)
    decreases |b|
  {
    if b == [] {
      assert a + b == a;
    } else {
      assert (a + b)[..|a + b| - 1] == a + b[..|b| - 1];
      PutsConcat(a, b[..|b| - 1]);
    }
  }

  lemma ApplyAllSnoc<K, B>(s: Wb<K, B>, a: seq<Io<K, B>>, io: Io<K, B>)
    ensures ApplyAll(s, a + [io]) == Apply(ApplyAll(s, a), io)
    ensures Puts(a + [io]) == Puts(a) + (if io.Put? then [(io.k, io.b)] else [])
  {
    assert (a + [io])[..|a|] == a;
  }

  /**
   What a crash can find: every block of the disk holds the value it had at the start, the
   value readers saw at the start, or a value written since.
   */
  lemma {:induction false} CrashValues<K, B>(s: Wb<K, B>, ios: seq<Io<K, B>>, k: K)
    ensures var t := ApplyAll(s, ios);
            && (k in t.disk ==>
                  || (k in s.disk && t.disk[k] == s.disk[k])
                  || (k in s.log && t.disk[k] == s.log[k])
                  || (k, t.disk[k]) in Puts(ios))
            && (k in t.log ==> (k in s.log && t.log[k] == s.log[k]) || (k, t.log[k]) in Puts(ios))
    decreases |ios|
  {
    if ios != [] { CrashValues(s, ios[..|ios| - 1], k); }
  }

  /** A block that is not written keeps what readers see, and can only become that on the disk. */
  lemma {:induction false} Unwritten<K, B>(s: Wb<K, B>, ios: seq<Io<K, B>>, k: K)
    requires forall i :: 0 <= i < |ios| && ios[i].Put? ==> ios[i].k != k
    ensures var t := ApplyAll(s, ios);
            && (k in t.log <==> k in s.log) && (k in s.log ==> t.log[k] == s.log[k])
            && (k in t.disk ==> (k in s.disk && t.disk[k] == s.disk[k]) || (k in s.log && t.disk[k] == s.log[k]))
            && (k in s.disk ==> k in t.disk)
    decreases |ios|
  {
    if ios != [] { Unwritten(s, ios[..|ios| - 1], k); }
  }

  /** A plain array of blocks after some writes. */
  function PutAll<K, B>(m: map<K, B>, puts: seq<(K, B)>): map<K, B> {
    if puts == [] then m
    else
      var last := puts[|puts| - 1];
      PutAll(m, puts[..|puts| - 1])[last.0 := last.1]
  }

  /** What readers see is the plain array after the writes; copying blocks to the disk does not matter. */
  lemma {:induction false} LogIsPuts<K, B>(s: Wb<K, B>, ios: seq<Io<K, B>>)
    ensures ApplyAll(s, ios).log == PutAll(s.log, Puts(ios))
    decreases |ios|
  {
    if ios != [] {
      var io := ios[|ios| - 1];
      LogIsPuts(s, ios[..|ios| - 1]);
      var before := Puts(ios[..|ios| - 1]);
      assert before + [] == before;
      if io.Put? { assert (before + [(io.k, io.b)])[..|before|] == before; }
    }
  }

  lemma {:induction false} PutAllConcat<K, B>(m: map<K, B>, a: seq<(K, B)>, b: seq<(K, B)>)
    ensures PutAll(m, a + b) == PutAll(PutAll(m, a), b)
    decreases |b|
  {
    if b == [] {
      assert a + b == a;
    } else {
      assert (a + b)[..|a + b| - 1] == a + b[..|b| - 1];
      PutAllConcat(m, a, b[..|b| - 1]);
    }
  }
}
