/**
 Names in minfs (kernel/minfs.c): creating and unlinking by parent directory and name. The
 directory tree is a map from parent and name to a node, and each call changes one entry of it.
 */
module MinfsNames {
  import opened MinfsTable
  import opened MinfsDisk
  import opened MinfsFs
  import opened MinfsRuns

  const NAME_BYTES: nat := 64

  /** A C string without its terminating zero. */
  type Str = seq<nat>

  predicate IsStr(s: Str) { forall i :: 0 <= i < |s| ==> 0 < s[i] < 256 }

  function WordByte(w: nat, k: nat): (b: nat)
    ensures b < 256
  {
    if k == 0 then w % 256 else if k == 1 then w / 256 % 256 else if k == 2 then w / 65536 % 256 else w / 16777216 % 256
  }

  /** Byte i of the name field of record x. */
  function NameByte(t: Table, x: nat, i: nat): nat
    requires (x + 1) * NODE_WORDS <= |t| && i < NAME_BYTES
  {
    WordByte(Word(t, x, NAME + i / 4), i % 4)
  }

  /** The string in the name field, from byte i on. */
  function CStr(t: Table, x: nat, i: nat): Str
    requires (x + 1) * NODE_WORDS <= |t| && i <= NAME_BYTES
    decreases NAME_BYTES - i
  {
    if i == NAME_BYTES || NameByte(t, x, i) == 0 then [] else [NameByte(t, x, i)] + CStr(t, x, i + 1)
  }

  function StrByte(s: Str, i: nat): nat { if i < |s| then s[i] else 0 }

  /** strncpy into a field of zeros. */
  function Pack(s: Str): (r: seq<nat>)
    ensures |r| == FIRST_DIRECT - NAME
    ensures forall k :: 0 <= k < |r| ==>
      r[k] == StrByte(s, 4 * k) + 256 * StrByte(s, 4 * k + 1) + 65536 * StrByte(s, 4 * k + 2) + 16777216 * StrByte(s, 4 * k + 3)
  {
    seq(FIRST_DIRECT - NAME, k requires 0 <= k =>
      StrByte(s, 4 * k) + 256 * StrByte(s, 4 * k + 1) + 65536 * StrByte(s, 4 * k + 2) + 16777216 * StrByte(s, 4 * k + 3))
  }

  lemma FourBytes(a: nat, b: nat, c: nat, d: nat)
    requires a < 256 && b < 256 && c < 256 && d < 256
    ensures var w := a + 256 * b + 65536 * c + 16777216 * d;
      WordByte(w, 0) == a && WordByte(w, 1) == b && WordByte(w, 2) == c && WordByte(w, 3) == d
  {
    var w := a + 256 * b + 65536 * c + 16777216 * d;
    assert w / 256 == b + 256 * c + 65536 * d;
    assert w / 65536 == c + 256 * d;
    assert w / 16777216 == d;
  }

  /** Reading back a name that was packed. */
  lemma {:induction false} PackRound(t: Table, x: nat, s: Str, i: nat)
    requires (x + 1) * NODE_WORDS <= |t| && IsStr(s) && |s| < NAME_BYTES && i <= |s|
    requires forall k :: 0 <= k < FIRST_DIRECT - NAME ==> Word(t, x, NAME + k) == Pack(s)[k]
    ensures CStr(t, x, i) == s[i..]
    decreases |s| - i
  {
    hide WordByte;
    var k := i / 4;
    FourBytes(StrByte(s, 4 * k), StrByte(s, 4 * k + 1), StrByte(s, 4 * k + 2), StrByte(s, 4 * k + 3));
    assert Word(t, x, NAME + k) == Pack(s)[k];
    assert i == 4 * k + i % 4;
    assert NameByte(t, x, i) == StrByte(s, i);
    if i < |s| {
      PackRound(t, x, s, i + 1);
      assert s[i..] == [s[i]] + s[i + 1..];
    }
  }

  // ----- looking up ---------------------------------------------------------------------------------

  /** Record i is in use, in directory p, under the name s. */
  /** The string in the name field of record x: its bytes, four to a word from word 4 on, up to a zero or the end of the field. */
  lemma {:induction false} CStrIs(t: Table, x: nat, i: nat)
    requires (x + 1) * NODE_WORDS <= |t| && i <= 64
    ensures i + |CStr(t, x, i)| <= 64
    ensures forall k :: 0 <= k < |CStr(t, x, i)| ==> CStr(t, x, i)[k] == NameByte(t, x, i + k) != 0
    ensures i + |CStr(t, x, i)| < 64 ==> NameByte(t, x, i + |CStr(t, x, i)|) == 0
    decreases 64 - i
  {
    hide NameByte;
    if i < 64 && NameByte(t, x, i) != 0 {
      CStrIs(t, x, i + 1);
      var rest := CStr(t, x, i + 1);
      assert CStr(t, x, i) == [NameByte(t, x, i)] + rest;
      forall k | 0 <= k < |rest| + 1 ensures CStr(t, x, i)[k] == NameByte(t, x, i + k) != 0 {
        if k > 0 { assert rest[k - 1] == NameByte(t, x, i + 1 + (k - 1)); }
      }
    }
  }

  predicate Matches(t: Table, n: nat, i: nat, p: nat, s: Str)
    requires |t| == n * NODE_WORDS && i < n
  {
    UsedWord(Word(t, i, 0)) && Word(t, i, PARENT) == p && CStr(t, i, 0) == s
  }

  /** The first record from i on that matches; n if there is none. */
  function Lookup(t: Table, n: nat, p: nat, s: Str, i: nat): (x: nat)
    requires |t| == n * NODE_WORDS && i <= n
    ensures i <= x <= n && (x < n ==> Matches(t, n, x, p, s)) && forall k :: i <= k < x ==> !Matches(t, n, k, p, s)
    decreases n - i
  {
    if i == n || Matches(t, n, i, p, s) then i else Lookup(t, n, p, s, i + 1)
  }

  /** No two nodes of a directory have the same name. */
  ghost predicate Unique(t: Table, n: nat)
    requires |t| == n * NODE_WORDS
  {
    forall i, j, p, s :: 0 <= i < n && 0 <= j < n && Matches(t, n, i, p, s) && Matches(t, n, j, p, s) ==> i == j
  }

  /** minfs_find_child_node, without the vnode. */
  method FindChild(fs: Minfs, p: nat, s: Str) returns (x: nat)
    requires |fs.table| == fs.g.n * NODE_WORDS
    ensures x == Lookup(fs.table, fs.g.n, p, s, 0) && x <= fs.g.n
    ensures x < fs.g.n ==> ChildOf(fs.table, fs.g.n, x, p) && CStr(fs.table, x, 0) == s
    ensures forall i :: 0 <= i < x && ChildOf(fs.table, fs.g.n, i, p) ==> CStr(fs.table, i, 0) != s
  {
    hide CStr;
    x := 0;
    while x < fs.g.n
      invariant 0 <= x <= fs.g.n && Lookup(fs.table, fs.g.n, p, s, 0) == Lookup(fs.table, fs.g.n, p, s, x)
      invariant forall i :: 0 <= i < x && ChildOf(fs.table, fs.g.n, i, p) ==> CStr(fs.table, i, 0) != s
    {
      if UsedWord(fs.table[x * NODE_WORDS]) && fs.table[x * NODE_WORDS + PARENT] == p && CStr(fs.table, x, 0) == s { return; }
      x := x + 1;
    }
  }

  lemma LookupIs(t: Table, n: nat, p: nat, s: Str, x: nat)
    requires |t| == n * NODE_WORDS && x <= n && (x < n ==> Matches(t, n, x, p, s)) && forall k :: 0 <= k < x ==> !Matches(t, n, k, p, s)
    ensures Lookup(t, n, p, s, 0) == x
  {
    hide Matches;
    assert Lookup(t, n, p, s, 0) == x;
  }

  /** Tables in which the same records match answer a lookup alike. */
  lemma SameLookup(t: Table, u: Table, n: nat, p: nat, s: Str)
    requires |t| == |u| == n * NODE_WORDS && forall i :: 0 <= i < n ==> Matches(t, n, i, p, s) == Matches(u, n, i, p, s)
    ensures Lookup(u, n, p, s, 0) == Lookup(t, n, p, s, 0)
  {
    hide Matches;
    LookupIs(u, n, p, s, Lookup(t, n, p, s, 0));
  }

  lemma {:induction false} SameName(t: Table, u: Table, i: nat, k: nat)
    requires (i + 1) * NODE_WORDS <= |t| && (i + 1) * NODE_WORDS <= |u| && k <= NAME_BYTES
    requires forall j :: NAME <= j < FIRST_DIRECT ==> Word(u, i, j) == Word(t, i, j)
    ensures CStr(u, i, k) == CStr(t, i, k)
    decreases NAME_BYTES - k
  {
    hide WordByte;
    if k < NAME_BYTES {
      assert Word(u, i, NAME + k / 4) == Word(t, i, NAME + k / 4);
      SameName(t, u, i, k + 1);
    }
  }

  /** Record x is replaced by r and directory sizes are counted again: every other record matches what it matched. */
  lemma OthersMatch(t: Table, u: Table, n: nat, x: nat, r: seq<nat>, i: nat, p: nat, s: Str)
    requires |t| == |u| == n * NODE_WORDS && x < n && |r| == NODE_WORDS && i < n && i != x
    requires IsRefreshed(Minfs.SetRecord(t, x, r), u, n) || u == Minfs.SetRecord(t, x, r)
    ensures Matches(u, n, i, p, s) == Matches(t, n, i, p, s)
  {
    hide Minfs.SetRecord, UsedWord, DirWord;
    var v := Minfs.SetRecord(t, x, r);
    forall k | 0 <= k < NODE_WORDS && k != SIZE ensures Word(u, i, k) == Word(t, i, k) {
      assert (i * NODE_WORDS + k) / NODE_WORDS == i;
      assert Word(v, i, k) == Word(t, i, k);
    }
    SameName(t, u, i, 0);
  }

  /** The new record matches its parent and name and nothing else; a record not in use matches nothing. */
  lemma NewMatches(t: Table, u: Table, n: nat, x: nat, word0: nat, p: nat, name: Str, q: nat, s: Str)
    requires |t| == |u| == n * NODE_WORDS && x < n && UsedWord(word0) && IsStr(name) && |name| < NAME_BYTES
    requires IsRefreshed(Minfs.SetRecord(t, x, Minfs.Record(word0, p, Pack(name))), u, n)
    ensures Matches(u, n, x, q, s) <==> q == p && s == name
  {
    hide Minfs.SetRecord, UsedWord, DirWord, Pack;
    var r := Minfs.Record(word0, p, Pack(name));
    var v := Minfs.SetRecord(t, x, r);
    assert Word(u, x, 0) == r[0] && Word(u, x, PARENT) == r[PARENT];
    forall k | 0 <= k < FIRST_DIRECT - NAME ensures Word(u, x, NAME + k) == Pack(name)[k] {
      assert Word(v, x, NAME + k) == r[NAME + k];
    }
    PackRound(u, x, name, 0);
    assert name[0..] == name;
  }

  // ----- creating and unlinking by name ---------------------------------------------------------------

  /** The tree t with the entry (p, name) leading to x, or with x == n to nothing; all others as in t0. */
  ghost predicate OneEntry(t0: Table, t: Table, n: nat, p: nat, name: Str, x: nat)
    requires |t0| == |t| == n * NODE_WORDS
  {
    && Lookup(t, n, p, name, 0) == x
    && forall q, s :: !(q == p && s == name) ==> Lookup(t, n, q, s, 0) == Lookup(t0, n, q, s, 0)
  }

  ghost predicate SameTree(t0: Table, t: Table, n: nat)
    requires |t0| == |t| == n * NODE_WORDS
  {
    forall q, s :: Lookup(t, n, q, s, 0) == Lookup(t0, n, q, s, 0)
  }

  /**
   minfs_create of `name` in directory p. `lookupOk` and `vnodeOk` are whether memory for a vnode
   was found when the name was looked up and when the node was made. A new name gets a node of
   its own and no other lookup changes. Names stay unique, unless the lookup of an existing name
   ran out of memory: it then counts as missing, and the create makes a twin.
   */
  method Create(fs: Minfs, p: nat, isFile: bool, name: Str, lookupOk: bool, vnodeOk: bool) returns (rc: int, x: nat)
    requires fs.Idle() && p < fs.g.n && IsStr(name)
    modifies fs
    ensures fs.Idle() && (rc == 0 || rc == -1)
    ensures rc == 0 <==>
      && DirWord(Word(old(fs.table), p, 0)) && 0 < |name| < NAME_BYTES
      && (Lookup(old(fs.table), fs.g.n, p, name, 0) == fs.g.n || !lookupOk) && vnodeOk && FirstFree(old(fs.table), fs.g.n, 1) < fs.g.n
    ensures rc == -1 ==> SameTree(old(fs.table), fs.table, fs.g.n)
    ensures rc == 0 && Lookup(old(fs.table), fs.g.n, p, name, 0) == fs.g.n ==>
      x == FirstFree(old(fs.table), fs.g.n, 1) && OneEntry(old(fs.table), fs.table, fs.g.n, p, name, x)
    ensures rc == 0 ==> x == FirstFree(old(fs.table), fs.g.n, 1)
    ensures rc == 0 ==> IsRefreshed(Minfs.SetRecord(old(fs.table), x, Minfs.Record(Minfs.NewWord(isFile), p, Pack(name))), fs.table, fs.g.n)
    ensures Unique(old(fs.table), fs.g.n) ==>
      (Unique(fs.table, fs.g.n) <==> !(rc == 0 && Lookup(old(fs.table), fs.g.n, p, name, 0) < fs.g.n))
  {
    hide Live, AllGood, Matches, Unique, SameTree, OneEntry, IsRefreshed, Minfs.SetRecord, Minfs.Record, Minfs.Blank, Pack, UsedWord, DirWord,
         FirstFree, TableSynced;
    ghost var t, n := fs.table, fs.g.n;
    Nothing(t, n);
    x := 0;
    if !DirWord(fs.table[p * NODE_WORDS]) { return -1, 0; }
    if |name| == 0 || |name| >= NAME_BYTES { return -1, 0; }
    var child := FindChild(fs, p, name);
    if child < fs.g.n && lookupOk { return -1, 0; }
    rc, x := fs.Create(p, isFile, Pack(name), vnodeOk);
    FirstIs(t, n, x);
    if rc == 0 {
      NewIsUsed(isFile);
      Created(t, fs.table, n, x, Minfs.NewWord(isFile), p, name);
    } else if x < n {
      Cleared(t, fs.table, n, x);
    }
  }

  lemma NewIsUsed(isFile: bool)
    ensures UsedWord(Minfs.NewWord(isFile))
  {
  }

  lemma Nothing(t: Table, n: nat)
    requires |t| == n * NODE_WORDS
    ensures SameTree(t, t, n)
  {
  }

  lemma Created(t: Table, u: Table, n: nat, x: nat, word0: nat, p: nat, name: Str)
    requires |t| == |u| == n * NODE_WORDS && x < n && !UsedWord(Word(t, x, 0)) && UsedWord(word0) && IsStr(name) && |name| < NAME_BYTES
    requires IsRefreshed(Minfs.SetRecord(t, x, Minfs.Record(word0, p, Pack(name))), u, n)
    ensures Lookup(t, n, p, name, 0) == n ==> OneEntry(t, u, n, p, name, x)
    ensures Unique(t, n) ==> (Unique(u, n) <==> Lookup(t, n, p, name, 0) == n)
  {
    hide Minfs.SetRecord, UsedWord, IsRefreshed, Minfs.Record, Pack, CStr;
    forall i, q, s | 0 <= i < n
      ensures Matches(u, n, i, q, s) == if i == x then q == p && s == name else Matches(t, n, i, q, s)
      ensures i == x ==> !Matches(t, n, i, q, s)
    {
      if i == x {
        NewMatches(t, u, n, x, word0, p, name, q, s);
      } else {
        OthersMatch(t, u, n, x, Minfs.Record(word0, p, Pack(name)), i, q, s);
      }
    }
    CreatedTree(t, u, n, x, p, name);
    CreatedUnique(t, u, n, x, p, name);
  }

  lemma CreatedTree(t: Table, u: Table, n: nat, x: nat, p: nat, name: Str)
    requires |t| == |u| == n * NODE_WORDS && x < n
    requires forall i, q, s :: 0 <= i < n ==> Matches(u, n, i, q, s) == if i == x then q == p && s == name else Matches(t, n, i, q, s)
    requires forall q, s :: !Matches(t, n, x, q, s)
    ensures Lookup(t, n, p, name, 0) == n ==> OneEntry(t, u, n, p, name, x)
  {
    hide Matches;
    if Lookup(t, n, p, name, 0) == n { LookupIs(u, n, p, name, x); }
    forall q, s | !(q == p && s == name) ensures Lookup(u, n, q, s, 0) == Lookup(t, n, q, s, 0) { SameLookup(t, u, n, q, s); }
  }

  lemma CreatedUnique(t: Table, u: Table, n: nat, x: nat, p: nat, name: Str)
    requires |t| == |u| == n * NODE_WORDS && x < n
    requires forall i, q, s :: 0 <= i < n ==> Matches(u, n, i, q, s) == if i == x then q == p && s == name else Matches(t, n, i, q, s)
    requires forall q, s :: !Matches(t, n, x, q, s)
    ensures Unique(t, n) ==> (Unique(u, n) <==> Lookup(t, n, p, name, 0) == n)
  {
    hide Matches;
    var y := Lookup(t, n, p, name, 0);
    if y < n { assert Matches(u, n, x, p, name) && Matches(u, n, y, p, name) && x != y; }
  }

  /** A record that goes out of use: its entry is gone, and if names are unique nothing else changes. */
  lemma Cleared(t: Table, u: Table, n: nat, x: nat)
    requires |t| == |u| == n * NODE_WORDS && x < n
    requires IsRefreshed(Minfs.SetRecord(t, x, Minfs.Blank()), u, n) || u == Minfs.SetRecord(t, x, Minfs.Blank())
    ensures Unique(t, n) ==> Unique(u, n)
    ensures !UsedWord(Word(t, x, 0)) ==> SameTree(t, u, n)
    ensures forall p, s :: Unique(t, n) && Matches(t, n, x, p, s) ==> OneEntry(t, u, n, p, s, n)
  {
    hide Minfs.SetRecord, CStr;
    BlankUnused(t, u, n, x);
    forall i, q, s | 0 <= i < n ensures Matches(u, n, i, q, s) == (i != x && Matches(t, n, i, q, s)) {
      if i != x { OthersMatch(t, u, n, x, Minfs.Blank(), i, q, s); }
    }
    ClearedTree(t, u, n, x);
  }

  lemma BlankUnused(t: Table, u: Table, n: nat, x: nat)
    requires |t| == |u| == n * NODE_WORDS && x < n
    requires IsRefreshed(Minfs.SetRecord(t, x, Minfs.Blank()), u, n) || u == Minfs.SetRecord(t, x, Minfs.Blank())
    ensures !UsedWord(Word(u, x, 0))
  {
    hide Minfs.SetRecord, Minfs.Blank;
    assert Word(u, x, 0) == Minfs.Blank()[0];
  }

  lemma ClearedTree(t: Table, u: Table, n: nat, x: nat)
    requires |t| == |u| == n * NODE_WORDS && x < n
    requires forall i, q, s :: 0 <= i < n ==> Matches(u, n, i, q, s) == (i != x && Matches(t, n, i, q, s))
    ensures Unique(t, n) ==> Unique(u, n)
    ensures !UsedWord(Word(t, x, 0)) ==> SameTree(t, u, n)
    ensures forall p, s :: Unique(t, n) && Matches(t, n, x, p, s) ==> OneEntry(t, u, n, p, s, n)
  {
    if !UsedWord(Word(t, x, 0)) {
      forall q, s ensures Lookup(u, n, q, s, 0) == Lookup(t, n, q, s, 0) { SameLookup(t, u, n, q, s); }
    }
    forall p, s | Unique(t, n) && Matches(t, n, x, p, s) ensures OneEntry(t, u, n, p, s, n) {
      hide UsedWord, CStr;
      LookupIs(u, n, p, s, n);
      forall q, z | !(q == p && z == s) ensures Lookup(u, n, q, z, 0) == Lookup(t, n, q, z, 0) { SameLookup(t, u, n, q, z); }
    }
  }

  /**
   minfs_unlink of `name` in directory p. If names are unique, afterwards the name leads nowhere
   and no other lookup changes; a failed unlink changes nothing.
   */
  method Unlink(fs: Minfs, p: nat, name: Str, lookupOk: bool) returns (rc: int)
    requires fs.Idle() && p < fs.g.n && IsStr(name)
    modifies fs
    ensures fs.Idle() && (rc == 0 || rc == -1)
    ensures var t, n := old(fs.table), fs.g.n;
      var x := Lookup(t, n, p, name, 0);
      rc == 0 <==> DirWord(Word(t, p, 0)) && 0 < x < n && lookupOk && !(DirWord(Word(t, x, 0)) && exists i :: 0 <= i < n && ChildOf(t, n, i, x))
    ensures rc == -1 ==> fs.table == old(fs.table) && fs.bitmap == old(fs.bitmap)
    ensures Unique(old(fs.table), fs.g.n) ==> Unique(fs.table, fs.g.n)
    ensures rc == 0 && Unique(old(fs.table), fs.g.n) ==> OneEntry(old(fs.table), fs.table, fs.g.n, p, name, fs.g.n)
  {
    hide Live, AllGood, Matches, Unique, OneEntry, SameTree, IsRefreshed, Minfs.SetRecord, Minfs.Blank, DirWord, UsedWord, Children, TableSynced,
         Minfs.StillMarked;
    if !DirWord(fs.table[p * NODE_WORDS]) { return -1; }
    var x := FindChild(fs, p, name);
    if x == fs.g.n || !lookupOk { return -1; }
    ghost var t, n := fs.table, fs.g.n;
    MatchUsed(t, n, x, p, name);
    rc := fs.Unlink(x);
    if rc == 0 { Cleared(t, fs.table, n, x); }
  }

  lemma MatchUsed(t: Table, n: nat, x: nat, p: nat, s: Str)
    requires |t| == n * NODE_WORDS && x < n && Matches(t, n, x, p, s)
    ensures UsedWord(Word(t, x, 0))
  {
  }

  /** On a freshly formatted filesystem: the same name created twice, the second time without memory for the lookup. */
  method TwinExample(fs: Minfs) returns (first: int, second: int)
    requires fs.Idle() && fs.g.n >= 3 && fs.table == FormattedTable(fs.g.n)
    modifies fs
    ensures fs.Idle() && first == 0 && second == 0 && !Unique(fs.table, fs.g.n)
  {
    hide Matches, SameTree, IsRefreshed, Minfs.SetRecord, Minfs.Record, Pack, UsedWord, DirWord, FirstFree, FormattedTable, Unique;
    ghost var t, n := fs.table, fs.g.n;
    FreshNames(n);
    FormatTidy(n, fs.g.nb, fs.bitmap);
    SomeFree(t, n, 1);
    var x;
    first, x := Create(fs, 0, true, [97], true, true);
    FirstIs(t, n, 1);
    ghost var u := fs.table;
    StillFree(t, u, n, 1, Minfs.Record(Minfs.NewWord(true), 0, Pack([97])), 2);
    StillFree(t, u, n, 1, Minfs.Record(Minfs.NewWord(true), 0, Pack([97])), 0);
    SomeFree(u, n, 2);
    second, x := Create(fs, 0, true, [97], false, true);
  }

  lemma SomeFree(t: Table, n: nat, x: nat)
    requires |t| == n * NODE_WORDS && 0 < x < n && !UsedWord(Word(t, x, 0))
    ensures FirstFree(t, n, 1) <= x
  {
    hide UsedWord;
    assert FirstFree(t, n, 1) <= x;
  }

  lemma StillFree(t: Table, u: Table, n: nat, x: nat, r: seq<nat>, i: nat)
    requires |t| == |u| == n * NODE_WORDS && x < n && |r| == NODE_WORDS && IsRefreshed(Minfs.SetRecord(t, x, r), u, n) && i < n && i != x
    ensures Word(u, i, 0) == Word(t, i, 0)
  {
    hide Minfs.SetRecord;
    assert i * NODE_WORDS / NODE_WORDS == i;
    assert Word(Minfs.SetRecord(t, x, r), i, 0) == Word(t, i, 0);
  }

  lemma FreshNames(n: nat)
    requires n > 0
    ensures var t := FormattedTable(n);
      Unique(t, n) && DirWord(Word(t, 0, 0)) && Lookup(t, n, 0, [97], 0) == n
  {
    var t := FormattedTable(n);
    var bits: seq<bool> := [];
    FormatTidy(n, 0, bits);
    assert Word(t, 0, PARENT) == NONE;
    forall i | 0 <= i < n ensures !Matches(t, n, i, 0, [97]) { }
  }
}
