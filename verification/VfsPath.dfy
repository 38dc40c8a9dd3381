/**
 Path normalisation and splitting (kernel/vfs.c) against a stack of components: names are
 pushed, ".." pops, "." and empty components do nothing. Strings have no terminating zero here.
 */
module VfsPath {
  const PATH_MAX: nat := 256
  const NAME_MAX: nat := 64

  datatype Opt<T> = None | Some(v: T)

  function Min(a: nat, b: nat): nat { if a < b then a else b }

  // ----- components ------------------------------------------------------------------------------------

  predicate NoSlash(s: string) { forall i :: 0 <= i < |s| ==> s[i] != '/' }

  /** Length of the name at the front of s. */
  function NameLen(s: string): (n: nat)
    ensures n <= |s| && NoSlash(s[..n]) && (n < |s| ==> s[n] == '/')
  {
    if s == [] || s[0] == '/' then 0
    else
      var n := 1 + NameLen(s[1..]);
      assert forall i :: 0 < i < n ==> s[i] == s[1..][i - 1];
      n
  }

  /** The non-empty components of a path. */
  function Comps(s: string): seq<string>
    decreases |s|
  {
    if s == [] then []
    else if s[0] == '/' then Comps(s[1..])
    else [s[..NameLen(s)]] + Comps(s[NameLen(s)..])
  }

  lemma {:induction false} NameLenIs(s: string, n: nat)
    requires n <= |s| && NoSlash(s[..n]) && (n < |s| ==> s[n] == '/')
    ensures NameLen(s) == n
    decreases n
  {
    if n > 0 {
      assert s[0] == s[..n][0];
      assert s[1..][..n - 1] == s[..n][1..];
      NameLenIs(s[1..], n - 1);
    }
  }

  /** A name, then the end or a slash. */
  lemma CompsName(c: string, rest: string)
    requires c != [] && NoSlash(c) && (rest != [] ==> rest[0] == '/')
    ensures Comps(c + rest) == [c] + Comps(rest)
  {
    var s := c + rest;
    assert s[..|c|] == c && s[|c|..] == rest;
    NameLenIs(s, |c|);
    assert s[0] == c[0];
  }

  // ----- the stack -------------------------------------------------------------------------------------

  /** The components with a slash before each. */
  function Joined(st: seq<string>): string { if st == [] then "" else Joined(st[..|st| - 1]) + "/" + st[|st| - 1] }

  function Render(st: seq<string>): string { if st == [] then "/" else Joined(st) }

  predicate PlainName(c: string) { c != "" && c != "." && c != ".." && NoSlash(c) && |c| < NAME_MAX }

  ghost predicate Clean(st: seq<string>) { forall i :: 0 <= i < |st| ==> PlainName(st[i]) }

  /** One component; a name can be too long, or the result. */
  function Push(st: seq<string>, c: string, outSize: nat): Opt<seq<string>> {
    if c == "." then Some(st)
    else if c == ".." then Some(if st == [] then [] else st[..|st| - 1])
    else if |c| >= NAME_MAX then None
    else if |Render(st)| + |c| + 1 >= outSize then None
    else Some(st + [c])
  }

  function Walk(st: seq<string>, cs: seq<string>, outSize: nat): Opt<seq<string>>
    decreases |cs|
  {
    if cs == [] then Some(st)
    else
      var next := Push(st, cs[0], outSize);
      if next.None? then None else Walk(next.v, cs[1..], outSize)
  }

  /** The path that is walked: absolute, or behind the working directory. An absolute one is cut at 255 characters. */
  function Input(cwd: Opt<string>, path: Opt<string>): Opt<string> {
    var src := if path.None? || path.v == "" then (if cwd.Some? && cwd.v != "" then cwd.v else "/") else path.v;
    if src[0] == '/' then Some(src[..Min(|src|, PATH_MAX - 1)])
    else
      var base := if cwd.Some? && cwd.v != "" && cwd.v[0] == '/' then cwd.v else "/";
      if |base| + 1 + |src| + 1 > PATH_MAX then None
      else Some(base + (if base[|base| - 1] != '/' then "/" else "") + src)
  }

  /** The result promised: the stack after all components, rendered. */
  function Normalized(cwd: Opt<string>, path: Opt<string>, outSize: nat): Opt<string> {
    if outSize < 2 || Input(cwd, path).None? then None
    else
      var st := Walk([], Comps(Input(cwd, path).v), outSize);
      if st.None? then None else Some(Render(st.v))
  }

  // ----- the implementation ------------------------------------------------------------------------------

  /** The loops for "..": back to the last slash, and over it unless it is the root's. */
  method Chop(out: string, ghost st: seq<string>) returns (r: string)
    requires out == Render(st) && Clean(st)
    ensures r == Render(if st == [] then [] else st[..|st| - 1])
  {
    var n := |out|;
    if n > 1 {
      LastPart(st);
      ghost var k := |Joined(st[..|st| - 1])|;
      while n > 1 && out[n - 1] != '/'
        invariant k + 1 <= n <= |out|
      {
        n := n - 1;
      }
      if n > 1 { n := n - 1; }
      JoinedLength(st[..|st| - 1]);
      r := out[..n];
    } else {
      RenderLength(st);
      r := out;
    }
  }

  /** A rendered stack is the rest of it, a slash, and the last name, which has no slash. */
  lemma LastPart(st: seq<string>)
    requires Clean(st) && |Render(st)| > 1
    ensures st != [] && var k := |Joined(st[..|st| - 1])|;
      && k + 1 < |Render(st)| && Render(st)[k] == '/' && Render(st)[..k] == Joined(st[..|st| - 1])
      && forall i :: k < i < |Render(st)| ==> Render(st)[i] != '/'
  {
    var f, c := Joined(st[..|st| - 1]), st[|st| - 1];
    assert PlainName(c);
    var r := Render(st);
    assert r == f + "/" + c;
    forall i | |f| < i < |r| ensures r[i] != '/' { assert r[i] == c[i - |f| - 1]; }
  }

  lemma {:induction false} JoinedLength(st: seq<string>)
    requires Clean(st)
    ensures st != [] ==> |Joined(st)| >= 2
    ensures st == [] <==> Joined(st) == ""
    decreases |st|
  {
    if st != [] { assert PlainName(st[|st| - 1]); }
  }

  lemma RenderLength(st: seq<string>)
    requires Clean(st)
    ensures |Render(st)| >= 1 && (|Render(st)| == 1 <==> st == [])
  {
    JoinedLength(st);
  }

  /** vfs_normalize_path. */
  method Normalize(cwd: Opt<string>, path: Opt<string>, outSize: nat) returns (ok: bool, out: string)
    ensures ok == Normalized(cwd, path, outSize).Some?
    ensures ok ==> out == Normalized(cwd, path, outSize).v
  {
    hide Comps, Walk, NoSlash, Joined;
    out := "";
    if outSize < 2 { return false, out; }
    var inp := Input(cwd, path);
    if inp.None? { return false, out; }
    var input := inp.v;
    out := "/";
    ghost var st: seq<string>, all := [], Walk([], Comps(input), outSize);
    var i := 0;
    assert input[0..] == input;
    while i < |input|
      invariant i <= |input| && out == Render(st) && Clean(st) && all == Walk(st, Comps(input[i..]), outSize)
    {
      i := SkipSlashes(input, i);
      if i == |input| { break; }
      var start := i;
      i := SkipName(input, start);
      var c := input[start..i];
      assert input[start..] == c + input[i..];
      CompsName(c, input[i..]);
      WalkFirst(st, c, Comps(input[i..]), outSize);
      if c == "." { continue; }
      if c == ".." {
        out := Chop(out, st);
        st := if st == [] then [] else st[..|st| - 1];
        continue;
      }
      if |c| >= NAME_MAX { return false, out; }
      if |out| + |c| + 1 >= outSize { return false, out; }
      RenderPush(st, c);
      if |out| > 1 { out := out + "/"; }
      out := out + c;
      st := st + [c];
    }
    assert input[i..] == "";
    WalkDone(st, outSize);
    return true, out;
  }

  method SkipSlashes(s: string, from: nat) returns (i: nat)
    requires from <= |s|
    ensures from <= i <= |s| && Comps(s[i..]) == Comps(s[from..]) && (i < |s| ==> s[i] != '/')
  {
    i := from;
    while i < |s| && s[i] == '/'
      invariant from <= i <= |s| && Comps(s[i..]) == Comps(s[from..])
    {
      assert s[i..][1..] == s[i + 1..];
      i := i + 1;
    }
  }

  method SkipName(s: string, from: nat) returns (i: nat)
    requires from < |s| && s[from] != '/'
    ensures from < i <= |s| && NoSlash(s[from..i]) && (s[i..] != [] ==> s[i..][0] == '/')
  {
    i := from;
    while i < |s| && s[i] != '/'
      invariant from <= i <= |s| && NoSlash(s[from..i])
    {
      assert s[from..i + 1] == s[from..i] + [s[i]];
      i := i + 1;
    }
  }

  lemma WalkFirst(st: seq<string>, c: string, rest: seq<string>, outSize: nat)
    ensures Walk(st, [c] + rest, outSize) == if Push(st, c, outSize).None? then None else Walk(Push(st, c, outSize).v, rest, outSize)
  {
    assert ([c] + rest)[1..] == rest;
  }

  lemma WalkDone(st: seq<string>, outSize: nat)
    ensures Walk(st, Comps(""), outSize) == Some(st)
  {
  }

  lemma RenderPush(st: seq<string>, c: string)
    requires Clean(st)
    ensures Render(st + [c]) == (if |Render(st)| > 1 then Render(st) + "/" else Render(st)) + c
  {
    assert (st + [c])[..|st|] == st;
    RenderLength(st);
    assert Joined([]) + "/" == "/";
  }

  // ----- what the result is -------------------------------------------------------------------------------

  lemma {:induction false} CompsPlain(s: string)
    ensures forall i :: 0 <= i < |Comps(s)| ==> Comps(s)[i] != "" && NoSlash(Comps(s)[i])
    decreases |s|
  {
    if s == [] {
    } else if s[0] == '/' {
      CompsPlain(s[1..]);
    } else {
      CompsPlain(s[NameLen(s)..]);
    }
  }

  /** Each name fitted when it was pushed. */
  ghost predicate Fitted(st: seq<string>, outSize: nat) {
    forall i :: 0 <= i < |st| ==> |Render(st[..i])| + |st[i]| + 1 < outSize
  }

  lemma {:induction false} WalkClean(st: seq<string>, cs: seq<string>, outSize: nat)
    requires Clean(st) && Fitted(st, outSize) && forall i :: 0 <= i < |cs| ==> cs[i] != "" && NoSlash(cs[i])
    ensures var r := Walk(st, cs, outSize); r.Some? ==> Clean(r.v) && Fitted(r.v, outSize)
    decreases |cs|
  {
    if cs != [] {
      var next := Push(st, cs[0], outSize);
      if next.Some? {
        PushFitted(st, cs[0], outSize);
        WalkClean(next.v, cs[1..], outSize);
      }
    }
  }

  lemma PushFitted(st: seq<string>, c: string, outSize: nat)
    requires Clean(st) && Fitted(st, outSize) && c != "" && NoSlash(c) && Push(st, c, outSize).Some?
    ensures Clean(Push(st, c, outSize).v) && Fitted(Push(st, c, outSize).v, outSize)
  {
    var r := Push(st, c, outSize).v;
    forall i | 0 <= i < |r| ensures |Render(r[..i])| + |r[i]| + 1 < outSize {
      if i < |st| { assert r[..i] == st[..i]; } else { assert r[..i] == st; }
    }
  }

  lemma JoinedTail(st: seq<string>, rest: string)
    requires st != []
    ensures Joined(st) + rest == Joined(st[..|st| - 1]) + ("/" + (st[|st| - 1] + rest))
  {
    var a, c := Joined(st[..|st| - 1]), st[|st| - 1];
    hide Joined;
    Assoc(a, "/", c);
    Assoc(a, "/" + c, rest);
    Assoc("/", c, rest);
  }

  lemma Assoc(a: string, b: string, c: string)
    ensures a + b + c == a + (b + c)
  {
  }

  lemma CleanParts(st: seq<string>)
    requires Clean(st) && st != []
    ensures Clean(st[..|st| - 1]) && st[|st| - 1] != "" && NoSlash(st[|st| - 1])
  {
    assert PlainName(st[|st| - 1]);
  }

  lemma CompsSlash(s: string)
    ensures Comps("/" + s) == Comps(s)
  {
    assert ("/" + s)[1..] == s;
  }

  /** Rendering a clean stack and splitting it again gives the stack. */
  lemma {:induction false} CompsJoined(st: seq<string>, rest: string)
    requires Clean(st) && (rest != [] ==> rest[0] == '/')
    ensures Comps(Joined(st) + rest) == st + Comps(rest)
    decreases |st|
  {
    hide Comps, Clean, NoSlash;
    if st == [] {
      assert Joined(st) + rest == rest;
    } else {
      var f, c := st[..|st| - 1], st[|st| - 1];
      CleanParts(st);
      JoinedTail(st, rest);
      CompsJoined(f, "/" + (c + rest));
      CompsSlash(c + rest);
      CompsName(c, rest);
      assert f + ([c] + Comps(rest)) == st + Comps(rest);
    }
  }

  lemma CompsRender(st: seq<string>)
    requires Clean(st)
    ensures Comps(Render(st)) == st
  {
    if st == [] {
      assert "/"[1..] == "";
    } else {
      CompsJoined(st, "");
      assert Joined(st) + "" == Joined(st);
      assert st + Comps("") == st;
    }
  }

  /** Walking a clean stack that fitted pushes it all. */
  lemma {:induction false} WalkAgain(st: seq<string>, k: nat, outSize: nat)
    requires Clean(st) && Fitted(st, outSize) && k <= |st|
    ensures Walk(st[..k], st[k..], outSize) == Some(st)
    decreases |st| - k
  {
    if k < |st| {
      assert PlainName(st[k]);
      assert st[k..][1..] == st[k + 1..] && st[..k] + [st[k]] == st[..k + 1];
      WalkAgain(st, k + 1, outSize);
    } else {
      assert st[..k] == st && st[k..] == [];
    }
  }

  lemma RenderFits(st: seq<string>, outSize: nat)
    requires Clean(st) && Fitted(st, outSize) && outSize >= 2
    ensures |Render(st)| < outSize
  {
    if st != [] {
      var l := |st| - 1;
      assert |Render(st[..l])| + |st[l]| + 1 < outSize;
      assert Render(st) == Joined(st[..l]) + "/" + st[l];
      assert |Joined(st[..l])| <= |Render(st[..l])|;
    }
  }

  /** The stack behind a result: plain names only, so it is absolute, with no ".", ".." or empty component. */
  lemma ResultStack(cwd: Opt<string>, path: Opt<string>, outSize: nat) returns (st: seq<string>)
    requires Normalized(cwd, path, outSize).Some?
    ensures Clean(st) && Fitted(st, outSize) && Normalized(cwd, path, outSize).v == Render(st) && |Render(st)| < outSize
    ensures Walk([], Comps(Input(cwd, path).v), outSize) == Some(st) && Comps(Normalized(cwd, path, outSize).v) == st
  {
    var cs := Comps(Input(cwd, path).v);
    CompsPlain(Input(cwd, path).v);
    WalkClean([], cs, outSize);
    st := Walk([], cs, outSize).v;
    RenderFits(st, outSize);
    CompsRender(st);
  }

  /** Characters of the components, with a slash for each. */
  function Total(cs: seq<string>): nat { if cs == [] then 0 else 1 + |cs[0]| + Total(cs[1..]) }

  lemma {:induction false} TotalComps(s: string)
    ensures Total(Comps(s)) <= |s| + (if s != "" && s[0] == '/' then 0 else 1)
    decreases |s|
  {
    if s == "" {
    } else if s[0] == '/' {
      TotalComps(s[1..]);
    } else {
      var n := NameLen(s);
      var cs := Comps(s);
      TotalComps(s[n..]);
      assert cs[1..] == Comps(s[n..]);
    }
  }

  /** Walking never makes a path longer than what was walked. */
  lemma {:induction false} WalkTotal(st: seq<string>, cs: seq<string>, outSize: nat)
    ensures var r := Walk(st, cs, outSize); r.Some? ==> |Joined(r.v)| <= |Joined(st)| + Total(cs)
    decreases |cs|
  {
    if cs != [] && Push(st, cs[0], outSize).Some? {
      var next := Push(st, cs[0], outSize).v;
      assert (st + [cs[0]])[..|st|] == st;
      WalkTotal(next, cs[1..], outSize);
    }
  }

  lemma InputShort(cwd: Opt<string>, path: Opt<string>)
    ensures Input(cwd, path).Some? ==> |Input(cwd, path).v| < PATH_MAX && Input(cwd, path).v != "" && Input(cwd, path).v[0] == '/'
  {
  }

  /** Normalising a result, from any working directory, gives it back. */
  lemma Idempotent(cwd: Opt<string>, path: Opt<string>, cwd2: Opt<string>, outSize: nat)
    requires Normalized(cwd, path, outSize).Some?
    ensures Normalized(cwd2, Normalized(cwd, path, outSize), outSize) == Normalized(cwd, path, outSize)
  {
    var st := ResultStack(cwd, path, outSize);
    ResultShort(cwd, path, outSize, st);
    hide Comps, Walk, Render, Input;
    WholePath(cwd2, Render(st));
    WalkAgain(st, 0, outSize);
    assert st[..0] == [] && st[0..] == st;
  }

  /** A result is never longer than what was walked. */
  lemma ResultShort(cwd: Opt<string>, path: Opt<string>, outSize: nat, st: seq<string>)
    requires Input(cwd, path).Some? && Walk([], Comps(Input(cwd, path).v), outSize) == Some(st)
    ensures 0 < |Render(st)| < 256 && Render(st)[0] == '/'
  {
    hide Comps, Walk, Input, Total;
    StartsWithSlash(st);
    InputShort(cwd, path);
    TotalComps(Input(cwd, path).v);
    WalkTotal([], Comps(Input(cwd, path).v), outSize);
  }

  lemma {:induction false} StartsWithSlash(st: seq<string>)
    ensures Render(st) != "" && Render(st)[0] == '/'
    decreases |st|
  {
    if |st| > 1 {
      StartsWithSlash(st[..|st| - 1]);
    } else if |st| == 1 {
      assert st[..0] == [];
      assert Joined(st) == Joined([]) + "/" + st[0];
    }
  }

  // ----- relative paths -----------------------------------------------------------------------------------

  lemma {:induction false} CompsConcat(a: string, b: string)
    ensures Comps(a + "/" + b) == Comps(a) + Comps(b)
    decreases |a|
  {
    if a == "" {
      assert a + "/" + b == "/" + b;
      CompsSlash(b);
    } else if a[0] == '/' {
      CompsConcat(a[1..], b);
      assert (a + "/" + b)[1..] == a[1..] + "/" + b;
    } else {
      var n := NameLen(a);
      var c, rest := a[..n], a[n..];
      assert a == c + rest;
      CompsConcat(rest, b);
      Assoc(c, rest, "/");
      Assoc(c, rest + "/", b);
      CompsName(c, rest + "/" + b);
      assert [c] + (Comps(rest) + Comps(b)) == [c] + Comps(rest) + Comps(b);
    }
  }

  lemma {:induction false} WalkConcat(st: seq<string>, a: seq<string>, b: seq<string>, outSize: nat)
    ensures Walk(st, a + b, outSize) == if Walk(st, a, outSize).None? then None else Walk(Walk(st, a, outSize).v, b, outSize)
    decreases |a|
  {
    if a == [] {
      assert a + b == b;
    } else {
      assert (a + b)[1..] == a[1..] + b;
      if Push(st, a[0], outSize).Some? { WalkConcat(Push(st, a[0], outSize).v, a[1..], b, outSize); }
    }
  }

  lemma CompsBehind(base: string, src: string)
    requires base != "" && src != ""
    ensures Comps(base + (if base[|base| - 1] != '/' then "/" else "") + src) == Comps(base) + Comps(src)
  {
    hide Comps;
    if base[|base| - 1] != '/' {
      CompsConcat(base, src);
    } else {
      var b := base[..|base| - 1];
      assert base == b + "/" && base + "" + src == b + "/" + src;
      CompsConcat(b, src);
      CompsConcat(b, "");
      assert b + "/" + "" == base;
      CompsEmpty();
      assert Comps(b) + [] == Comps(b);
    }
  }

  lemma CompsEmpty()
    ensures Comps("") == []
  {
  }

  /** A relative path is refused if it is too long behind the working directory, and else walked from where that leads. */
  lemma RelativePath(cwd: string, path: string, outSize: nat)
    requires outSize >= 2 && cwd != "" && cwd[0] == '/' && path != "" && path[0] != '/'
    ensures Normalized(Some(cwd), Some(path), outSize) ==
      if |cwd| + |path| + 2 > PATH_MAX then None
      else
        var d := Walk([], Comps(cwd), outSize);
        var r := if d.None? then None else Walk(d.v, Comps(path), outSize);
        if r.None? then None else Some(Render(r.v))
  {
    hide Comps, Walk, Render;
    if |cwd| + |path| + 2 <= PATH_MAX {
      CompsBehind(cwd, path);
      WalkConcat([], Comps(cwd), Comps(path), outSize);
    }
  }

  /** Nothing to walk: the working directory itself; and without a working directory, the root. */
  lemma NoPath(cwd: string, path: Opt<string>, outSize: nat)
    requires path == None || path == Some("")
    requires cwd != "" && cwd[0] == '/'
    ensures Normalized(Some(cwd), path, outSize) == Normalized(None, Some(cwd), outSize)
    ensures outSize >= 2 ==> Normalized(None, path, outSize) == Normalized(Some(""), path, outSize) == Some("/")
  {
    if outSize >= 2 {
      assert Input(None, path) == Input(Some(""), path) == Some("/") by { assert "/"[..1] == "/"; }
      assert "/"[1..] == "";
    }
  }

  /** A relative path without an absolute working directory is walked from the root. */
  lemma FromTheRoot(cwd: Opt<string>, path: string, outSize: nat)
    requires path != "" && path[0] != '/' && (cwd.Some? && cwd.v != "" ==> cwd.v[0] != '/')
    ensures Normalized(cwd, Some(path), outSize) == Normalized(Some("/"), Some(path), outSize)
    ensures |path| + 3 <= 256 ==> Normalized(cwd, Some(path), outSize) == Normalized(None, Some("/" + path), outSize)
  {
    if |path| + 3 <= 256 {
      var s := "/" + path;
      assert s[..|s|] == s && "/" + "" + path == s;
    }
  }

  // ----- dots --------------------------------------------------------------------------------------------------

  /** A "." changes nothing. */
  lemma WalkDot(cs: seq<string>, rest: seq<string>, outSize: nat)
    ensures Walk([], cs + ["."] + rest, outSize) == Walk([], cs + rest, outSize)
  {
    hide Walk;
    assert cs + ["."] + rest == cs + (["."] + rest);
    WalkConcat([], cs, ["."] + rest, outSize);
    WalkConcat([], cs, rest, outSize);
    var d := Walk([], cs, outSize);
    if d.Some? { WalkFirst(d.v, ".", rest, outSize); }
  }

  /** A name and then ".." leave things as they were, if the name is not refused; at the root, ".." alone does. */
  lemma WalkUp(cs: seq<string>, c: string, rest: seq<string>, outSize: nat)
    requires Walk([], cs + [c], outSize).Some? && c != "." && c != ".."
    ensures Walk([], cs + [c, ".."] + rest, outSize) == Walk([], cs + rest, outSize)
    ensures Walk([], [".."] + rest, outSize) == Walk([], rest, outSize)
  {
    hide Walk;
    assert cs + [c, ".."] + rest == cs + ([c] + ([".."] + rest));
    WalkConcat([], cs, [c] + ([".."] + rest), outSize);
    WalkConcat([], cs, [c], outSize);
    WalkConcat([], cs, rest, outSize);
    WalkFirst([], "..", rest, outSize);
    var d := Walk([], cs, outSize).v;
    WalkFirst(d, c, [".."] + rest, outSize);
    assert [c] == [c] + [];
    WalkFirst(d, c, [], outSize);
    WalkFirst(d + [c], "..", rest, outSize);
    assert (d + [c])[..|d|] == d;
  }

  /** The name at k is refused: 64 characters or more, or no room for it behind what is there. */
  ghost predicate Refused(cs: seq<string>, k: nat, outSize: nat) {
    && k < |cs| && cs[k] != "." && cs[k] != ".." && Walk([], cs[..k], outSize).Some?
    && (|cs[k]| >= 64 || |Render(Walk([], cs[..k], outSize).v)| + |cs[k]| + 1 >= outSize)
  }

  /** A walk fails exactly if one of the names is refused. */
  lemma {:induction false} WalkFails(cs: seq<string>, outSize: nat)
    ensures Walk([], cs, outSize).None? <==> exists k: nat :: Refused(cs, k, outSize)
    decreases |cs|
  {
    hide Walk, Render;
    if cs == [] {
      NothingWalked(outSize);
    } else {
      var l := |cs| - 1;
      var f, c := cs[..l], cs[l];
      WalkFails(f, outSize);
      assert cs == f + [c] && [c] == [c] + [];
      WalkConcat([], f, [c], outSize);
      var d := Walk([], f, outSize);
      if d.Some? { WalkFirst(d.v, c, [], outSize); if Push(d.v, c, outSize).Some? { NothingMore(Push(d.v, c, outSize).v, outSize); } }
      forall k | 0 <= k < l ensures Refused(cs, k, outSize) <==> Refused(f, k, outSize) { assert cs[..k] == f[..k]; }
      assert Refused(cs, l, outSize) ==> d.Some?;
      if exists k: nat :: Refused(cs, k, outSize) {
        var k: nat :| Refused(cs, k, outSize);
        if k < l { assert Refused(f, k, outSize); }
      }
      if Walk([], cs, outSize).None? && d.Some? { assert Refused(cs, l, outSize); }
      if d.None? { var k: nat :| Refused(f, k, outSize); assert Refused(cs, k, outSize); }
    }
  }

  lemma NothingWalked(outSize: nat)
    ensures Walk([], [], outSize) == Some([])
  {
  }

  lemma NothingMore(st: seq<string>, outSize: nat)
    ensures Walk(st, [], outSize) == Some(st)
  {
  }

  /** In a path that is not cut: "/." between two parts changes nothing, and neither does a name that "/.." takes back. */
  lemma DotsInPath(cwd: Opt<string>, a: string, c: string, b: string, outSize: nat)
    requires a != "" && a[0] == '/' && |a| + |c| + |b| + 5 < 256 && c != "" && c != "." && c != ".." && NoSlash(c)
    ensures Normalized(cwd, Some(a + "/" + ("." + "/" + b)), outSize) == Normalized(cwd, Some(a + "/" + b), outSize)
    ensures Normalized(cwd, Some(a + "/" + c), outSize).Some? ==>
      Normalized(cwd, Some(a + "/" + (c + "/" + (".." + "/" + b))), outSize) == Normalized(cwd, Some(a + "/" + b), outSize)
  {
    hide Comps, Walk, Render, NoSlash;
    WholePath(cwd, a + "/" + ("." + "/" + b));
    WholePath(cwd, a + "/" + b);
    WholePath(cwd, a + "/" + c);
    WholePath(cwd, a + "/" + (c + "/" + (".." + "/" + b)));
    CompsConcat(a, "." + "/" + b);
    CompsConcat(a, b);
    CompsConcat(a, c);
    CompsConcat(a, c + "/" + (".." + "/" + b));
    CompsConcat(".", b);
    CompsConcat("..", b);
    CompsConcat(c, ".." + "/" + b);
    OneName(".");
    OneName("..");
    OneName(c);
    var x, y := Comps(a), Comps(b);
    assert x + (["."] + y) == x + ["."] + y && x + ([c] + ([".."] + y)) == x + [c, ".."] + y;
    WalkDot(x, y, outSize);
    if Walk([], x + [c], outSize).Some? { WalkUp(x, c, y, outSize); }
  }

  lemma WholePath(cwd: Opt<string>, path: string)
    requires path != "" && path[0] == '/' && |path| < 256
    ensures Input(cwd, Some(path)) == Some(path)
  {
    assert path[..|path|] == path;
  }

  lemma OneName(c: string)
    requires c == "." || c == ".." || (c != "" && NoSlash(c))
    ensures Comps(c) == [c]
  {
    assert c + "" == c;
    CompsName(c, "");
  }

  // ----- long paths ------------------------------------------------------------------------------------------

  /** What the caller asked to walk. */
  function Wanted(cwd: Opt<string>, path: Opt<string>): string {
    var src := if path.None? || path.v == "" then (if cwd.Some? && cwd.v != "" then cwd.v else "/") else path.v;
    if src[0] == '/' then src
    else
      var base := if cwd.Some? && cwd.v != "" && cwd.v[0] == '/' then cwd.v else "/";
      base + (if base[|base| - 1] != '/' then "/" else "") + src
  }

  /** An absolute path that does not fit the buffer. */
  predicate TooLong(cwd: Opt<string>, path: Opt<string>) {
    var src := if path.None? || path.v == "" then (if cwd.Some? && cwd.v != "" then cwd.v else "/") else path.v;
    src[0] == '/' && |src| >= PATH_MAX
  }

  /**
   Whatever is walked is the whole of what was asked for, if and only if that is not an absolute
   path of 256 characters or more; of such a path the first 255 characters are walked.
   */
  lemma WalksWhole(cwd: Opt<string>, path: Opt<string>)
    requires Input(cwd, path).Some?
    ensures Input(cwd, path).v == Wanted(cwd, path) <==> !TooLong(cwd, path)
    ensures TooLong(cwd, path) ==> Input(cwd, path).v == Wanted(cwd, path)[..PATH_MAX - 1]
  {
  }

  function Slashes(n: nat): string { seq(n, i => '/') }

  lemma {:induction false} CompsSlashes(n: nat, rest: string)
    ensures Comps(Slashes(n) + rest) == Comps(rest)
    decreases n
  {
    if n == 0 {
      assert Slashes(0) + rest == rest;
    } else {
      assert (Slashes(n) + rest)[1..] == Slashes(n - 1) + rest;
      CompsSlashes(n - 1, rest);
    }
  }

  /** A path of 260 characters that leads to /b normalises to /a, without an error. */
  lemma CutExample()
    ensures var path := "/a" + Slashes(254) + "../b";
      Normalized(None, Some(path), PATH_MAX) == Some("/a") && Walk([], Comps(path), PATH_MAX) == Some(["b"])
  {
    hide Comps, Walk;
    var path := "/a" + Slashes(254) + "../b";
    var cut := path[..PATH_MAX - 1];
    assert cut == "/" + ("a" + Slashes(253)) by { assert Slashes(254)[..253] == Slashes(253); }
    CompsSlash("a" + Slashes(253));
    CompsName("a", Slashes(253));
    CompsSlashes(253, "");
    CompsEmpty();
    assert Slashes(253) + "" == Slashes(253);
    assert Comps(cut) == ["a"];
    StepA();
    assert path == "/" + ("a" + (Slashes(254) + "../b"));
    CompsSlash("a" + (Slashes(254) + "../b"));
    CompsName("a", Slashes(254) + "../b");
    CompsSlashes(254, "../b");
    assert "../b" == ".." + "/b" && "/b" == "/" + "b" && "b" == "b" + "";
    CompsName("..", "/b");
    CompsSlash("b");
    CompsName("b", "");
    assert ["a"] + ([".."] + (["b"] + [])) == ["a", "..", "b"];
    StepB();
  }

  lemma StepA()
    ensures Walk([], ["a"], PATH_MAX) == Some(["a"]) && Render(["a"]) == "/a"
  {
    assert ["a"][1..] == [] && ["a"][..0] == [];
    assert Render([]) == "/" && [] + ["a"] == ["a"];
    assert Joined(["a"]) == Joined([]) + "/" + "a";
  }

  lemma StepB()
    ensures Walk([], ["a", "..", "b"], PATH_MAX) == Some(["b"])
  {
    hide Walk, Push;
    var root: seq<string> := [];
    PushName("a");
    PushName("b");
    PopName("a");
    assert ["a", "..", "b"] == ["a"] + ["..", "b"];
    WalkFirst(root, "a", ["..", "b"], PATH_MAX);
    assert ["..", "b"] == [".."] + ["b"];
    WalkFirst(["a"], "..", ["b"], PATH_MAX);
    assert ["b"] == ["b"] + root;
    WalkFirst(root, "b", root, PATH_MAX);
    CompsEmpty();
    WalkDone(["b"], PATH_MAX);
  }

  lemma PushName(c: string)
    requires |c| == 1 && c != "."
    ensures Push([], c, PATH_MAX) == Some([c])
  {
    var root: seq<string> := [];
    assert root + [c] == [c];
  }

  lemma PopName(c: string)
    ensures Push([c], "..", PATH_MAX) == Some([])
  {
    assert [c][..0] == [];
  }

  // ----- parent and name -----------------------------------------------------------------------------------

  /** A parent and a name put together again. */
  function JoinPath(parent: string, name: string): string { if parent == "/" then "/" + name else parent + "/" + name }

  predicate ValidName(name: string) { name != "" && name != "." && name != ".." && NoSlash(name) }

  /**
   vfs_split_path: everything but the last component, and the last component. The two joined are
   the normalised path, unless the name buffer was too short for the name.
   */
  method Split(path: string, ppSize: nat, bnSize: nat) returns (ok: bool, parent: string, name: string)
    requires ppSize > 0 && bnSize > 0
    ensures ok ==> var n := Normalized(Some("/"), Some(path), PATH_MAX);
      && n.Some? && n.v != "/" && Comps(n.v) != []
      && var st := Comps(n.v); var l := |st| - 1;
      && name == st[l][..Min(|st[l]|, bnSize - 1)] && parent == (if ppSize >= 2 then Render(st[..l]) else "")
      && (bnSize >= NAME_MAX && ppSize >= 2 ==> JoinPath(parent, name) == n.v)
    ensures ok <==> var n := Normalized(Some("/"), Some(path), PATH_MAX);
      && n.Some? && n.v != "/" && Comps(n.v) != []
      && var st := Comps(n.v); var l := |st| - 1;
      && ValidName(st[l][..Min(|st[l]|, bnSize - 1)]) && (l > 0 ==> |Render(st[..l])| < ppSize)
  {
    hide Comps, Walk, Joined, Input, Normalized, Render, PlainName, NoSlash, JoinPath;
    parent, name := "", "";
    var good, n := Normalize(Some("/"), Some(path), PATH_MAX);
    if !good { return false, parent, name; }
    ghost var st := ResultStack(Some("/"), Some(path), PATH_MAX);
    OnlyRoot(st);
    if n == "/" { return false, parent, name; }
    ok, parent, name := SplitAt(n, ppSize, bnSize, st);
  }

  /** The part of splitting after normalisation. */
  method SplitAt(n: string, ppSize: nat, bnSize: nat, ghost st: seq<string>) returns (ok: bool, parent: string, name: string)
    requires ppSize > 0 && bnSize > 0 && Clean(st) && st != [] && n == Render(st)
    ensures var l := |st| - 1;
      && (ok <==> ValidName(st[l][..Min(|st[l]|, bnSize - 1)]) && (l > 0 ==> |Render(st[..l])| < ppSize))
      && (ok ==> name == st[l][..Min(|st[l]|, bnSize - 1)] && parent == (if ppSize >= 2 then Render(st[..l]) else ""))
      && (ok && bnSize >= NAME_MAX && ppSize >= 2 ==> JoinPath(parent, name) == n)
  {
    hide Joined, JoinPath;
    parent, name := "", "";
    var slash := LastSlash(n, st);
    LastName(st);
    OnlyRoot(st[..|st| - 1]);
    name := n[slash + 1..];
    name := name[..Min(|name|, bnSize - 1)];
    assert bnSize >= NAME_MAX ==> name == st[|st| - 1];
    Truncated(st[|st| - 1], Min(|st[|st| - 1]|, bnSize - 1));
    if name == "" || name == "." || name == ".." { return false, parent, name; }
    if slash == 0 {
      parent := "/"[..Min(1, ppSize - 1)];
      return true, parent, name;
    }
    if slash >= ppSize { return false, parent, name; }
    parent := n[..slash];
    return true, parent, name;
  }

  lemma OnlyRoot(st: seq<string>)
    requires Clean(st)
    ensures Render(st) == "/" <==> st == []
  {
    RenderLength(st);
  }

  lemma Truncated(c: string, k: nat)
    requires k <= |c| && NoSlash(c)
    ensures NoSlash(c[..k])
  {
  }

  /** strrchr of the slash in a rendered stack. */
  method LastSlash(n: string, ghost st: seq<string>) returns (i: nat)
    requires Clean(st) && st != [] && n == Render(st)
    ensures i == |Joined(st[..|st| - 1])| && i < |n|
  {
    RenderLength(st);
    LastPart(st);
    i := |n| - 1;
    while n[i] != '/'
      invariant |Joined(st[..|st| - 1])| <= i < |n|
      decreases i
    {
      i := i - 1;
    }
  }

  lemma LastName(st: seq<string>)
    requires Clean(st) && st != []
    ensures var l := |st| - 1; var k := |Joined(st[..l])|;
      && k < |Render(st)| && Render(st)[k + 1..] == st[l] && PlainName(st[l])
      && (k == 0 <==> l == 0) && (l > 0 ==> Render(st)[..k] == Render(st[..l]))
      && JoinPath(Render(st[..l]), st[l]) == Render(st)
  {
    var l := |st| - 1;
    assert PlainName(st[l]);
    var f := Joined(st[..l]);
    assert Render(st) == f + "/" + st[l];
    JoinedLength(st[..l]);
    OnlyRoot(st[..l]);
    hide Joined, Clean, NoSlash;
    assert (f + "/" + st[l])[|f| + 1..] == st[l] && (f + "/" + st[l])[..|f|] == f;
    if l == 0 { assert f == "" && f + "/" == "/"; }
  }
}
