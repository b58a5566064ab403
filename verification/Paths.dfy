/** Splitting paths into names and putting them together again (string.c, and its use in hash.c). */
module Paths {

  datatype Option<+T> = None | Some(value: T)

  // ----- Names of a path -----

  /** The first position from i on that is no slash. */
  function Skip(p: string, i: nat): (j: nat)
    requires i <= |p|
    ensures i <= j <= |p| && (j < |p| ==> p[j] != '/') && forall k | i <= k < j :: p[k] == '/'
    decreases |p| - i
  {
    if i < |p| && p[i] == '/' then Skip(p, i + 1) else i
  }

  /** The first slash from i on. */
  function End(p: string, i: nat): (j: nat)
    requires i <= |p|
    ensures i <= j <= |p| && (j < |p| ==> p[j] == '/') && forall k | i <= k < j :: p[k] != '/'
    decreases |p| - i
  {
    if i < |p| && p[i] != '/' then End(p, i + 1) else i
  }

  /** The names in a path from position i on: the longest stretches without a slash. */
  function Names(p: string, i: nat): seq<string>
    requires i <= |p|
    decreases |p| - i
  {
    var s := Skip(p, i);
    if s == |p| then [] else [p[s..End(p, s)]] + Names(p, End(p, s))
  }

  function Slashes(p: string): nat {
    if p == [] then 0 else Slashes(p[..|p| - 1]) + if p[|p| - 1] == '/' then 1 else 0
  }

  /** The position of the last slash; -1 when there is none. */
  function LastSlash(p: string): (k: int)
    ensures -1 <= k < |p| && (k >= 0 ==> p[k] == '/') && forall j | k < j < |p| :: p[j] != '/'
  {
    if p == [] then -1 else if p[|p| - 1] == '/' then |p| - 1 else LastSlash(p[..|p| - 1])
  }

  lemma LastSlashIs(p: string, k: int)
    requires -1 <= k < |p| && (k >= 0 ==> p[k] == '/') && forall j | k < j < |p| :: p[j] != '/'
    ensures LastSlash(p) == k
  {
  }

  // ----- The functions of string.c -----

  /** The number of slashes; a path of one character has none. */
  method CountSlashes(path: string) returns (c: nat)
    ensures c == if |path| == 1 then 0 else Slashes(path)
  {
    c := 0;
    if |path| == 1 { return; }
    for i := 0 to |path|
      invariant c == Slashes(path[..i])
    {
      assert path[..i + 1][..i] == path[..i];
      if path[i] == '/' { c := c + 1; }
    }
    assert path[..|path|] == path;
  }

  /** The n-th name of a path. */
  method Split(path: string, n: int) returns (r: Option<string>)
    ensures r == if 1 <= n <= |Names(path, 0)| then Some(Names(path, 0)[n - 1]) else None
  {
    if n <= 0 { return None; }
    var start, segment := 0, 0;
    while start < |path| && segment < n
      invariant 0 <= start <= |path| && 0 <= segment < n
      invariant segment <= |Names(path, 0)| && Names(path, 0)[segment..] == Names(path, start)
      decreases |path| - start
    {
      ghost var from := start;
      while start < |path| && path[start] == '/'
        invariant from <= start <= |path| && Skip(path, start) == Skip(path, from)
      {
        start := start + 1;
      }
      if start == |path| { break; }
      segment := segment + 1;
      NextName(path, from, segment);
      if segment == n {
        var end := start;
        while end < |path| && path[end] != '/'
          invariant start <= end <= |path| && End(path, end) == End(path, start)
        {
          end := end + 1;
        }
        return Some(path[start..end]);
      }
      ghost var name := start;
      while start < |path| && path[start] != '/'
        invariant name <= start <= |path| && End(path, start) == End(path, name)
      {
        start := start + 1;
      }
    }
    return None;
  }

  lemma NextName(p: string, i: nat, k: nat)
    requires i <= |p| && Skip(p, i) < |p| && 1 <= k <= |Names(p, 0)| + 1 && Names(p, 0)[k - 1..] == Names(p, i)
    ensures k <= |Names(p, 0)| && Names(p, 0)[k - 1] == p[Skip(p, i)..End(p, Skip(p, i))]
    ensures Names(p, 0)[k..] == Names(p, End(p, Skip(p, i)))
  {
    var rest := Names(p, 0)[k - 1..];
    assert rest[0] == p[Skip(p, i)..End(p, Skip(p, i))];
    assert Names(p, 0)[k..] == rest[1..];
  }

  /** Everything in front of the last slash; "/" for a path of one name. */
  method ParentPath(path: string, l: int) returns (r: string)
    requires l > 1 ==> path != ""
    ensures r == if l <= 1 || LastSlash(path) <= 0 then "/" else path[..LastSlash(path)]
  {
    if l <= 1 { return "/"; }
    var end := |path| - 1;
    while end > 0 && path[end] != '/'
      invariant 0 <= end < |path| && forall j | end < j < |path| :: path[j] != '/'
    {
      end := end - 1;
    }
    if end == 0 { return "/"; }
    return path[..end];
  }

  /** Everything behind the last slash. */
  method GetName(path: string) returns (r: string)
    ensures r == path[LastSlash(path) + 1..]
  {
    var last := |path| - 1;
    while last >= 0 && path[last] != '/'
      invariant -1 <= last < |path| && forall j | last < j < |path| :: path[j] != '/'
    {
      last := last - 1;
    }
    LastSlashIs(path, last);
    return path[last + 1..];
  }

  // ----- The names of any path -----

  lemma {:induction false} SkipShift(a: string, p: string, i: nat)
    requires i <= |p|
    ensures Skip(a + p, |a| + i) == |a| + Skip(p, i)
    decreases |p| - i
  {
    if i < |p| && p[i] == '/' { SkipShift(a, p, i + 1); }
  }

  lemma {:induction false} EndShift(a: string, p: string, i: nat)
    requires i <= |p|
    ensures End(a + p, |a| + i) == |a| + End(p, i)
    decreases |p| - i
  {
    if i < |p| && p[i] != '/' { EndShift(a, p, i + 1); }
  }

  lemma NamesAt(p: string, i: nat, s: nat, e: nat)
    requires i <= |p| && s == Skip(p, i) && e == End(p, s)
    ensures s == |p| ==> Names(p, i) == []
    ensures s < |p| ==> s < e <= |p| && Names(p, i) == [p[s..e]] + Names(p, e)
  {
    hide Skip, End;
  }

  /** The names from a position on depend on what follows it only. */
  lemma {:induction false} NamesShift(a: string, p: string, i: nat)
    requires i <= |p|
    ensures Names(a + p, |a| + i) == Names(p, i)
    decreases |p| - i
  {
    hide *;
    var s := Skip(p, i);
    var e := End(p, s);
    SkipShift(a, p, i);
    EndShift(a, p, s);
    NamesAt(p, i, s, e);
    NamesAt(a + p, |a| + i, |a| + s, |a| + e);
    if s < |p| {
      NamesShift(a, p, e);
      SameStretch(a, p, s, e);
    }
  }

  lemma SameStretch(a: string, p: string, s: nat, e: nat)
    requires s <= e <= |p|
    ensures (a + p)[|a| + s..|a| + e] == p[s..e]
  {
  }

  /** Any path, also with a run of slashes, without a first one, or with a last one: slashes, a name, and the rest. */
  lemma NamesOfAny(slashes: string, name: string, rest: string)
    requires (forall i | 0 <= i < |slashes| :: slashes[i] == '/') && IsName(name) && (rest != "" ==> rest[0] == '/')
    ensures Names(slashes + name + rest, 0) == [name] + Names(rest, 0)
  {
    hide Names, Skip, End;
    var p, front := slashes + name + rest, slashes + name;
    assert p == slashes + (name + rest) && p == front + rest;
    assert forall k | |slashes| <= k < |front| :: p[k] == name[k - |slashes|];
    assert rest != "" ==> p[|front|] == rest[0];
    assert forall k | 0 <= k < |slashes| :: p[k] == slashes[k];
    assert p[|slashes|] == name[0] != '/';
    assert Skip(p, 0) == |slashes|;
    assert End(p, |slashes|) == |front|;
    NamesShift(front, rest, 0);
    NamesAt(p, 0, |slashes|, |front|);
    assert p[|slashes|..|front|] == name;
  }

  lemma NamesOfSlashes(slashes: string)
    requires forall i | 0 <= i < |slashes| :: slashes[i] == '/'
    ensures Names(slashes, 0) == []
  {
  }

  // ----- Round trips -----

  predicate IsName(s: string) {
    s != "" && forall i | 0 <= i < |s| :: s[i] != '/'
  }

  /** An absolute path with no empty name, other than "/". */
  predicate Canonical(p: string) {
    && |p| >= 2 && p[0] == '/' && p[|p| - 1] != '/'
    && forall i | 0 <= i < |p| - 1 :: p[i] == '/' ==> p[i + 1] != '/'
  }

  /** A slash in front of each name, as path lookup puts its current path together. */
  function Glue(names: seq<string>): string {
    if names == [] then "" else Glue(names[..|names| - 1]) + "/" + names[|names| - 1]
  }

  lemma {:induction false} GlueConcat(a: seq<string>, b: seq<string>)
    ensures Glue(a + b) == Glue(a) + Glue(b)
  {
    if b == [] {
      assert a + b == a;
    } else {
      assert (a + b)[..|a + b| - 1] == a + b[..|b| - 1];
      GlueConcat(a, b[..|b| - 1]);
    }
  }

  lemma {:induction false} SlashesFront(p: string, i: nat)
    requires i <= |p|
    ensures Slashes(p) == Slashes(p[..i]) + Slashes(p[i..])
  {
    if i == |p| {
      assert p[..i] == p && p[i..] == [];
    } else {
      assert p[..|p| - 1][..i] == p[..i] && p[..|p| - 1][i..] == p[i..][..|p[i..]| - 1];
      SlashesFront(p[..|p| - 1], i);
    }
  }

  lemma {:induction false} NoSlashes(s: string)
    requires forall i | 0 <= i < |s| :: s[i] != '/'
    ensures Slashes(s) == 0
  {
    if s != [] { NoSlashes(s[..|s| - 1]); }
  }

  /** From a slash of a canonical path on, the names glued together are the rest of the path. */
  lemma {:induction false} NamesFrom(p: string, i: nat)
    requires Canonical(p) && i <= |p| && (i < |p| ==> p[i] == '/')
    ensures Glue(Names(p, i)) == p[i..] && |Names(p, i)| == Slashes(p[i..])
    ensures forall s | s in Names(p, i) :: IsName(s)
    decreases |p| - i
  {
    hide *;
    if i == |p| {
      NoNames(p);
    } else {
      var e := End(p, i + 1);
      var name := p[i + 1..e];
      FirstName(p, i);
      NamesFrom(p, e);
      OneName(name);
      GlueConcat([name], Names(p, e));
      SlashesConcat("/" + name, p[e..]);
    }
  }

  lemma NoNames(p: string)
    ensures Names(p, |p|) == [] && p[|p|..] == [] && Glue([]) == "" && Slashes("") == 0
  {
  }

  lemma FirstName(p: string, i: nat)
    requires Canonical(p) && i < |p| && p[i] == '/'
    ensures i + 1 <= End(p, i + 1) <= |p|
    ensures var e := End(p, i + 1);
      && e > i + 1 && (e < |p| ==> p[e] == '/') && IsName(p[i + 1..e])
      && Names(p, i) == [p[i + 1..e]] + Names(p, e) && p[i..] == ("/" + p[i + 1..e]) + p[e..]
  {
    assert Skip(p, i) == i + 1;
  }

  lemma OneName(name: string)
    requires IsName(name)
    ensures Glue([name]) == "/" + name && Slashes("/" + name) == 1
  {
    assert [name][..0] == [];
    SlashesConcat("/", name);
    NoSlashes(name);
    assert Slashes("/") == 1;
  }

  lemma SlashesConcat(a: string, b: string)
    ensures Slashes(a + b) == Slashes(a) + Slashes(b)
  {
    SlashesFront(a + b, |a|);
    assert (a + b)[..|a|] == a && (a + b)[|a|..] == b;
  }

  /** The names of a canonical path are as many as count_l says, and glued together they are the path. */
  lemma SplitThenGlue(p: string)
    requires Canonical(p)
    ensures Glue(Names(p, 0)) == p && |Names(p, 0)| == Slashes(p) >= 1
    ensures forall s | s in Names(p, 0) :: IsName(s)
  {
    NamesFrom(p, 0);
    assert p[0..] == p;
    SlashesFront(p, 1);
    assert p[..1] == "/" && Slashes("/") == 1;
  }

  /** Path lookup compares its current path with p after each name: it finds them equal at the last name only. */
  lemma {:induction false} LookupStopsAtEnd(p: string, i: nat)
    requires Canonical(p) && i <= |Names(p, 0)|
    ensures Glue(Names(p, 0)[..i]) == p <==> i == |Names(p, 0)|
    ensures i > 0 ==> Glue(Names(p, 0)[..i]) == Glue(Names(p, 0)[..i - 1]) + "/" + Names(p, 0)[i - 1]
  {
    var names := Names(p, 0);
    SplitThenGlue(p);
    assert names == names[..i] + names[i..];
    GlueConcat(names[..i], names[i..]);
    if i < |names| {
      GlueLength(names[i..]);
    } else {
      assert names[..i] == names && names[i..] == [];
    }
    if i > 0 {
      assert names[..i][..i - 1] == names[..i - 1];
    }
  }

  lemma GlueLength(names: seq<string>)
    requires names != []
    ensures |Glue(names)| >= 1
  {
  }

  /** Parent and name of a canonical path put together are the path. */
  lemma ParentAndName(p: string)
    requires Canonical(p)
    ensures var k, l := LastSlash(p), Slashes(p);
      var parent := if l <= 1 || k <= 0 then "/" else p[..k];
      && IsName(p[k + 1..])
      && p == (if parent == "/" then "/" else parent + "/") + p[k + 1..]
      && (parent == "/" || Canonical(parent))
      && (parent == "/" <==> l == 1)
  {
    var k := LastSlash(p);
    assert k >= 0;
    SlashesFront(p, k);
    SlashesFront(p[k..], 1);
    assert p[k..][..1] == "/" && p[k..][1..] == p[k + 1..] && Slashes("/") == 1;
    NoSlashes(p[k + 1..]);
    if k > 0 {
      SlashesFront(p[..k], 1);
      assert p[..k][..1] == "/";
      assert p[k - 1] != '/';
    } else {
      assert p[..k] == [];
    }
  }

  lemma {:induction false} GlueCanonical(names: seq<string>)
    requires names != [] && forall s | s in names :: IsName(s)
    ensures Canonical(Glue(names))
  {
    var front, last := names[..|names| - 1], names[|names| - 1];
    assert last in names && Glue(names) == Glue(front) + "/" + last;
    if front != [] {
      GlueCanonical(front);
    }
  }

  lemma GlueLastSlash(front: string, last: string)
    requires IsName(last)
    ensures LastSlash(front + "/" + last) == |front|
  {
    LastSlashIs(front + "/" + last, |front|);
  }

  lemma {:induction false} GlueInjective(a: seq<string>, b: seq<string>)
    requires Glue(a) == Glue(b) && (forall s | s in a :: IsName(s)) && forall s | s in b :: IsName(s)
    ensures a == b
  {
    if a != [] && b != [] {
      var fa, la, fb, lb := a[..|a| - 1], a[|a| - 1], b[..|b| - 1], b[|b| - 1];
      assert la in a && lb in b;
      GlueLastSlash(Glue(fa), la);
      GlueLastSlash(Glue(fb), lb);
      assert Glue(fa) == Glue(a)[..|Glue(fa)|] && la == Glue(a)[|Glue(fa)| + 1..];
      assert Glue(fb) == Glue(b)[..|Glue(fb)|] && lb == Glue(b)[|Glue(fb)| + 1..];
      GlueInjective(fa, fb);
      assert a == fa + [la] && b == fb + [lb];
    } else {
      if a != [] { GlueLength(a); }
      if b != [] { GlueLength(b); }
    }
  }

  /** The names of a glued path are the names it was glued from. */
  lemma GlueThenSplit(names: seq<string>)
    requires names != [] && forall s | s in names :: IsName(s)
    ensures Canonical(Glue(names)) && Names(Glue(names), 0) == names
  {
    GlueCanonical(names);
    SplitThenGlue(Glue(names));
    GlueInjective(Names(Glue(names), 0), names);
  }
}
