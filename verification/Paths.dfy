/** Path names: skipelem against the plain reading of a path as its parts between slashes. */
module Paths {
  const DIRSIZ := 14

  /** What a directory entry keeps of a name. */
  function Short(name: string): string { if |name| >= DIRSIZ then name[..DIRSIZ] else name }

  /** The parts between slashes, empty ones included. */
  function Parts(s: string): (r: seq<string>)
    ensures |r| >= 1
  {
    if s == "" then [""]
    else if s[0] == '/' then [""] + Parts(s[1..])
    else [[s[0]] + Parts(s[1..])[0]] + Parts(s[1..])[1..]
  }

  /** The non-empty ones, each cut to DIRSIZ. */
  function Keep(ws: seq<string>): seq<string> {
    if ws == [] then [] else (if ws[0] == "" then [] else [Short(ws[0])]) + Keep(ws[1..])
  }

  function Components(s: string): seq<string> { Keep(Parts(s)) }

  /** A path that starts with w, up to a slash or the end. */
  lemma {:induction false} PartsWord(w: string, rest: string)
    requires '/' !in w
    ensures Parts(w + rest) == [w + Parts(rest)[0]] + Parts(rest)[1..]
  {
    if w == "" {
      assert w + rest == rest;
      assert w + Parts(rest)[0] == Parts(rest)[0];
    } else {
      assert (w + rest)[1..] == w[1..] + rest;
      PartsWord(w[1..], rest);
      assert [w[0]] + (w[1..] + Parts(rest)[0]) == w + Parts(rest)[0];
    }
  }

  lemma {:induction false} SlashFirst(s: string)
    requires s != "" && s[0] == '/'
    ensures Components(s) == Components(s[1..])
  {
    assert ([""] + Parts(s[1..]))[1..] == Parts(s[1..]);
  }

  /** A non-empty element followed by the end or a slash is the first component. */
  lemma {:induction false} WordFirst(w: string, rest: string)
    requires w != "" && '/' !in w && (rest == "" || rest[0] == '/')
    ensures Components(w + rest) == [if |w| > DIRSIZ then w[..DIRSIZ] else w] + Components(rest)
  {
    PartsWord(w, rest);
    var tail := Parts(rest)[1..];
    assert Parts(rest)[0] == "";
    assert w + "" == w;
    assert Parts(w + rest) == [w] + tail;
    assert ([w] + tail)[1..] == tail;
    assert Keep(Parts(rest)) == [] + Keep(tail);
    assert |w| == DIRSIZ ==> w[..DIRSIZ] == w;
  }

  lemma {:induction false} KeepJoin(a: seq<string>, b: seq<string>)
    ensures Keep(a + b) == Keep(a) + Keep(b)
    decreases |a|
  {
    if a == [] {
      assert a + b == b;
    } else {
      assert (a + b)[0] == a[0] && (a + b)[1..] == a[1..] + b;
      KeepJoin(a[1..], b);
    }
  }

  lemma {:induction false} PartsJoin(p: string, q: string)
    ensures Parts(p + "/" + q) == Parts(p) + Parts(q)
    decreases |p|
  {
    if p == "" {
      assert p + "/" + q == "/" + q;
      assert ("/" + q)[1..] == q;
    } else {
      assert (p + "/" + q)[0] == p[0] && (p + "/" + q)[1..] == p[1..] + "/" + q;
      PartsJoin(p[1..], q);
    }
  }

  /** A path below a path has the elements of both. */
  lemma {:induction false} PathJoin(p: string, q: string)
    ensures Components(p + "/" + q) == Components(p) + Components(q)
  {
    PartsJoin(p, q);
    KeepJoin(Parts(p), Parts(q));
  }

  lemma {:induction false} NoneEmpty()
    ensures Components("") == []
  {
    assert Parts("")[1..] == [];
  }

  /** A path that starts with something other than a slash has a first component. */
  lemma {:induction false} SomeFirst(s: string)
    requires s != "" && s[0] != '/'
    ensures Components(s) != []
  {
  }

  /** skipelem: the next element, and where the one after it starts. */
  method Skipelem(path: string, start: nat) returns (found: bool, next: nat, name: string)
    requires start <= |path|
    ensures found <==> Components(path[start..]) != []
    ensures found ==>
      && start < next <= |path| && Components(path[start..]) == [name] + Components(path[next..])
      && (next == |path| <==> Components(path[next..]) == [])
    ensures |name| <= DIRSIZ
  {
    hide Components;
    var i := start;
    while i < |path| && path[i] == '/'
      invariant start <= i <= |path| && Components(path[i..]) == Components(path[start..])
    {
      SlashFirst(path[i..]);
      assert path[i..][1..] == path[i + 1..];
      i := i + 1;
    }
    NoneEmpty();
    if i == |path| {
      assert path[i..] == "";
      return false, i, "";
    }
    SomeFirst(path[i..]);
    var s := i;
    while i < |path| && path[i] != '/'
      invariant s <= i <= |path| && '/' !in path[s..i]
      invariant i == s ==> i < |path| && path[i] != '/'
    {
      i := i + 1;
    }
    var len := i - s;
    name := if len >= DIRSIZ then path[s..s + DIRSIZ] else path[s..i];
    assert len >= DIRSIZ ==> path[s..i][..DIRSIZ] == path[s..s + DIRSIZ];
    assert len == DIRSIZ ==> path[s..s + DIRSIZ] == path[s..i];
    assert path[s..] == path[s..i] + path[i..];
    WordFirst(path[s..i], path[i..]);
    ghost var e := i;
    while i < |path| && path[i] == '/'
      invariant e <= i <= |path| && Components(path[i..]) == Components(path[e..])
    {
      SlashFirst(path[i..]);
      assert path[i..][1..] == path[i + 1..];
      i := i + 1;
    }
    next, found := i, true;
    if next < |path| {
      SomeFirst(path[next..]);
    } else {
      assert path[next..] == "";
    }
  }
}
