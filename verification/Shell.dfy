/** sh.c's parser: a cursor moved along the line, and nulterminate, which cuts the words apart in place. */
module Shell {
  import opened ShellGrammar

  class Parser {
    const s: string
    var ps: nat

    ghost predicate Valid()
      reads this
    { Line(s) && ps <= |s| }

    constructor (line: string)
      requires Line(line)
      ensures Valid() && s == line && ps == 0
    {
      s, ps := line, 0;
    }

    /** The loop that skips white space. */
    method Skip(i: nat) returns (j: nat)
      requires i <= |s|
      ensures j == SkipWhite(s, i)
    {
      j := i;
      while j < |s| && White(s[j])
        invariant i <= j <= |s| && SkipWhite(s, j) == SkipWhite(s, i)
      {
        j := j + 1;
      }
    }

    /** gettoken */
    method GetToken() returns (kind: char, q: nat, eq: nat)
      requires Valid()
      modifies `ps
      ensures Valid() && Tok(kind, q, eq, ps) == Token(s, old(ps))
    {
      q := Skip(ps);
      kind := At(s, q);
      eq := q;
      if kind == '\0' {
      } else if kind == '>' {
        eq := eq + 1;
        if At(s, eq) == '>' {
          kind := '+';
          eq := eq + 1;
        }
      } else if Symbol(kind) {
        eq := eq + 1;
      } else {
        kind := 'a';
        while eq < |s| && !White(s[eq]) && !Symbol(s[eq])
          invariant q <= eq <= |s| && WordEnd(s, eq) == WordEnd(s, q)
        {
          eq := eq + 1;
        }
      }
      ps := Skip(eq);
    }

    /** peek */
    method Peek(toks: string) returns (b: bool)
      requires Valid()
      modifies `ps
      ensures Valid() && ps == SkipWhite(s, old(ps)) && b == Next(s, old(ps), toks)
    {
      ps := Skip(ps);
      b := At(s, ps) != '\0' && At(s, ps) in toks;
    }

    /** What a parse function leaves behind, against what the grammar says. */
    ghost predicate Agrees<T>(ok: bool, val: T, p: Parsed<T>)
      reads this
    { ps <= |s| && ok == p.Ok? && (ok ==> val == p.val && ps == p.next) }

    /** parseredirs, which adds to the redirections rs0 around a command. */
    method ParseRedirs(rs0: seq<Redirection<Slice>>) returns (ok: bool, rs: seq<Redirection<Slice>>)
      requires Valid()
      modifies `ps
      ensures Agrees(ok, rs, Redirs(s, old(ps), rs0))
    {
      hide Token, Next;
      rs, ok := rs0, true;
      var more := true;
      while more
        invariant ok && Valid() && old(ps) <= ps
        invariant if more then Redirs(s, ps, rs) == Redirs(s, old(ps), rs0) else Ok(rs, ps) == Redirs(s, old(ps), rs0)
        decreases more, |s| - ps
      {
        more := Peek("<>");
        if more {
          var tok, _, _ := GetToken();
          var kind, q, eq := GetToken();
          if kind != 'a' {
            return false, rs;
          }
          rs := rs + [Redirection(Slice(q, eq), tok == '<')];
        }
      }
    }
  
    /** parseexec's loop: words until an operator or the end of the line. */
    method ParseArgs(rs0: seq<Redirection<Slice>>) returns (ok: bool, m: Simple)
      requires Valid()
      modifies `ps
      ensures Agrees(ok, m, Args(s, old(ps), Simple([], rs0)))
    {
      hide Token, Next, Redirs;
      m, ok := Simple([], rs0), true;
      var stop := false;
      while !stop
        invariant ok && Valid() && old(ps) <= ps && |m.args| < MAXARGS
        invariant (if stop then Ok(m, ps) else Args(s, ps, m)) == Args(s, old(ps), Simple([], rs0))
        decreases !stop, |s| - ps
      {
        stop := Peek("|)&;");
        if !stop {
          var tok, q, eq := GetToken();
          if tok == '\0' {
            stop := true;
          } else if tok != 'a' {
            return false, m;
          } else {
            var args := m.args + [Slice(q, eq)];
            if |args| >= MAXARGS {
              return false, m;
            }
            var rs;
            ok, rs := ParseRedirs(m.rs);
            if !ok {
              return;
            }
            m := Simple(args, rs);
          }
        }
      }
    }

    method ParseExec() returns (ok: bool, c: Cmd<Slice>)
      requires Valid()
      modifies `ps
      ensures Agrees(ok, c, ShellGrammar.ParseExec(s, old(ps)))
      decreases |s| - ps, 1
    {
      hide Token, Redirs, Args, ShellGrammar.ParseBlock, Wrap;
      c := Exec([]);
      var block := Peek("(");
      if block {
        ok, c := ParseBlock();
        return;
      }
      var rs, m;
      ok, rs := ParseRedirs([]);
      if !ok {
        return;
      }
      ok, m := ParseArgs(rs);
      c := Wrap(Exec(m.args), m.rs);
    }

    method ParseBlock() returns (ok: bool, c: Cmd<Slice>)
      requires Valid()
      modifies `ps
      ensures Agrees(ok, c, ShellGrammar.ParseBlock(s, old(ps)))
      decreases |s| - ps, 0
    {
      hide Token, Next, Redirs, ShellGrammar.ParseLine, Wrap;
      c := Exec([]);
      ok := Peek("(");
      if !ok {
        return;
      }
      OpenToken(s, old(ps), "(");
      var _, _, _ := GetToken();
      ok, c := ParseLine();
      if !ok {
        return;
      }
      ok := Peek(")");
      if !ok {
        return;
      }
      var _, _, _ := GetToken();
      var rs;
      ok, rs := ParseRedirs([]);
      c := Wrap(c, rs);
    }

    method ParsePipe() returns (ok: bool, c: Cmd<Slice>)
      requires Valid()
      modifies `ps
      ensures Agrees(ok, c, ShellGrammar.ParsePipe(s, old(ps)))
      decreases |s| - ps, 2
    {
      hide Token, Next, ShellGrammar.ParseExec;
      ok, c := ParseExec();
      if !ok {
        return;
      }
      ghost var e := ps;
      var more := Peek("|");
      if more {
        OpenToken(s, e, "|");
        var _, _, _ := GetToken();
        var d;
        ok, d := ParsePipe();
        c := Pipe(c, d);
      }
    }

    method ParseLine() returns (ok: bool, c: Cmd<Slice>)
      requires Valid()
      modifies `ps
      ensures Agrees(ok, c, ShellGrammar.ParseLine(s, old(ps)))
      decreases |s| - ps, 3
    {
      hide Token, Next, ShellGrammar.ParsePipe;
      ok, c := ParsePipe();
      if !ok {
        return;
      }
      ghost var p, e := c, ps;
      var more := Peek("&");
      ghost var prev := e;
      while more
        invariant Valid() && e <= prev <= |s| && ps == SkipWhite(s, prev) && more == Next(s, prev, "&")
        invariant Backs(s, prev, c) == Backs(s, e, p)
        decreases |s| - prev
      {
        OpenToken(s, prev, "&");
        var _, _, _ := GetToken();
        c := Back(c);
        prev := ps;
        more := Peek("&");
      }
      ghost var f := ps;
      more := Peek(";");
      if more {
        OpenToken(s, f, ";");
        var _, _, _ := GetToken();
        var d;
        ok, d := ParseLine();
        c := List(c, d);
      }
    }
  }

  /** Reading an operator that peek saw moves the cursor. */
  lemma {:induction false} OpenToken(s: string, i: nat, toks: string)
    requires Line(s) && i <= |s| && Next(s, i, toks)
    ensures SkipWhite(s, SkipWhite(s, i)) == SkipWhite(s, i) && Token(s, SkipWhite(s, i)).next > i
  {
  }

  // ---------------------------------------------------------------- words apart

  /** All words of a command. */
  function Words(c: Cmd<Slice>): set<Slice> {
    match c
    case Exec(args) => set k | 0 <= k < |args| :: args[k]
    case Redir(d, f, input) => Words(d) + {f}
    case Pipe(l, r) => Words(l) + Words(r)
    case List(l, r) => Words(l) + Words(r)
    case Back(d) => Words(d)
  }

  /** Every word is a whole word of the line, and every argv has room for its closing 0. */
  ghost predicate Sound(s: string, c: Cmd<Slice>) {
    match c
    case Exec(args) => |args| < MAXARGS && forall k :: 0 <= k < |args| ==> IsWord(s, args[k].q, args[k].eq)
    case Redir(d, f, input) => Sound(s, d) && IsWord(s, f.q, f.eq)
    case Pipe(l, r) => Sound(s, l) && Sound(s, r)
    case List(l, r) => Sound(s, l) && Sound(s, r)
    case Back(d) => Sound(s, d)
  }

  ghost predicate SoundRedirs(s: string, rs: seq<Redirection<Slice>>) {
    forall k :: 0 <= k < |rs| ==> IsWord(s, rs[k].file.q, rs[k].file.eq)
  }

  lemma {:induction false} RedirsSound(s: string, i: nat, rs: seq<Redirection<Slice>>)
    requires Line(s) && i <= |s| && SoundRedirs(s, rs)
    ensures var r := Redirs(s, i, rs); r.Ok? ==> SoundRedirs(s, r.val)
    decreases |s| - i
  {
    hide IsWord, Token;
    if Next(s, i, "<>") {
      var t := Token(s, SkipWhite(s, i));
      var f := Token(s, t.next);
      OpenToken(s, i, "<>");
      if f.kind == 'a' { RedirsSound(s, f.next, rs + [Redirection(Slice(f.q, f.eq), t.kind == '<')]); }
    }
  }

  ghost predicate SoundSimple(s: string, m: Simple) { Sound(s, Exec(m.args)) && SoundRedirs(s, m.rs) }

  lemma {:induction false} ArgsSound(s: string, i: nat, m: Simple)
    requires Line(s) && i <= |s| && SoundSimple(s, m)
    ensures var r := Args(s, i, m); r.Ok? ==> SoundSimple(s, r.val)
    decreases |s| - i
  {
    hide IsWord, Token, Redirs;
    if !Next(s, i, "|)&;") {
      var t := Token(s, SkipWhite(s, i));
      if t.kind == 'a' && |m.args| + 1 < MAXARGS {
        var r := Redirs(s, t.next, m.rs);
        RedirsSound(s, t.next, m.rs);
        if r.Ok? { ArgsSound(s, r.next, Simple(m.args + [Slice(t.q, t.eq)], r.val)); }
      }
    }
  }

  lemma {:induction false} WrapSound(s: string, c: Cmd<Slice>, rs: seq<Redirection<Slice>>)
    requires Sound(s, c) && SoundRedirs(s, rs)
    ensures Sound(s, Wrap(c, rs))
  {
    if rs != [] { WrapSound(s, c, rs[..|rs| - 1]); }
  }

  lemma {:induction false} ExecSound(s: string, i: nat)
    requires Line(s) && i <= |s|
    ensures var r := ShellGrammar.ParseExec(s, i); r.Ok? ==> Sound(s, r.val)
    decreases |s| - i, 1
  {
    hide Redirs, Args, ShellGrammar.ParseBlock, IsWord, Wrap;
    if Next(s, i, "(") {
      BlockSound(s, SkipWhite(s, i));
    } else {
      RedirsSound(s, SkipWhite(s, i), []);
      var r := Redirs(s, SkipWhite(s, i), []);
      if r.Ok? {
        ArgsSound(s, r.next, Simple([], r.val));
        var a := Args(s, r.next, Simple([], r.val));
        if a.Ok? { WrapSound(s, Exec(a.val.args), a.val.rs); }
      }
    }
  }

  lemma {:induction false} BlockSound(s: string, i: nat)
    requires Line(s) && i <= |s|
    ensures var r := ShellGrammar.ParseBlock(s, i); r.Ok? ==> Sound(s, r.val)
    decreases |s| - i, 0
  {
    hide Redirs, ShellGrammar.ParseLine, Token, IsWord, Wrap;
    if Next(s, i, "(") {
      OpenToken(s, i, "(");
      var j := Token(s, SkipWhite(s, i)).next;
      LineSound(s, j);
      var c := ShellGrammar.ParseLine(s, j);
      if c.Ok? && Next(s, c.next, ")") {
        var e := Token(s, SkipWhite(s, c.next)).next;
        RedirsSound(s, e, []);
        var r := Redirs(s, e, []);
        if r.Ok? { WrapSound(s, c.val, r.val); }
      }
    }
  }

  lemma {:induction false} PipeSound(s: string, i: nat)
    requires Line(s) && i <= |s|
    ensures var r := ShellGrammar.ParsePipe(s, i); r.Ok? ==> Sound(s, r.val)
    decreases |s| - i, 2
  {
    hide ShellGrammar.ParseExec, Token, IsWord;
    ExecSound(s, i);
    var c := ShellGrammar.ParseExec(s, i);
    if c.Ok? && Next(s, c.next, "|") {
      OpenToken(s, c.next, "|");
      PipeSound(s, Token(s, SkipWhite(s, c.next)).next);
    }
  }

  lemma {:induction false} BacksSound(s: string, i: nat, c: Cmd<Slice>)
    requires Line(s) && i <= |s| && Sound(s, c)
    ensures Sound(s, Backs(s, i, c).val)
    decreases |s| - i
  {
    hide Token, IsWord;
    if Next(s, i, "&") {
      OpenToken(s, i, "&");
      BacksSound(s, Token(s, SkipWhite(s, i)).next, Back(c));
    }
  }

  /** Whatever the line, the words of a parsed command are whole words of it. */
  lemma {:induction false} LineSound(s: string, i: nat)
    requires Line(s) && i <= |s|
    ensures var r := ShellGrammar.ParseLine(s, i); r.Ok? ==> Sound(s, r.val)
    decreases |s| - i, 3
  {
    hide ShellGrammar.ParsePipe, Token, IsWord;
    PipeSound(s, i);
    var p := ShellGrammar.ParsePipe(s, i);
    if p.Ok? {
      BacksSound(s, p.next, p.val);
      var b := Backs(s, p.next, p.val);
      if Next(s, b.next, ";") {
        OpenToken(s, b.next, ";");
        LineSound(s, Token(s, SkipWhite(s, b.next)).next);
      }
    }
  }

  /** Position i ends a word of c. */
  predicate Ends(c: Cmd<Slice>, i: nat) { exists w :: w in Words(c) && w.eq == i }

  /** nulterminate: a NUL behind every word. */
  method NulTerminate(buf: array<char>, c: Cmd<Slice>)
    requires forall w :: w in Words(c) ==> w.eq < buf.Length
    modifies buf
    ensures forall i :: 0 <= i < buf.Length ==> buf[i] == if Ends(c, i) then '\0' else old(buf[i])
    decreases c
  {
    match c
    case Exec(args) =>
      for k := 0 to |args|
        invariant forall i :: 0 <= i < buf.Length ==>
          buf[i] == if exists j :: 0 <= j < k && args[j].eq == i then '\0' else old(buf[i])
      {
        assert args[k] in Words(c);
        buf[args[k].eq] := '\0';
      }
      forall i | 0 <= i < buf.Length ensures Ends(c, i) <==> exists j :: 0 <= j < |args| && args[j].eq == i {
        ExecEnds(args, i);
      }
    case Redir(d, f, input) =>
      NulTerminate(buf, d);
      assert f in Words(c);
      buf[f.eq] := '\0';
      forall i: nat ensures Ends(c, i) <==> Ends(d, i) || f.eq == i { EndsSplit(c, i); }
    case Pipe(l, r) =>
      NulTerminate(buf, l);
      NulTerminate(buf, r);
      forall i: nat ensures Ends(c, i) <==> Ends(l, i) || Ends(r, i) { EndsSplit(c, i); }
    case List(l, r) =>
      NulTerminate(buf, l);
      NulTerminate(buf, r);
      forall i: nat ensures Ends(c, i) <==> Ends(l, i) || Ends(r, i) { EndsSplit(c, i); }
    case Back(d) =>
      NulTerminate(buf, d);
      forall i: nat ensures Ends(c, i) <==> Ends(d, i) { EndsSplit(c, i); }
  }

  lemma {:induction false} ExecEnds(args: seq<Slice>, i: nat)
    ensures Ends(Exec(args), i) <==> exists j :: 0 <= j < |args| && args[j].eq == i
  {
    if j :| 0 <= j < |args| && args[j].eq == i {
      assert args[j] in Words(Exec(args));
    }
  }

  lemma {:induction false} EndsSplit(c: Cmd<Slice>, i: nat)
    requires !c.Exec?
    ensures Ends(c, i) <==>
      match c
      case Exec(_) => true
      case Redir(d, f, _) => Ends(d, i) || f.eq == i
      case Pipe(l, r) => Ends(l, i) || Ends(r, i)
      case List(l, r) => Ends(l, i) || Ends(r, i)
      case Back(d) => Ends(d, i)
  {
    match c
    case Redir(d, f, _) => assert f in Words(c); assert forall w :: w in Words(d) ==> w in Words(c);
    case Pipe(l, r) => assert forall w :: w in Words(c) <==> w in Words(l) || w in Words(r);
    case List(l, r) => assert forall w :: w in Words(c) <==> w in Words(l) || w in Words(r);
    case Back(d) => assert Words(c) == Words(d);
  }

  /** The C string at q. */
  function CString(b: seq<char>, q: nat): string
    decreases |b| - q
  { if q >= |b| || b[q] == '\0' then "" else [b[q]] + CString(b, q + 1) }

  lemma {:induction false} CStringIs(b: seq<char>, q: nat, e: nat)
    requires q <= e < |b| && b[e] == '\0' && forall k :: q <= k < e ==> b[k] != '\0'
    ensures CString(b, q) == b[q..e]
    decreases e - q
  {
    if q < e {
      CStringIs(b, q + 1, e);
      assert b[q..e] == [b[q]] + b[q + 1..e];
    }
  }

  lemma {:induction false} SoundWords(s: string, c: Cmd<Slice>, w: Slice)
    requires Sound(s, c) && w in Words(c)
    ensures IsWord(s, w.q, w.eq)
    decreases c
  {
    match c
    case Exec(args) =>
    case Redir(d, f, _) => if w in Words(d) { SoundWords(s, d, w); }
    case Pipe(l, r) => if w in Words(l) { SoundWords(s, l, w); } else { SoundWords(s, r, w); }
    case List(l, r) => if w in Words(l) { SoundWords(s, l, w); } else { SoundWords(s, r, w); }
    case Back(d) => SoundWords(s, d, w);
  }

  /** No word's NUL falls inside another word, so each word reads back as its own slice. */
  lemma {:induction false} ReadsBack(s: string, c: Cmd<Slice>, b: seq<char>, w: Slice)
    requires Line(s) && Sound(s, c) && w in Words(c) && |b| == |s| + 1
    requires forall i :: 0 <= i <= |s| ==> b[i] == if Ends(c, i) then '\0' else At(s, i)
    ensures w.q <= w.eq <= |s| && CString(b, w.q) == s[w.q..w.eq]
  {
    SoundWords(s, c, w);
    assert Ends(c, w.eq);
    forall k | w.q <= k < w.eq ensures b[k] == s[k] && b[k] != '\0' {
      assert WordChar(s[k]);
      forall v | v in Words(c) ensures v.eq != k { SoundWords(s, c, v); }
    }
    CStringIs(b, w.q, w.eq);
    assert b[w.q..w.eq] == s[w.q..w.eq];
  }

  /** parsecmd on a line in a buffer. */
  method ParseLineIn(buf: array<char>, s: string) returns (ok: bool, c: Cmd<Slice>)
    requires Line(s) && buf[..] == s + ['\0']
    modifies buf
    ensures ok == ParseCmd(s).Ok? && (ok ==> c == ParseCmd(s).val)
    ensures !ok ==> buf[..] == old(buf[..])
    ensures ok ==> Sound(s, c) && forall w :: w in Words(c) ==> w.q <= w.eq <= |s| && CString(buf[..], w.q) == s[w.q..w.eq]
  {
    var p := new Parser(s);
    ok, c := p.ParseLine();
    if !ok {
      return;
    }
    var _ := p.Peek("");
    if p.ps != |s| {
      return false, c;
    }
    LineSound(s, 0);
    forall w | w in Words(c) ensures w.eq < buf.Length { SoundWords(s, c, w); }
    assert forall i :: 0 <= i <= |s| ==> buf[..][i] == At(s, i);
    NulTerminate(buf, c);
    forall w | w in Words(c) ensures w.q <= w.eq <= |s| && CString(buf[..], w.q) == s[w.q..w.eq] {
      ReadsBack(s, c, buf[..], w);
    }
  }
}
