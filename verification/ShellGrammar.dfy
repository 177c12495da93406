/** What the shell's parser computes: tokens, and command trees over slices of the line. */
module ShellGrammar {
  const MAXARGS := 10

  predicate White(c: char) { c == ' ' || c == '\t' || c == '\r' || c == '\n' || c == 11 as char }

  predicate Symbol(c: char) {
    c == '<' || c == '|' || c == '>' || c == '&' || c == ';' || c == '(' || c == ')'
  }

  predicate WordChar(c: char) { c != '\0' && !White(c) && !Symbol(c) }

  /** A line as C sees it: no NUL before its end. */
  predicate Line(s: string) { '\0' !in s }

  /** The byte at i; the line ends in NUL. */
  function At(s: string, i: nat): char { if i < |s| then s[i] else '\0' }

  /** while(s < es && strchr(whitespace, *s)) s++ */
  function SkipWhite(s: string, i: nat): (j: nat)
    requires i <= |s|
    ensures i <= j <= |s| && !White(At(s, j))
    ensures !White(At(s, i)) ==> j == i
    decreases |s| - i
  { if i < |s| && White(s[i]) then SkipWhite(s, i + 1) else i }

  function WordEnd(s: string, i: nat): (j: nat)
    requires i <= |s|
    ensures i <= j <= |s| && (j < |s| ==> White(s[j]) || Symbol(s[j]))
    ensures forall k :: i <= k < j ==> !White(s[k]) && !Symbol(s[k])
    ensures i < |s| && !White(s[i]) && !Symbol(s[i]) ==> i < j
    decreases |s| - i
  { if i < |s| && !White(s[i]) && !Symbol(s[i]) then WordEnd(s, i + 1) else i }

  /** gettoken's results: the token's kind, where it starts and ends, and the cursor after it.
      Kind 'a' is a word, '+' is >>, NUL the end of the line. */
  datatype Tok = Tok(kind: char, q: nat, eq: nat, next: nat)

  function Token(s: string, i: nat): (t: Tok)
    requires Line(s) && i <= |s|
    ensures i <= t.q <= t.eq <= t.next <= |s|
    ensures t.kind != '\0' ==> t.q < t.eq
    ensures t.kind == 'a' ==> IsWord(s, t.q, t.eq)
  {
    var q := SkipWhite(s, i);
    var c := At(s, q);
    if c == '\0' then Tok(c, q, q, q)
    else if c == '>' && At(s, q + 1) == '>' then Tok('+', q, q + 2, SkipWhite(s, q + 2))
    else if Symbol(c) then Tok(c, q, q + 1, SkipWhite(s, q + 1))
    else Tok('a', q, WordEnd(s, q), SkipWhite(s, WordEnd(s, q)))
  }

  /** s[q..eq] is a whole word of the line. */
  predicate IsWord(s: string, q: nat, eq: nat) {
    && q < eq <= |s| && !WordChar(At(s, eq))
    && forall k :: q <= k < eq ==> WordChar(s[k])
  }

  /** peek */
  predicate Next(s: string, i: nat, toks: string)
    requires i <= |s|
  { At(s, SkipWhite(s, i)) != '\0' && At(s, SkipWhite(s, i)) in toks }

  /** struct cmd, over words of type W. */
  datatype Cmd<W> =
    | Exec(args: seq<W>)
    | Redir(cmd: Cmd<W>, file: W, input: bool)
    | Pipe(left: Cmd<W>, right: Cmd<W>)
    | List(left: Cmd<W>, right: Cmd<W>)
    | Back(cmd: Cmd<W>)

  /** A pair of pointers q, eq. */
  datatype Slice = Slice(q: nat, eq: nat)

  datatype Redirection<W> = Redirection(file: W, input: bool)

  /** A result and the cursor after it, or one of the parser's panics. */
  datatype Parsed<T> = Ok(val: T, next: nat) | Syntax

  /** redircmd for each redirection in turn. */
  function Wrap<W>(c: Cmd<W>, rs: seq<Redirection<W>>): Cmd<W> {
    if rs == [] then c
    else Redir(Wrap(c, rs[..|rs| - 1]), rs[|rs| - 1].file, rs[|rs| - 1].input)
  }

  /** parseredirs, after redirections rs. */
  function Redirs(s: string, i: nat, rs: seq<Redirection<Slice>>): (r: Parsed<seq<Redirection<Slice>>>)
    requires Line(s) && i <= |s|
    ensures r.Ok? ==> i <= r.next <= |s| && !Next(s, r.next, "<>")
    decreases |s| - i
  {
    if !Next(s, i, "<>") then Ok(rs, SkipWhite(s, i))
    else
      var t := Token(s, SkipWhite(s, i));
      var f := Token(s, t.next);
      if f.kind != 'a' then Syntax
      else Redirs(s, f.next, rs + [Redirection(Slice(f.q, f.eq), t.kind == '<')])
  }

  /** A command's words and redirections. */
  datatype Simple = Simple(args: seq<Slice>, rs: seq<Redirection<Slice>>)

  /** parseexec's loop. */
  function Args(s: string, i: nat, m: Simple): (r: Parsed<Simple>)
    requires Line(s) && i <= |s|
    ensures r.Ok? ==> i <= r.next <= |s|
    decreases |s| - i
  {
    if Next(s, i, "|)&;") then Ok(m, SkipWhite(s, i))
    else
      var t := Token(s, SkipWhite(s, i));
      if t.kind == '\0' then Ok(m, t.next)
      else if t.kind != 'a' || |m.args| + 1 >= MAXARGS then Syntax
      else
        var r := Redirs(s, t.next, m.rs);
        if r.Syntax? then Syntax else Args(s, r.next, Simple(m.args + [Slice(t.q, t.eq)], r.val))
  }

  function ParseExec(s: string, i: nat): (r: Parsed<Cmd<Slice>>)
    requires Line(s) && i <= |s|
    ensures r.Ok? ==> i <= r.next <= |s|
    decreases |s| - i, 1
  {
    if Next(s, i, "(") then ParseBlock(s, SkipWhite(s, i))
    else
      var r := Redirs(s, SkipWhite(s, i), []);
      if r.Syntax? then Syntax
      else
        var a := Args(s, r.next, Simple([], r.val));
        if a.Syntax? then Syntax else Ok(Wrap(Exec(a.val.args), a.val.rs), a.next)
  }

  function ParseBlock(s: string, i: nat): (r: Parsed<Cmd<Slice>>)
    requires Line(s) && i <= |s|
    ensures r.Ok? ==> i <= r.next <= |s|
    decreases |s| - i, 0
  {
    if !Next(s, i, "(") then Syntax
    else
      var c := ParseLine(s, Token(s, SkipWhite(s, i)).next);
      if c.Syntax? || !Next(s, c.next, ")") then Syntax
      else
        var r := Redirs(s, Token(s, SkipWhite(s, c.next)).next, []);
        if r.Syntax? then Syntax else Ok(Wrap(c.val, r.val), r.next)
  }

  function ParsePipe(s: string, i: nat): (r: Parsed<Cmd<Slice>>)
    requires Line(s) && i <= |s|
    ensures r.Ok? ==> i <= r.next <= |s|
    decreases |s| - i, 2
  {
    var c := ParseExec(s, i);
    if c.Syntax? then Syntax
    else if !Next(s, c.next, "|") then Ok(c.val, SkipWhite(s, c.next))
    else
      var d := ParsePipe(s, Token(s, SkipWhite(s, c.next)).next);
      if d.Syntax? then Syntax else Ok(Pipe(c.val, d.val), d.next)
  }

  /** parseline's loop over &. */
  function Backs(s: string, i: nat, c: Cmd<Slice>): (r: Parsed<Cmd<Slice>>)
    requires Line(s) && i <= |s|
    ensures r.Ok? && i <= r.next <= |s|
    decreases |s| - i
  {
    if !Next(s, i, "&") then Ok(c, SkipWhite(s, i))
    else Backs(s, Token(s, SkipWhite(s, i)).next, Back(c))
  }

  function ParseLine(s: string, i: nat): (r: Parsed<Cmd<Slice>>)
    requires Line(s) && i <= |s|
    ensures r.Ok? ==> i <= r.next <= |s|
    decreases |s| - i, 3
  {
    var p := ParsePipe(s, i);
    if p.Syntax? then Syntax
    else
      var b := Backs(s, p.next, p.val);
      if !Next(s, b.next, ";") then Ok(b.val, SkipWhite(s, b.next))
      else
        var d := ParseLine(s, Token(s, SkipWhite(s, b.next)).next);
        if d.Syntax? then Syntax else Ok(List(b.val, d.val), d.next)
  }

  /** parsecmd: the whole line must be used up. */
  function ParseCmd(s: string): (r: Parsed<Cmd<Slice>>)
    requires Line(s)
  {
    var c := ParseLine(s, 0);
    if c.Syntax? || SkipWhite(s, c.next) != |s| then Syntax else Ok(c.val, |s|)
  }
}
