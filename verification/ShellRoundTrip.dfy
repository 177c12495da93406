/** What the shell's parser makes of a line, told without the parser.

    A Script is a line as it is typed: pipelines of simple commands and blocks, with words and
    redirections in any mix, any number of & behind a pipeline, and ; between pipelines. Its lexemes
    are Flat, the command it stands for is Meaning. The parser accepts a line if and only if it is the
    lexemes of some script with white space between them, and returns that script's meaning. */
module ShellRoundTrip {
  import opened ShellGrammar
  import opened ShellLines

  // ----------------------------------------------------------------- scripts

  datatype Item = Arg(w: string) | Into(op: char, file: string)   // op is '<', '>', or '+' for >>

  datatype Prim = Plain(items: seq<Item>) | Paren(inner: Script, reds: seq<Item>)

  datatype Pipes = One(p: Prim) | Bar(p: Prim, more: Pipes)

  datatype Script = Script(pipes: Pipes, backs: nat, tail: Tail)

  datatype Tail = Done | Semi(next: Script)

  predicate LegalItem(x: Item) {
    match x
    case Arg(w) => LegalWord(w)
    case Into(op, f) => (op == '<' || op == '>' || op == '+') && LegalWord(f)
  }

  predicate LegalItems(xs: seq<Item>) { forall k :: 0 <= k < |xs| ==> LegalItem(xs[k]) }

  predicate OnlyInto(xs: seq<Item>) { forall k :: 0 <= k < |xs| ==> xs[k].Into? }

  predicate LegalPrim(p: Prim) {
    match p
    case Plain(items) => LegalItems(items) && |ArgsOf(items)| < MAXARGS
    case Paren(l, reds) => LegalScript(l) && LegalItems(reds) && OnlyInto(reds)
  }

  predicate LegalPipes(ps: Pipes) {
    match ps
    case One(p) => LegalPrim(p)
    case Bar(p, more) => LegalPrim(p) && LegalPipes(more)
  }

  predicate LegalScript(l: Script) { LegalPipes(l.pipes) && (l.tail.Semi? ==> LegalScript(l.tail.next)) }

  // ------------------------------------------------------------ their lexemes

  function FlatItem(x: Item): seq<Lexeme> {
    match x
    case Arg(w) => [Word(w)]
    case Into(op, f) => [if op == '+' then Append else Op(op), Word(f)]
  }

  function FlatItems(xs: seq<Item>): seq<Lexeme> { if xs == [] then [] else FlatItem(xs[0]) + FlatItems(xs[1..]) }

  function FlatPrim(p: Prim): seq<Lexeme> {
    match p
    case Plain(items) => FlatItems(items)
    case Paren(l, reds) => [Op('(')] + (Flat(l) + ([Op(')')] + FlatItems(reds)))
  }

  function FlatPipes(ps: Pipes): seq<Lexeme> {
    match ps
    case One(p) => FlatPrim(p)
    case Bar(p, more) => FlatPrim(p) + ([Op('|')] + FlatPipes(more))
  }

  function Amps(n: nat): seq<Lexeme> { if n == 0 then [] else [Op('&')] + Amps(n - 1) }

  function FlatTail(t: Tail): seq<Lexeme> { if t.Done? then [] else [Op(';')] + Flat(t.next) }

  function Flat(l: Script): seq<Lexeme> { FlatPipes(l.pipes) + (Amps(l.backs) + FlatTail(l.tail)) }

  // ------------------------------------------------------------- their meaning

  /** The words, in the order they stand. */
  function ArgsOf(xs: seq<Item>): seq<string> {
    if xs == [] then [] else (if xs[0].Arg? then [xs[0].w] else []) + ArgsOf(xs[1..])
  }

  /** c with the redirections of xs around it, the first one innermost. */
  function Around(c: Cmd<string>, xs: seq<Item>): Cmd<string>
    decreases |xs|
  {
    if xs == [] then c
    else Around(if xs[0].Into? then Redir(c, xs[0].file, xs[0].op == '<') else c, xs[1..])
  }

  function MeaningPrim(p: Prim): Cmd<string> {
    match p
    case Plain(items) => Around(Exec(ArgsOf(items)), items)
    case Paren(l, reds) => Around(Meaning(l), reds)
  }

  function MeaningPipes(ps: Pipes): Cmd<string> {
    match ps
    case One(p) => MeaningPrim(p)
    case Bar(p, more) => Pipe(MeaningPrim(p), MeaningPipes(more))
  }

  function Behind(c: Cmd<string>, n: nat): Cmd<string>
    decreases n
  { if n == 0 then c else Behind(Back(c), n - 1) }

  function Meaning(l: Script): Cmd<string> {
    var c := Behind(MeaningPipes(l.pipes), l.backs);
    if l.tail.Done? then c else List(c, Meaning(l.tail.next))
  }

  // ----------------------------------------------- what the parser returns, as text

  function Cut(s: string, w: Slice): string { if w.q <= w.eq <= |s| then s[w.q..w.eq] else "" }

  function Cuts(s: string, ws: seq<Slice>): seq<string> { seq(|ws|, k requires 0 <= k < |ws| => Cut(s, ws[k])) }

  /** The command with its words read off the line. */
  function Text(s: string, c: Cmd<Slice>): Cmd<string> {
    match c
    case Exec(args) => Exec(Cuts(s, args))
    case Redir(d, f, input) => Redir(Text(s, d), Cut(s, f), input)
    case Pipe(l, r) => Pipe(Text(s, l), Text(s, r))
    case List(l, r) => List(Text(s, l), Text(s, r))
    case Back(d) => Back(Text(s, d))
  }

  /** The redirections rs, read off the line, around c. */
  function Wrapped(s: string, c: Cmd<string>, rs: seq<Redirection<Slice>>): Cmd<string> {
    if rs == [] then c
    else Redir(Wrapped(s, c, rs[..|rs| - 1]), Cut(s, rs[|rs| - 1].file), rs[|rs| - 1].input)
  }

  lemma {:induction false} WrapText(s: string, c: Cmd<Slice>, rs: seq<Redirection<Slice>>)
    ensures Text(s, Wrap(c, rs)) == Wrapped(s, Text(s, c), rs)
  {
    if rs != [] { WrapText(s, c, rs[..|rs| - 1]); }
  }

  lemma {:induction false} WrappedMore(s: string, c: Cmd<string>, rs: seq<Redirection<Slice>>, r: Redirection<Slice>)
    ensures Wrapped(s, c, rs + [r]) == Redir(Wrapped(s, c, rs), Cut(s, r.file), r.input)
  {
    assert (rs + [r])[..|rs|] == rs;
  }

  lemma {:induction false} CutsLen(s: string, ws: seq<Slice>)
    ensures |Cuts(s, ws)| == |ws|
  {
  }

  lemma {:induction false} CutsMore(s: string, ws: seq<Slice>, w: Slice)
    ensures Cuts(s, ws + [w]) == Cuts(s, ws) + [Cut(s, w)]
  {
  }

  // -------------------------------------------------------------- lists of items

  lemma {:induction false} Assoc<T>(a: seq<T>, b: seq<T>, c: seq<T>)
    ensures a + b + c == a + (b + c)
  {
  }

  lemma {:induction false} FlatJoin(a: seq<Item>, b: seq<Item>)
    ensures FlatItems(a + b) == FlatItems(a) + FlatItems(b) && ArgsOf(a + b) == ArgsOf(a) + ArgsOf(b)
    decreases |a|
  {
    if a == [] {
      assert a + b == b;
    } else {
      FlatJoin(a[1..], b);
      JoinFlat(a, b);
      JoinArgs(a, b);
    }
  }

  lemma {:induction false} JoinFlat(a: seq<Item>, b: seq<Item>)
    requires a != [] && FlatItems(a[1..] + b) == FlatItems(a[1..]) + FlatItems(b)
    ensures FlatItems(a + b) == FlatItems(a) + FlatItems(b)
  {
    hide FlatItem;
    assert (a + b)[0] == a[0] && (a + b)[1..] == a[1..] + b;
    Assoc(FlatItem(a[0]), FlatItems(a[1..]), FlatItems(b));
  }

  lemma {:induction false} JoinArgs(a: seq<Item>, b: seq<Item>)
    requires a != [] && ArgsOf(a[1..] + b) == ArgsOf(a[1..]) + ArgsOf(b)
    ensures ArgsOf(a + b) == ArgsOf(a) + ArgsOf(b)
  {
    assert (a + b)[0] == a[0] && (a + b)[1..] == a[1..] + b;
    Assoc(if a[0].Arg? then [a[0].w] else [], ArgsOf(a[1..]), ArgsOf(b));
  }

  lemma {:induction false} AroundJoin(c: Cmd<string>, a: seq<Item>, b: seq<Item>)
    ensures Around(c, a + b) == Around(Around(c, a), b)
    decreases |a|
  {
    if a == [] {
      assert a + b == b;
    } else {
      assert (a + b)[0] == a[0] && (a + b)[1..] == a[1..] + b;
      AroundJoin(if a[0].Into? then Redir(c, a[0].file, a[0].op == '<') else c, a[1..], b);
    }
  }

  /** From rs to rs', the redirections of xs were added. */
  ghost predicate Adds(s: string, rs: seq<Redirection<Slice>>, rs': seq<Redirection<Slice>>, xs: seq<Item>) {
    forall c :: Wrapped(s, c, rs') == Around(Wrapped(s, c, rs), xs)
  }

  lemma {:induction false} AddsNone(s: string, rs: seq<Redirection<Slice>>)
    ensures Adds(s, rs, rs, [])
  {
  }

  lemma {:induction false} AddsItem(s: string, rs: seq<Redirection<Slice>>, x: Item, w: Slice)
    requires Cut(s, w) == if x.Arg? then x.w else x.file
    ensures Adds(s, rs, if x.Arg? then rs else rs + [Redirection(w, x.op == '<')], [x])
  {
    hide Wrapped;
    forall c ensures Wrapped(s, c, if x.Arg? then rs else rs + [Redirection(w, x.op == '<')]) == Around(Wrapped(s, c, rs), [x]) {
      if x.Into? { WrappedMore(s, c, rs, Redirection(w, x.op == '<')); }
      AroundOne(Wrapped(s, c, rs), x);
    }
  }

  lemma {:induction false} AroundOne(c: Cmd<string>, x: Item)
    ensures Around(c, [x]) == if x.Into? then Redir(c, x.file, x.op == '<') else c
  {
    assert [x][1..] == [];
  }

  lemma {:induction false} AddsOn(s: string, a: seq<Redirection<Slice>>, b: seq<Redirection<Slice>>, d: seq<Redirection<Slice>>,
                                  xs: seq<Item>, ys: seq<Item>)
    requires Adds(s, a, b, xs) && Adds(s, b, d, ys)
    ensures Adds(s, a, d, xs + ys)
  {
    hide Wrapped, Around;
    forall c ensures Wrapped(s, c, d) == Around(Wrapped(s, c, a), xs + ys) {
      AroundJoin(Wrapped(s, c, a), xs, ys);
    }
  }

  /** A word, the redirections behind it, and the rest. */
  lemma {:induction false} ItemsSplit(x: Item, reds: seq<Item>, ys: seq<Item>)
    requires x.Arg? && OnlyInto(reds)
    ensures var xs := [x] + (reds + ys);
      && FlatItems(xs) == [Word(x.w)] + (FlatItems(reds) + FlatItems(ys)) && ArgsOf(xs) == [x.w] + ArgsOf(ys)
      && (LegalItems(xs) <==> LegalItem(x) && LegalItems(reds) && LegalItems(ys))
  {
    hide LegalItem;
    var xs := [x] + (reds + ys);
    assert xs[0] == x && xs[1..] == reds + ys;
    FlatJoin(reds, ys);
    NoArgs(reds);
    LegalJoin(reds, ys);
    LegalJoin([x], reds + ys);
    assert [x][0] == x;
    assert FlatItems(xs) == FlatItem(x) + FlatItems(reds + ys);
    assert ArgsOf(xs) == [x.w] + ArgsOf(reds + ys);
    hide FlatItems, ArgsOf;
    assert [] + ArgsOf(ys) == ArgsOf(ys);
  }

  lemma {:induction false} LegalJoin(a: seq<Item>, b: seq<Item>)
    ensures LegalItems(a + b) <==> LegalItems(a) && LegalItems(b)
  {
    hide LegalItem;
    if LegalItems(a + b) {
      forall k | 0 <= k < |a| ensures LegalItem(a[k]) { assert (a + b)[k] == a[k]; }
      forall k | 0 <= k < |b| ensures LegalItem(b[k]) { assert (a + b)[|a| + k] == b[k]; }
    }
  }

  /** How many redirections stand in front. */
  function Lead(xs: seq<Item>): (n: nat)
    ensures n <= |xs| && (forall k :: 0 <= k < n ==> xs[k].Into?) && (n < |xs| ==> xs[n].Arg?)
  { if xs == [] || xs[0].Arg? then 0 else 1 + Lead(xs[1..]) }

  lemma {:induction false} NoArgs(xs: seq<Item>)
    requires OnlyInto(xs)
    ensures ArgsOf(xs) == []
  {
    if xs != [] { NoArgs(xs[1..]); }
  }

  // ------------------------------------------- the grammar in terms of lexemes

  /** The cursor behind the next lexeme. */
  function After(s: string, i: nat): (j: nat)
    requires Line(s) && i <= |s|
    ensures i <= j <= |s|
  { Token(s, i).next }

  /** The next lexeme as a slice. */
  function Here(s: string, i: nat): Slice
    requires Line(s) && i <= |s|
  { Slice(Token(s, i).q, Token(s, i).eq) }

  /** gettoken takes the next lexeme. */
  lemma {:induction false} Take(s: string, i: nat, x: Lexeme, rest: seq<Lexeme>)
    requires Line(s) && i <= |s| && Lex(s, i) == [x] + rest
    ensures After(s, i) > i && Lex(s, After(s, i)) == rest && LegalLexeme(x)
    ensures x.Word? ==> Cut(s, Here(s, i)) == x.w
  {
    hide Token, Lex;
    Pop(s, i);
  }

  lemma {:induction false} RedirsStop(s: string, i: nat, rs: seq<Redirection<Slice>>)
    requires Line(s) && i <= |s| && !Starts(Lex(s, i), "<>")
    ensures Redirs(s, i, rs) == Ok(rs, SkipWhite(s, i)) && Lex(s, SkipWhite(s, i)) == Lex(s, i)
  {
    hide Token, Lex;
    NextLex(s, i, "<>");
    LexSkip(s, i);
  }

  lemma {:induction false} RedirsStep(s: string, i: nat, rs: seq<Redirection<Slice>>)
    requires Line(s) && i <= |s| && Starts(Lex(s, i), "<>")
    ensures var j := After(s, i);
      Redirs(s, i, rs) ==
      if Lex(s, j) == [] || !Lex(s, j)[0].Word? then Syntax
      else Redirs(s, After(s, j), rs + [Redirection(Here(s, j), Lex(s, i)[0] == Op('<'))])
  {
    hide Token, Lex;
    NextLex(s, i, "<>");
    Pop(s, i);
    var j := After(s, i);
    LexStep(s, j);
    if Lex(s, j) != [] { Pop(s, j); }
  }

  lemma {:induction false} ArgsStop(s: string, i: nat, m: Simple)
    requires Line(s) && i <= |s| && (Lex(s, i) == [] || Starts(Lex(s, i), "|)&;"))
    ensures Args(s, i, m).Ok? && Args(s, i, m).val == m && Lex(s, Args(s, i, m).next) == Lex(s, i)
  {
    hide Token, Lex;
    NextLex(s, i, "|)&;");
    LexSkip(s, i);
    LexStep(s, i);
    if Lex(s, i) == [] { EndLex(s, i); }
  }

  lemma {:induction false} EndLex(s: string, i: nat)
    requires Line(s) && i <= |s| && Token(s, i).kind == '\0'
    ensures Lex(s, Token(s, i).next) == []
  {
  }

  lemma {:induction false} ArgsStep(s: string, i: nat, m: Simple)
    requires Line(s) && i <= |s| && Lex(s, i) != [] && !Starts(Lex(s, i), "|)&;")
    ensures Args(s, i, m) ==
      if !Lex(s, i)[0].Word? || |m.args| + 1 >= MAXARGS then Syntax
      else
        var r := Redirs(s, After(s, i), m.rs);
        if r.Syntax? then Syntax else Args(s, r.next, Simple(m.args + [Here(s, i)], r.val))
  {
    hide Token, Lex, Redirs;
    NextLex(s, i, "|)&;");
    Pop(s, i);
  }

  lemma {:induction false} ExecPlain(s: string, i: nat)
    requires Line(s) && i <= |s| && !Starts(Lex(s, i), "(")
    ensures var r := Redirs(s, SkipWhite(s, i), []);
      ParseExec(s, i) ==
      if r.Syntax? then Syntax
      else
        var a := Args(s, r.next, Simple([], r.val));
        if a.Syntax? then Syntax else Ok(Wrap(Exec(a.val.args), a.val.rs), a.next)
    ensures Lex(s, SkipWhite(s, i)) == Lex(s, i)
  {
    hide Token, Lex, Redirs, Args, ParseBlock;
    NextLex(s, i, "(");
    LexSkip(s, i);
  }

  lemma {:induction false} ExecBlock(s: string, i: nat)
    requires Line(s) && i <= |s| && Starts(Lex(s, i), "(")
    ensures After(s, i) > i
    ensures var c := ParseLine(s, After(s, i));
      ParseExec(s, i) ==
      if c.Syntax? || !Starts(Lex(s, c.next), ")") then Syntax
      else
        var r := Redirs(s, After(s, c.next), []);
        if r.Syntax? then Syntax else Ok(Wrap(c.val, r.val), r.next)
  {
    hide Token, Lex, Redirs, ParseLine, Wrap;
    NextLex(s, i, "(");
    Pop(s, i);
    LexSkip(s, i);
    NextLex(s, SkipWhite(s, i), "(");
    Pop(s, SkipWhite(s, i));
    var c := ParseLine(s, After(s, i));
    if c.Ok? {
      NextLex(s, c.next, ")");
      if Starts(Lex(s, c.next), ")") { Pop(s, c.next); }
    }
  }

  lemma {:induction false} PipeUnfold(s: string, i: nat)
    requires Line(s) && i <= |s| && ParseExec(s, i).Ok?
    ensures var c := ParseExec(s, i);
      if !Starts(Lex(s, c.next), "|") then
        ParsePipe(s, i) == Ok(c.val, SkipWhite(s, c.next)) && Lex(s, SkipWhite(s, c.next)) == Lex(s, c.next)
      else
        && After(s, c.next) > c.next
        && var d := ParsePipe(s, After(s, c.next));
           ParsePipe(s, i) == if d.Syntax? then Syntax else Ok(Pipe(c.val, d.val), d.next)
  {
    hide Token, Lex, ParseExec;
    var c := ParseExec(s, i);
    NextLex(s, c.next, "|");
    LexSkip(s, c.next);
    if Starts(Lex(s, c.next), "|") { Pop(s, c.next); }
  }

  lemma {:induction false} BacksUnfold(s: string, i: nat, c: Cmd<Slice>)
    requires Line(s) && i <= |s|
    ensures if !Starts(Lex(s, i), "&") then Backs(s, i, c) == Ok(c, SkipWhite(s, i)) && Lex(s, SkipWhite(s, i)) == Lex(s, i)
            else After(s, i) > i && Backs(s, i, c) == Backs(s, After(s, i), Back(c))
  {
    hide Token, Lex;
    NextLex(s, i, "&");
    LexSkip(s, i);
    if Starts(Lex(s, i), "&") { Pop(s, i); }
  }

  lemma {:induction false} LineUnfold(s: string, i: nat)
    requires Line(s) && i <= |s| && ParsePipe(s, i).Ok?
    ensures var p := ParsePipe(s, i);
      var b := Backs(s, p.next, p.val);
      if !Starts(Lex(s, b.next), ";") then
        ParseLine(s, i) == Ok(b.val, SkipWhite(s, b.next)) && Lex(s, SkipWhite(s, b.next)) == Lex(s, b.next)
      else
        && After(s, b.next) > b.next
        && var d := ParseLine(s, After(s, b.next));
           ParseLine(s, i) == if d.Syntax? then Syntax else Ok(List(b.val, d.val), d.next)
  {
    hide Token, Lex, ParsePipe, Backs;
    var p := ParsePipe(s, i);
    var b := Backs(s, p.next, p.val);
    NextLex(s, b.next, ";");
    LexSkip(s, b.next);
    if Starts(Lex(s, b.next), ";") { Pop(s, b.next); }
  }

  // ------------------------------------------------------ typed lines are parsed

  lemma {:induction false} RedirsRead(s: string, i: nat, reds: seq<Item>, rest: seq<Lexeme>, rs: seq<Redirection<Slice>>)
    requires Line(s) && i <= |s| && LegalItems(reds) && OnlyInto(reds) && Lex(s, i) == FlatItems(reds) + rest && !Starts(rest, "<>")
    ensures var r := Redirs(s, i, rs); r.Ok? && Lex(s, r.next) == rest && Adds(s, rs, r.val, reds)
    decreases |reds|
  {
    hide Lex, Redirs, Adds, After, Here, LegalWord, Cut;
    if reds == [] {
      assert Lex(s, i) == rest;
      RedirsStop(s, i, rs);
      AddsNone(s, rs);
    } else {
      var x, j := reds[0], After(s, i);
      var op := if x.op == '+' then Append else Op(x.op);
      var more := FlatItems(reds[1..]) + rest;
      assert LegalItem(x);
      assert Lex(s, i) == [op] + ([Word(x.file)] + more);
      RedirsStep(s, i, rs);
      Take(s, i, op, [Word(x.file)] + more);
      Take(s, j, Word(x.file), more);
      var rs' := rs + [Redirection(Here(s, j), x.op == '<')];
      RedirsRead(s, After(s, j), reds[1..], rest, rs');
      AddsItem(s, rs, x, Here(s, j));
      AddsOn(s, rs, rs', Redirs(s, After(s, j), rs').val, [x], reds[1..]);
      assert [x] + reds[1..] == reds;
    }
  }

  /** A simple command from its first word on. */
  lemma {:induction false} ArgsRead(s: string, i: nat, xs: seq<Item>, rest: seq<Lexeme>, m: Simple)
    requires Line(s) && i <= |s| && LegalItems(xs) && Lex(s, i) == FlatItems(xs) + rest && (rest == [] || Starts(rest, "|)&;"))
    requires (xs == [] || xs[0].Arg?) && |m.args| + |ArgsOf(xs)| < MAXARGS
    ensures var r := Args(s, i, m);
      r.Ok? && Lex(s, r.next) == rest && Cuts(s, r.val.args) == Cuts(s, m.args) + ArgsOf(xs) && Adds(s, m.rs, r.val.rs, xs)
    decreases |xs|
  {
    hide Lex, Redirs, Args, Adds, After, Here, Cut, Cuts, FlatItems, ArgsOf, LegalItems;
    if xs == [] {
      NoItems();
      assert FlatItems(xs) + rest == rest && Cuts(s, m.args) + ArgsOf(xs) == Cuts(s, m.args);
      ArgsStop(s, i, m);
      AddsNone(s, m.rs);
    } else {
      var x, n := xs[0], Lead(xs[1..]);
      var reds, ys := xs[1..][..n], xs[1..][n..];
      assert xs == [x] + (reds + ys);
      ItemsSplit(x, reds, ys);
      Assoc([Word(x.w)], FlatItems(reds) + FlatItems(ys), rest);
      Assoc(FlatItems(reds), FlatItems(ys), rest);
      ArgsStep(s, i, m);
      Take(s, i, Word(x.w), FlatItems(reds) + (FlatItems(ys) + rest));
      NotInto(ys, rest);
      RedirsRead(s, After(s, i), reds, FlatItems(ys) + rest, m.rs);
      var r := Redirs(s, After(s, i), m.rs);
      var m' := Simple(m.args + [Here(s, i)], r.val);
      CutsMore(s, m.args, Here(s, i));
      ArgsRead(s, r.next, ys, rest, m');
      Assoc(Cuts(s, m.args), [x.w], ArgsOf(ys));
      AddsItem(s, m.rs, x, Here(s, i));
      AddsOn(s, m.rs, r.val, Args(s, r.next, m').val.rs, reds, ys);
      AddsOn(s, m.rs, m.rs, Args(s, r.next, m').val.rs, [x], reds + ys);
    }
  }

  lemma {:induction false} NoItems()
    ensures FlatItems([]) == [] && ArgsOf([]) == [] && LegalItems([])
  {
  }

  lemma {:induction false} NotInto(ys: seq<Item>, rest: seq<Lexeme>)
    requires (ys == [] || ys[0].Arg?) && (rest == [] || Starts(rest, "|)&;"))
    ensures !Starts(FlatItems(ys) + rest, "<>")
  {
    if ys == [] { assert FlatItems(ys) + rest == rest; }
  }

  lemma {:induction false} PlainRead(s: string, i: nat, xs: seq<Item>, rest: seq<Lexeme>)
    requires Line(s) && i <= |s| && LegalPrim(Plain(xs)) && Lex(s, i) == FlatItems(xs) + rest && (rest == [] || Starts(rest, "|)&;"))
    ensures var r := ParseExec(s, i); r.Ok? && Lex(s, r.next) == rest && Text(s, r.val) == MeaningPrim(Plain(xs))
  {
    hide Lex, Redirs, Args, ParseExec, Wrap, Cuts, Wrapped, FlatItems, ArgsOf, LegalItems, Adds, Around;
    var n := Lead(xs);
    var reds, ys := xs[..n], xs[n..];
    assert xs == reds + ys;
    FlatJoin(reds, ys);
    LegalJoin(reds, ys);
    NoArgs(reds);
    assert ArgsOf(xs) == ArgsOf(ys);
    NotParen(xs, rest);
    ExecPlain(s, i);
    NotInto(ys, rest);
    Assoc(FlatItems(reds), FlatItems(ys), rest);
    RedirsRead(s, SkipWhite(s, i), reds, FlatItems(ys) + rest, []);
    var r := Redirs(s, SkipWhite(s, i), []);
    ArgsRead(s, r.next, ys, rest, Simple([], r.val));
    var a := Args(s, r.next, Simple([], r.val)).val;
    AddsOn(s, [], r.val, a.rs, reds, ys);
    WrapText(s, Exec(a.args), a.rs);
    StartsBare(s, Exec(ArgsOf(xs)), a.args);
    assert Cuts(s, a.args) == [] + ArgsOf(ys) == ArgsOf(xs);
    AddsMeans(s, a.rs, xs, Exec(ArgsOf(xs)));
  }

  lemma {:induction false} StartsBare(s: string, c: Cmd<string>, args: seq<Slice>)
    ensures Wrapped(s, c, []) == c && Cuts(s, []) == []
  {
  }

  lemma {:induction false} NotParen(xs: seq<Item>, rest: seq<Lexeme>)
    requires LegalItems(xs) && (rest == [] || Starts(rest, "|)&;"))
    ensures !Starts(FlatItems(xs) + rest, "(")
  {
    if xs == [] {
      assert FlatItems(xs) + rest == rest;
    } else {
      assert LegalItem(xs[0]);
    }
  }

  lemma {:induction false} PrimRead(s: string, i: nat, p: Prim, rest: seq<Lexeme>)
    requires Line(s) && i <= |s| && LegalPrim(p) && Lex(s, i) == FlatPrim(p) + rest && (rest == [] || Starts(rest, "|)&;"))
    ensures var r := ParseExec(s, i); r.Ok? && Lex(s, r.next) == rest && Text(s, r.val) == MeaningPrim(p)
    decreases p
  {
    hide Lex, Redirs, ParseExec, ParseLine, Wrap, Wrapped, After, Flat, Meaning, LegalItems, FlatItems, Around, ArgsOf, Adds;
    match p
    case Plain(xs) => PlainRead(s, i, xs, rest);
    case Paren(l, reds) =>
      var inner := [Op(')')] + (FlatItems(reds) + rest);
      assert Lex(s, i) == [Op('(')] + (Flat(l) + inner);
      ExecBlock(s, i);
      Take(s, i, Op('('), Flat(l) + inner);
      ScriptRead(s, After(s, i), l, inner);
      var c := ParseLine(s, After(s, i));
      Take(s, c.next, Op(')'), FlatItems(reds) + rest);
      RedirsRead(s, After(s, c.next), reds, rest, []);
      var r := Redirs(s, After(s, c.next), []);
      WrapText(s, c.val, r.val);
      StartsBare(s, Text(s, c.val), []);
      AddsMeans(s, r.val, reds, Text(s, c.val));
  }

  lemma {:induction false} AddsMeans(s: string, rs: seq<Redirection<Slice>>, xs: seq<Item>, c: Cmd<string>)
    requires Adds(s, [], rs, xs)
    ensures Wrapped(s, c, rs) == Around(c, xs)
  {
    StartsBare(s, c, []);
  }

  lemma {:induction false} PipesRead(s: string, i: nat, ps: Pipes, rest: seq<Lexeme>)
    requires Line(s) && i <= |s| && LegalPipes(ps) && Lex(s, i) == FlatPipes(ps) + rest && (rest == [] || Starts(rest, ")&;"))
    ensures var r := ParsePipe(s, i); r.Ok? && Lex(s, r.next) == rest && Text(s, r.val) == MeaningPipes(ps)
    decreases ps
  {
    hide Lex, ParseExec, ParsePipe, After, FlatPrim, MeaningPrim, LegalPrim;
    match ps
    case One(p) =>
      PrimRead(s, i, p, rest);
      PipeUnfold(s, i);
    case Bar(p, more) =>
      var tail := FlatPipes(more) + rest;
      assert Lex(s, i) == FlatPrim(p) + ([Op('|')] + tail);
      PrimRead(s, i, p, [Op('|')] + tail);
      PipeUnfold(s, i);
      var c := ParseExec(s, i);
      Take(s, c.next, Op('|'), tail);
      PipesRead(s, After(s, c.next), more, rest);
  }

  lemma {:induction false} BacksRead(s: string, i: nat, n: nat, rest: seq<Lexeme>, c: Cmd<Slice>)
    requires Line(s) && i <= |s| && Lex(s, i) == Amps(n) + rest && !Starts(rest, "&")
    ensures var r := Backs(s, i, c); Lex(s, r.next) == rest && Text(s, r.val) == Behind(Text(s, c), n)
    decreases n
  {
    hide Lex, Backs, After;
    BacksUnfold(s, i, c);
    if n == 0 {
      assert Lex(s, i) == rest;
    } else {
      assert Lex(s, i) == [Op('&')] + (Amps(n - 1) + rest);
      Take(s, i, Op('&'), Amps(n - 1) + rest);
      BacksRead(s, After(s, i), n - 1, rest, Back(c));
    }
  }

  lemma {:induction false} ScriptRead(s: string, i: nat, l: Script, rest: seq<Lexeme>)
    requires Line(s) && i <= |s| && LegalScript(l) && Lex(s, i) == Flat(l) + rest && (rest == [] || Starts(rest, ")"))
    ensures var r := ParseLine(s, i); r.Ok? && Lex(s, r.next) == rest && Text(s, r.val) == Meaning(l)
    decreases l
  {
    hide Lex, ParsePipe, ParseLine, Backs, After, FlatPipes, MeaningPipes, LegalPipes, Behind;
    var end := FlatTail(l.tail) + rest;
    assert Lex(s, i) == FlatPipes(l.pipes) + (Amps(l.backs) + end);
    AmpsStop(l.backs, l.tail, rest);
    PipesRead(s, i, l.pipes, Amps(l.backs) + end);
    var p := ParsePipe(s, i);
    BacksRead(s, p.next, l.backs, end, p.val);
    LineUnfold(s, i);
    if l.tail.Semi? {
      var b := Backs(s, p.next, p.val);
      assert end == [Op(';')] + (Flat(l.tail.next) + rest);
      Take(s, b.next, Op(';'), Flat(l.tail.next) + rest);
      ScriptRead(s, After(s, b.next), l.tail.next, rest);
    } else {
      assert end == rest;
    }
  }

  lemma {:induction false} AmpsStop(n: nat, t: Tail, rest: seq<Lexeme>)
    requires rest == [] || Starts(rest, ")")
    ensures var end := FlatTail(t) + rest;
      !Starts(end, "&") && (Amps(n) + end == [] || Starts(Amps(n) + end, ")&;")) && (Starts(end, ";") <==> t.Semi?)
  {
    var end := FlatTail(t) + rest;
    if t.Done? { assert end == rest; }
    if n == 0 { assert Amps(n) + end == end; }
  }

  lemma {:induction false} ScriptLexemes(l: Script)
    requires LegalScript(l)
    ensures LegalLexemes(Flat(l))
    decreases l, 1
  {
    hide LegalLexeme;
    PipesLexemes(l.pipes);
    AmpsLexemes(l.backs);
    OpLegal(';');
    if l.tail.Semi? { ScriptLexemes(l.tail.next); }
  }

  lemma {:induction false} OpLegal(c: char)
    requires c in SYMBOLS
    ensures LegalLexeme(Op(c))
  {
  }

  lemma {:induction false} AmpsLexemes(n: nat)
    ensures LegalLexemes(Amps(n))
  {
    if n > 0 { AmpsLexemes(n - 1); }
  }

  lemma {:induction false} ItemsLexemes(xs: seq<Item>)
    requires LegalItems(xs)
    ensures LegalLexemes(FlatItems(xs))
    decreases |xs|
  {
    if xs != [] {
      assert LegalItem(xs[0]);
      ItemsLexemes(xs[1..]);
    }
  }

  lemma {:induction false} PipesLexemes(ps: Pipes)
    requires LegalPipes(ps)
    ensures LegalLexemes(FlatPipes(ps))
    decreases ps, 0
  {
    hide LegalLexeme;
    OpLegal('|');
    PrimLexemes(ps.p);
    if ps.Bar? { PipesLexemes(ps.more); }
  }

  lemma {:induction false} PrimLexemes(p: Prim)
    requires LegalPrim(p)
    ensures LegalLexemes(FlatPrim(p))
    decreases p, 2
  {
    hide LegalLexeme, FlatItems, LegalItems;
    OpLegal('(');
    OpLegal(')');
    match p
    case Plain(xs) => ItemsLexemes(xs);
    case Paren(l, reds) => ItemsLexemes(reds); ScriptLexemes(l);
  }

  /** parsecmd on a line as it is typed, with any white space: the command the line stands for. */
  lemma {:induction false} ParsesTyped(l: Script, gaps: seq<string>)
    requires LegalScript(l) && Gaps(Flat(l), gaps)
    ensures var s := Lay(Flat(l), gaps); Line(s) && ParseCmd(s).Ok? && Text(s, ParseCmd(s).val) == Meaning(l)
  {
    hide Lay, ParseLine, Lex, Flat, Meaning, LegalScript, LegalLexeme, Touching;
    ScriptLexemes(l);
    var s := Lay(Flat(l), gaps);
    LayIsLine(Flat(l), gaps);
    assert s[0..] == s;
    LexLay(s, 0, Flat(l), gaps);
    assert Flat(l) + [] == Flat(l);
    ScriptRead(s, 0, l, []);
    LexEnd(s, ParseLine(s, 0).next);
  }

  /** Nothing is left on the line when no lexeme is. */
  lemma {:induction false} LexEnd(s: string, i: nat)
    requires Line(s) && i <= |s|
    ensures Lex(s, i) == [] <==> SkipWhite(s, i) == |s|
  {
    LexStep(s, i);
    TokenShape(s, i);
  }

  // ----------------------------------------------------- and nothing else is parsed

  /** From i to j the line has the lexemes ts. */
  ghost predicate Splits(s: string, i: nat, ts: seq<Lexeme>, j: nat) {
    Line(s) && i <= |s| && j <= |s| && Lex(s, i) == ts + Lex(s, j)
  }

  lemma {:induction false} SplitsNone(s: string, i: nat, j: nat)
    requires Line(s) && i <= |s| && j <= |s| && Lex(s, i) == Lex(s, j)
    ensures Splits(s, i, [], j)
  {
    hide Lex;
  }

  lemma {:induction false} SplitsOn(s: string, i: nat, a: seq<Lexeme>, j: nat, b: seq<Lexeme>, k: nat)
    requires Splits(s, i, a, j) && Splits(s, j, b, k)
    ensures Splits(s, i, a + b, k)
  {
    hide Lex;
    Assoc(a, b, Lex(s, k));
  }

  /** gettoken takes the next lexeme, whatever it is. */
  lemma {:induction false} SplitsOne(s: string, i: nat) returns (x: Lexeme)
    requires Line(s) && i <= |s| && Lex(s, i) != []
    ensures x == Lex(s, i)[0] && Splits(s, i, [x], After(s, i)) && After(s, i) > i && LegalLexeme(x)
    ensures x.Word? ==> Cut(s, Here(s, i)) == x.w
  {
    hide Lex, After, Here;
    x := Lex(s, i)[0];
    assert Lex(s, i) == [x] + Lex(s, i)[1..];
    Take(s, i, x, Lex(s, i)[1..]);
  }

  lemma {:induction false} RedirsOnly(s: string, i: nat, rs: seq<Redirection<Slice>>) returns (reds: seq<Item>)
    requires Line(s) && i <= |s| && Redirs(s, i, rs).Ok?
    ensures var r := Redirs(s, i, rs);
      LegalItems(reds) && OnlyInto(reds) && Splits(s, i, FlatItems(reds), r.next) && Adds(s, rs, r.val, reds)
    decreases |s| - i
  {
    hide Lex, Redirs, Adds, After, Here, LegalWord, Cut, Splits, FlatItems;
    NoItems();
    if !Starts(Lex(s, i), "<>") {
      RedirsStop(s, i, rs);
      AddsNone(s, rs);
      reds := [];
      SplitsNone(s, i, SkipWhite(s, i));
    } else {
      var j := After(s, i);
      RedirsStep(s, i, rs);
      var op := SplitsOne(s, i);
      var f := SplitsOne(s, j);
      var x := Into(if op.Append? then '+' else op.c, f.w);
      var rs' := rs + [Redirection(Here(s, j), x.op == '<')];
      var more := RedirsOnly(s, After(s, j), rs');
      reds := [x] + more;
      var r := Redirs(s, After(s, j), rs');
      AddsItem(s, rs, x, Here(s, j));
      AddsOn(s, rs, rs', r.val, [x], more);
      SplitsOn(s, i, [op], j, [f], After(s, j));
      SplitsOn(s, i, [op] + [f], After(s, j), FlatItems(more), r.next);
      IntoFirst(x, more);
    }
  }

  lemma {:induction false} IntoFirst(x: Item, more: seq<Item>)
    requires x.Into?
    ensures FlatItems([x] + more) == [if x.op == '+' then Append else Op(x.op)] + [Word(x.file)] + FlatItems(more)
  {
    assert ([x] + more)[0] == x && ([x] + more)[1..] == more;
  }

  lemma {:induction false} ArgsOnly(s: string, i: nat, m: Simple) returns (xs: seq<Item>)
    requires Line(s) && i <= |s| && |m.args| < MAXARGS && Args(s, i, m).Ok?
    ensures var r := Args(s, i, m);
      && LegalItems(xs) && Splits(s, i, FlatItems(xs), r.next) && |r.val.args| < MAXARGS
      && Cuts(s, r.val.args) == Cuts(s, m.args) + ArgsOf(xs) && Adds(s, m.rs, r.val.rs, xs)
    decreases |s| - i
  {
    hide Lex, Redirs, Args, Adds, After, Here, Cut, Cuts, FlatItems, ArgsOf, LegalItems, Splits;
    if Lex(s, i) == [] || Starts(Lex(s, i), "|)&;") {
      ArgsStop(s, i, m);
      AddsNone(s, m.rs);
      NoItems();
      xs := [];
      SplitsNone(s, i, Args(s, i, m).next);
      assert Cuts(s, m.args) + [] == Cuts(s, m.args);
    } else {
      ArgsStep(s, i, m);
      var x := SplitsOne(s, i);
      var reds := RedirsOnly(s, After(s, i), m.rs);
      var r := Redirs(s, After(s, i), m.rs);
      var m' := Simple(m.args + [Here(s, i)], r.val);
      CutsMore(s, m.args, Here(s, i));
      var ys := ArgsOnly(s, r.next, m');
      xs := [Arg(x.w)] + (reds + ys);
      ItemsSplit(Arg(x.w), reds, ys);
      var e := Args(s, r.next, m');
      SplitsOn(s, After(s, i), FlatItems(reds), r.next, FlatItems(ys), e.next);
      SplitsOn(s, i, [x], After(s, i), FlatItems(reds) + FlatItems(ys), e.next);
      Assoc(Cuts(s, m.args), [x.w], ArgsOf(ys));
      AddsItem(s, m.rs, Arg(x.w), Here(s, i));
      AddsOn(s, m.rs, r.val, e.val.rs, reds, ys);
      AddsOn(s, m.rs, m.rs, e.val.rs, [Arg(x.w)], reds + ys);
    }
  }

  lemma {:induction false} PlainOnly(s: string, i: nat) returns (xs: seq<Item>)
    requires Line(s) && i <= |s| && !Starts(Lex(s, i), "(") && ParseExec(s, i).Ok?
    ensures var r := ParseExec(s, i);
      LegalPrim(Plain(xs)) && Splits(s, i, FlatItems(xs), r.next) && Text(s, r.val) == MeaningPrim(Plain(xs))
  {
    hide Lex, Redirs, Args, ParseExec, Wrap, Wrapped, Adds, Around, FlatItems, ArgsOf, LegalItems, Cuts, Splits;
    ExecPlain(s, i);
    SplitsNone(s, i, SkipWhite(s, i));
    var reds := RedirsOnly(s, SkipWhite(s, i), []);
    var r := Redirs(s, SkipWhite(s, i), []);
    var ys := ArgsOnly(s, r.next, Simple([], r.val));
    var a := Args(s, r.next, Simple([], r.val));
    xs := reds + ys;
    FlatJoin(reds, ys);
    LegalJoin(reds, ys);
    NoArgs(reds);
    SplitsOn(s, SkipWhite(s, i), FlatItems(reds), r.next, FlatItems(ys), a.next);
    SplitsOn(s, i, [], SkipWhite(s, i), FlatItems(xs), a.next);
    assert [] + FlatItems(xs) == FlatItems(xs);
    AddsOn(s, [], r.val, a.val.rs, reds, ys);
    WrapText(s, Exec(a.val.args), a.val.rs);
    StartsBare(s, Exec([]), []);
    assert Cuts(s, a.val.args) == [] + ArgsOf(ys) == ArgsOf(xs);
    CutsLen(s, a.val.args);
    AddsMeans(s, a.val.rs, xs, Exec(ArgsOf(xs)));
  }

  lemma {:induction false} PrimOnly(s: string, i: nat) returns (p: Prim)
    requires Line(s) && i <= |s| && ParseExec(s, i).Ok?
    ensures var r := ParseExec(s, i);
      LegalPrim(p) && Splits(s, i, FlatPrim(p), r.next) && Text(s, r.val) == MeaningPrim(p)
    decreases |s| - i, 1
  {
    hide Lex, Redirs, ParseExec, ParseLine, Wrap, Wrapped, After, Flat, Meaning, LegalItems, FlatItems, Around, ArgsOf, Adds, Splits;
    if !Starts(Lex(s, i), "(") {
      var xs := PlainOnly(s, i);
      p := Plain(xs);
    } else {
      ExecBlock(s, i);
      var c := ParseLine(s, After(s, i));
      var open := SplitsOne(s, i);
      var close := SplitsOne(s, c.next);
      var l := ScriptOnly(s, After(s, i));
      var reds := RedirsOnly(s, After(s, c.next), []);
      var r := Redirs(s, After(s, c.next), []);
      p := Paren(l, reds);
      SplitsOn(s, c.next, [close], After(s, c.next), FlatItems(reds), r.next);
      SplitsOn(s, After(s, i), Flat(l), c.next, [close] + FlatItems(reds), r.next);
      SplitsOn(s, i, [open], After(s, i), Flat(l) + ([close] + FlatItems(reds)), r.next);
      WrapText(s, c.val, r.val);
      AddsMeans(s, r.val, reds, Text(s, c.val));
    }
  }

  lemma {:induction false} PipesOnly(s: string, i: nat) returns (ps: Pipes)
    requires Line(s) && i <= |s| && ParsePipe(s, i).Ok?
    ensures var r := ParsePipe(s, i);
      LegalPipes(ps) && Splits(s, i, FlatPipes(ps), r.next) && Text(s, r.val) == MeaningPipes(ps)
    decreases |s| - i, 2
  {
    hide Lex, ParseExec, ParsePipe, ParseLine, After, FlatPrim, MeaningPrim, LegalPrim, Splits, SkipWhite, FlatPipes, MeaningPipes,
         LegalPipes;
    PipeNeedsExec(s, i);
    var p := PrimOnly(s, i);
    var c := ParseExec(s, i);
    PipeUnfold(s, i);
    if !Starts(Lex(s, c.next), "|") {
      ps := One(p);
      PipesMade(ps);
      SplitsNone(s, c.next, SkipWhite(s, c.next));
      SplitsOn(s, i, FlatPrim(p), c.next, [], SkipWhite(s, c.next));
      assert FlatPrim(p) + [] == FlatPrim(p);
    } else {
      var bar := SplitsOne(s, c.next);
      var more := PipesOnly(s, After(s, c.next));
      var d := ParsePipe(s, After(s, c.next));
      ps := Bar(p, more);
      PipesMade(ps);
      SplitsOn(s, c.next, [bar], After(s, c.next), FlatPipes(more), d.next);
      SplitsOn(s, i, FlatPrim(p), c.next, [bar] + FlatPipes(more), d.next);
    }
  }

  lemma {:induction false} PipesMade(ps: Pipes)
    ensures FlatPipes(ps) == if ps.One? then FlatPrim(ps.p) else FlatPrim(ps.p) + ([Op('|')] + FlatPipes(ps.more))
    ensures LegalPipes(ps) <==> LegalPrim(ps.p) && (ps.Bar? ==> LegalPipes(ps.more))
    ensures MeaningPipes(ps) == if ps.One? then MeaningPrim(ps.p) else Pipe(MeaningPrim(ps.p), MeaningPipes(ps.more))
  {
  }

  lemma {:induction false} PipeNeedsExec(s: string, i: nat)
    requires Line(s) && i <= |s|
    ensures ParsePipe(s, i).Ok? ==> ParseExec(s, i).Ok?
    ensures ParseLine(s, i).Ok? ==> ParsePipe(s, i).Ok?
  {
    hide Token, Next, Backs, ParseExec;
  }

  lemma {:induction false} BacksOnly(s: string, i: nat, c: Cmd<Slice>) returns (n: nat)
    requires Line(s) && i <= |s|
    ensures var r := Backs(s, i, c); Splits(s, i, Amps(n), r.next) && Text(s, r.val) == Behind(Text(s, c), n)
    decreases |s| - i
  {
    hide Lex, Backs, After, Splits;
    BacksUnfold(s, i, c);
    if !Starts(Lex(s, i), "&") {
      n := 0;
      SplitsNone(s, i, SkipWhite(s, i));
    } else {
      var amp := SplitsOne(s, i);
      var m := BacksOnly(s, After(s, i), Back(c));
      n := m + 1;
      SplitsOn(s, i, [amp], After(s, i), Amps(m), Backs(s, i, c).next);
    }
  }

  lemma {:induction false} ScriptOnly(s: string, i: nat) returns (l: Script)
    requires Line(s) && i <= |s| && ParseLine(s, i).Ok?
    ensures var r := ParseLine(s, i);
      LegalScript(l) && Splits(s, i, Flat(l), r.next) && Text(s, r.val) == Meaning(l)
    decreases |s| - i, 3
  {
    hide Lex, ParsePipe, ParseLine, Backs, After, FlatPipes, MeaningPipes, LegalPipes, Behind, Amps, Splits, Flat, FlatTail, Meaning,
         LegalScript, SkipWhite, ParseExec;
    PipeNeedsExec(s, i);
    var ps := PipesOnly(s, i);
    var p := ParsePipe(s, i);
    var n := BacksOnly(s, p.next, p.val);
    var b := Backs(s, p.next, p.val);
    LineUnfold(s, i);
    var end := ParseLine(s, i).next;
    if !Starts(Lex(s, b.next), ";") {
      l := Script(ps, n, Done);
      SplitsNone(s, b.next, end);
    } else {
      var semi := SplitsOne(s, b.next);
      var next := ScriptOnly(s, After(s, b.next));
      l := Script(ps, n, Semi(next));
      SplitsOn(s, b.next, [semi], After(s, b.next), Flat(next), end);
    }
    ScriptMade(ps, n, l.tail);
    SplitsOn(s, p.next, Amps(n), b.next, FlatTail(l.tail), end);
    SplitsOn(s, i, FlatPipes(ps), p.next, Amps(n) + FlatTail(l.tail), end);
  }

  lemma {:induction false} ScriptMade(ps: Pipes, n: nat, t: Tail)
    ensures FlatTail(t) == if t.Done? then [] else [Op(';')] + Flat(t.next)
    ensures var l, c := Script(ps, n, t), Behind(MeaningPipes(ps), n);
      && Flat(l) == FlatPipes(ps) + (Amps(n) + FlatTail(t)) && (LegalScript(l) <==> LegalPipes(ps) && (t.Semi? ==> LegalScript(t.next)))
      && Meaning(l) == if t.Done? then c else List(c, Meaning(t.next))
  {
  }

  /** Whatever line parsecmd accepts is the lexemes of some script with white space between them, and
      the command returned is that script's. */
  lemma {:induction false} ParsesOnlyTyped(s: string) returns (l: Script, gaps: seq<string>)
    requires Line(s) && ParseCmd(s).Ok?
    ensures LegalScript(l) && Gaps(Flat(l), gaps) && s == Lay(Flat(l), gaps) && Text(s, ParseCmd(s).val) == Meaning(l)
  {
    hide Lay, Gaps, ParseLine, Lex, Flat, Meaning, LegalScript, LegalLexeme;
    l := ScriptOnly(s, 0);
    LexEnd(s, ParseLine(s, 0).next);
    assert Lex(s, 0) == Flat(l) + [] == Flat(l);
    gaps := LayLex(s, 0);
    assert s[0..] == s;
  }

  // ------------------------------------------------------------- every command

  /** A command tree that can be typed. */
  predicate Legal(t: Cmd<string>) {
    match t
    case Exec(args) => |args| < MAXARGS && forall k :: 0 <= k < |args| ==> LegalWord(args[k])
    case Redir(c, f, input) => Legal(c) && LegalWord(f)
    case Pipe(l, r) => Legal(l) && Legal(r)
    case List(l, r) => Legal(l) && Legal(r)
    case Back(c) => Legal(c)
  }

  function Words(args: seq<string>): seq<Item> { seq(|args|, k requires 0 <= k < |args| => Arg(args[k])) }

  /** One command and nothing else. */
  function Just(p: Prim): Script { Script(One(p), 0, Done) }

  function Block(t: Cmd<string>): Prim
    decreases t, 1
  { Paren(Parens(t), []) }

  /** The command with every part in parentheses. */
  function Parens(t: Cmd<string>): Script
    decreases t, 0
  {
    match t
    case Exec(args) => Just(Plain(Words(args)))
    case Redir(c, f, input) => Just(Paren(Parens(c), [Into(if input then '<' else '>', f)]))
    case Pipe(l, r) => Script(Bar(Block(l), One(Block(r))), 0, Done)
    case List(l, r) => Script(One(Block(l)), 0, Semi(Just(Block(r))))
    case Back(c) => Script(One(Block(c)), 1, Done)
  }

  lemma {:induction false} WordsMean(args: seq<string>)
    ensures ArgsOf(Words(args)) == args && forall c :: Around(c, Words(args)) == c
    decreases |args|
  {
    if args != [] {
      assert Words(args)[1..] == Words(args[1..]);
      WordsMean(args[1..]);
    }
  }

  lemma {:induction false} BlockMeans(t: Cmd<string>)
    requires LegalScript(Parens(t)) && Meaning(Parens(t)) == t
    ensures LegalPrim(Block(t)) && MeaningPrim(Block(t)) == t
  {
  }

  lemma {:induction false} ParensMean(t: Cmd<string>)
    requires Legal(t)
    ensures LegalScript(Parens(t)) && Meaning(Parens(t)) == t
  {
    hide Block;
    match t
    case Exec(args) =>
      WordsMean(args);
      assert LegalPrim(Plain(Words(args))) && MeaningPrim(Plain(Words(args))) == t;
    case Redir(c, f, input) =>
      ParensMean(c);
      var x := Into(if input then '<' else '>', f);
      AroundOne(c, x);
      assert LegalPrim(Paren(Parens(c), [x])) && MeaningPrim(Paren(Parens(c), [x])) == t;
    case Pipe(l, r) =>
      ParensMean(l);
      ParensMean(r);
      BlockMeans(l);
      BlockMeans(r);
      assert LegalPipes(One(Block(r))) && MeaningPipes(One(Block(r))) == r;
    case List(l, r) =>
      ParensMean(l);
      ParensMean(r);
      BlockMeans(l);
      BlockMeans(r);
      assert LegalScript(Just(Block(r))) && Meaning(Just(Block(r))) == r;
    case Back(c) =>
      ParensMean(c);
      BlockMeans(c);
      assert Behind(c, 1) == Back(c);
  }

  /** parsecmd rebuilds every legal command from its fully parenthesised text, however it is spaced. */
  lemma {:induction false} RoundTrip(t: Cmd<string>, gaps: seq<string>)
    requires Legal(t) && Gaps(Flat(Parens(t)), gaps)
    ensures var s := Lay(Flat(Parens(t)), gaps); Line(s) && ParseCmd(s).Ok? && Text(s, ParseCmd(s).val) == t
  {
    hide Legal, Parens, Flat, Lay, ParseCmd, Text, Meaning, Touching;
    ParensMean(t);
    ParsesTyped(Parens(t), gaps);
  }
}
