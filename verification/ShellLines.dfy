/** A command line as its lexemes with white space between them. */
module ShellLines {
  import opened ShellGrammar

  const WHITESPACE: string := [' ', '\t', '\r', '\n', 11 as char]
  const SYMBOLS: string := ['<', '|', '>', '&', ';', '(', ')']

  datatype Lexeme = Word(w: string) | Op(c: char) | Append   // Append is >>

  function Spell(x: Lexeme): string {
    match x
    case Word(w) => w
    case Op(c) => [c]
    case Append => ">>"
  }

  /** A word is not empty and has no NUL, white space or symbol in it. */
  predicate LegalWord(w: string) {
    w != "" && forall k :: 0 <= k < |w| ==> w[k] != '\0' && w[k] !in WHITESPACE && w[k] !in SYMBOLS
  }

  predicate LegalLexeme(x: Lexeme) {
    match x
    case Word(w) => LegalWord(w)
    case Op(c) => c in SYMBOLS
    case Append => true
  }

  predicate LegalLexemes(ts: seq<Lexeme>) { forall k :: 0 <= k < |ts| ==> LegalLexeme(ts[k]) }

  predicate Blank(g: string) { forall k :: 0 <= k < |g| ==> g[k] in WHITESPACE }

  /** Written without a space, a and b would be read as something else. */
  predicate Touching(a: Lexeme, b: Lexeme) {
    (a.Word? && b.Word?) || (a == Op('>') && (b == Op('>') || b == Append))
  }

  /** White space for every gap between lexemes, and some where they would touch. */
  predicate Gaps(ts: seq<Lexeme>, gaps: seq<string>) {
    && |gaps| == |ts| + 1 && (forall k :: 0 <= k < |gaps| ==> Blank(gaps[k]))
    && forall k :: 0 < k < |ts| && Touching(ts[k - 1], ts[k]) ==> gaps[k] != ""
  }

  /** The line: lexemes with these gaps before, between and behind them. */
  function Lay(ts: seq<Lexeme>, gaps: seq<string>): string
    requires |gaps| == |ts| + 1
  { if ts == [] then gaps[0] else gaps[0] + (Spell(ts[0]) + Lay(ts[1..], gaps[1..])) }

  // ----------------------------------------------------------------- lexing

  function LexemeOf(s: string, t: Tok): Lexeme
    requires t.q <= t.eq <= |s|
  { if t.kind == 'a' then Word(s[t.q..t.eq]) else if t.kind == '+' then Append else Op(t.kind) }

  /** What gettoken returns, call after call. */
  function Lex(s: string, i: nat): seq<Lexeme>
    requires Line(s) && i <= |s|
    decreases |s| - i
  {
    var t := Token(s, i);
    if t.kind == '\0' then [] else [LexemeOf(s, t)] + Lex(s, t.next)
  }

  lemma {:induction false} CharClasses(c: char)
    ensures White(c) <==> c in WHITESPACE
    ensures Symbol(c) <==> c in SYMBOLS
  {
  }

  /** White space is skipped. */
  lemma {:induction false} SkipBlank(s: string, i: nat, j: nat)
    requires i <= j <= |s| && forall k :: i <= k < j ==> White(s[k])
    ensures SkipWhite(s, i) == SkipWhite(s, j)
    decreases j - i
  {
    if i < j { SkipBlank(s, i + 1, j); }
  }

  lemma {:induction false} SkipsWhite(s: string, i: nat)
    requires i <= |s|
    ensures forall k :: i <= k < SkipWhite(s, i) ==> White(s[k])
    decreases |s| - i
  {
    if i < |s| && White(s[i]) { SkipsWhite(s, i + 1); }
  }

  lemma {:induction false} LexSkip(s: string, i: nat)
    requires Line(s) && i <= |s|
    ensures Token(s, SkipWhite(s, i)) == Token(s, i) && Lex(s, SkipWhite(s, i)) == Lex(s, i)
  {
    assert SkipWhite(s, SkipWhite(s, i)) == SkipWhite(s, i);
  }

  /** The next lexeme is a symbol of toks. */
  predicate Starts(ts: seq<Lexeme>, toks: string) {
    ts != [] && match ts[0] case Word(_) => false case Op(c) => c in toks case Append => '>' in toks
  }

  /** peek looks at the next lexeme. */
  lemma {:induction false} NextLex(s: string, i: nat, toks: string)
    requires Line(s) && i <= |s| && forall k :: 0 <= k < |toks| ==> Symbol(toks[k])
    ensures Next(s, i, toks) <==> Starts(Lex(s, i), toks)
  {
    hide WordEnd;
    var c := At(s, SkipWhite(s, i));
    assert c in toks ==> Symbol(c);
  }

  /** gettoken takes it. */
  lemma {:induction false} Pop(s: string, i: nat)
    requires Line(s) && i <= |s| && Lex(s, i) != []
    ensures var t := Token(s, i);
      && t.kind != '\0' && t.next > i && Lex(s, i)[0] == LexemeOf(s, t) && Lex(s, t.next) == Lex(s, i)[1..]
      && (Lex(s, i)[0].Word? <==> t.kind == 'a') && LegalLexeme(Lex(s, i)[0]) && (Lex(s, i)[0] == Op('<') <==> t.kind == '<')
    ensures Token(s, SkipWhite(s, i)) == Token(s, i)
  {
    hide Lex;
    LexSkip(s, i);
    PopKind(s, i);
    assert Lex(s, i) == [LexemeOf(s, Token(s, i))] + Lex(s, Token(s, i).next) by { LexStep(s, i); }
  }

  lemma {:induction false} LexStep(s: string, i: nat)
    requires Line(s) && i <= |s|
    ensures Lex(s, i) == [] <==> Token(s, i).kind == '\0'
    ensures Lex(s, i) != [] ==> Lex(s, i) == [LexemeOf(s, Token(s, i))] + Lex(s, Token(s, i).next)
  {
  }

  lemma {:induction false} PopKind(s: string, i: nat)
    requires Line(s) && i <= |s|
    ensures var t := Token(s, i);
      t.kind != '\0' ==>
        && t.next > i && LegalLexeme(LexemeOf(s, t))
        && (LexemeOf(s, t).Word? <==> t.kind == 'a') && (LexemeOf(s, t) == Op('<') <==> t.kind == '<')
  {
    hide WordEnd;
    var t := Token(s, i);
    CharClasses(At(s, SkipWhite(s, i)));
    if t.kind == 'a' {
      forall k | t.q <= k < t.eq ensures s[k] != '\0' && s[k] !in WHITESPACE && s[k] !in SYMBOLS {
        assert WordChar(s[k]);
        CharClasses(s[k]);
      }
    }
  }

  // ----------------------------------------------------- lexemes laid out on a line

  /** The character behind the first lexeme of a laid-out line. */
  lemma {:induction false} Behind(s: string, e: nat, a: Lexeme, ts: seq<Lexeme>, gaps: seq<string>)
    requires e <= |s| && |gaps| == |ts| + 1 && s[e..] == Lay(ts, gaps) && LegalLexemes([a] + ts) && Blank(gaps[0])
    requires ts != [] && Touching(a, ts[0]) ==> gaps[0] != ""
    ensures a.Word? ==> !WordChar(At(s, e))
    ensures a == Op('>') ==> At(s, e) != '>'
  {
    if e < |s| {
      assert s[e] == s[e..][0];
      CharClasses(s[e]);
      if gaps[0] != "" {
        assert s[e] == gaps[0][0];
      } else {
        assert ts != [] && LegalLexeme(([a] + ts)[1]);
        assert s[e] == Spell(ts[0])[0];
      }
    }
  }

  /** gettoken on a lexeme that ends properly. */
  lemma {:induction false} Spelled(s: string, i: nat, q: nat, x: Lexeme)
    requires Line(s) && i <= q && q + |Spell(x)| <= |s| && s[q..q + |Spell(x)|] == Spell(x) && LegalLexeme(x)
    requires forall k :: i <= k < q ==> White(s[k])
    requires (x.Word? ==> !WordChar(At(s, q + |Spell(x)|))) && (x == Op('>') ==> At(s, q + |Spell(x)|) != '>')
    ensures var t := Token(s, i);
      t.kind != '\0' && t.q == q && t.eq == q + |Spell(x)| && LexemeOf(s, t) == x && t.next == SkipWhite(s, t.eq)
  {
    var e := q + |Spell(x)|;
    assert s[q] == s[q..e][0];
    CharClasses(s[q]);
    SkipBlank(s, i, q);
    if x.Word? {
      forall k | q <= k < e ensures WordChar(s[k]) {
        assert s[k] == x.w[k - q];
        CharClasses(s[k]);
      }
      WordEndIs(s, q, e);
    } else if x.Append? {
      assert s[q + 1] == s[q..e][1];
    }
  }

  lemma {:induction false} WordEndIs(s: string, q: nat, e: nat)
    requires q <= e <= |s| && (forall k :: q <= k < e ==> WordChar(s[k])) && !WordChar(At(s, e)) && Line(s)
    ensures WordEnd(s, q) == e
  {
    var j := WordEnd(s, q);
    assert j < e ==> WordChar(s[j]);
    assert e < j ==> WordChar(s[e]);
  }

  /** A laid-out line is read as the lexemes it was made of. */
  lemma {:induction false} LexLay(s: string, i: nat, ts: seq<Lexeme>, gaps: seq<string>)
    requires Line(s) && i <= |s| && LegalLexemes(ts) && Gaps(ts, gaps) && s[i..] == Lay(ts, gaps)
    ensures Lex(s, i) == ts
    decreases |ts|
  {
    hide Lay, Token, Lex, Touching, SkipWhite;
    var q := i + |gaps[0]|;
    LayHead(s, i, ts, gaps);
    LexStep(s, i);
    if ts == [] {
      AllBlank(s, i);
    } else {
      var x, e := ts[0], q + |Spell(ts[0])|;
      assert [x] + ts[1..] == ts;
      TailGaps(ts, gaps);
      Behind(s, e, x, ts[1..], gaps[1..]);
      Spelled(s, i, q, x);
      LexLay(s, e, ts[1..], gaps[1..]);
      LexSkip(s, e);
    }
  }

  lemma {:induction false} AllBlank(s: string, i: nat)
    requires Line(s) && i <= |s| && forall k :: i <= k < |s| ==> White(s[k])
    ensures Token(s, i).kind == '\0'
  {
    SkipBlank(s, i, |s|);
  }

  /** Where the first lexeme stands. */
  lemma {:induction false} LayHead(s: string, i: nat, ts: seq<Lexeme>, gaps: seq<string>)
    requires i <= |s| && Gaps(ts, gaps) && s[i..] == Lay(ts, gaps)
    ensures var q := i + |gaps[0]|;
      && q <= |s| && (forall k :: i <= k < q ==> White(s[k])) && (ts == [] ==> q == |s|)
      && (ts != [] ==>
            var e := q + |Spell(ts[0])|;
            e <= |s| && s[q..e] == Spell(ts[0]) && s[e..] == Lay(ts[1..], gaps[1..]))
  {
    hide Spell, Touching;
    var q := i + |gaps[0]|;
    assert |s[i..]| == |s| - i;
    forall k | i <= k < q ensures White(s[k]) {
      assert s[k] == s[i..][k - i] == gaps[0][k - i];
      CharClasses(s[k]);
    }
    if ts != [] {
      var x, rest := ts[0], Lay(ts[1..], gaps[1..]);
      assert s[q..] == s[i..][|gaps[0]|..] == Spell(x) + rest;
      assert s[q..q + |Spell(x)|] == s[q..][..|Spell(x)|] == Spell(x);
      assert s[q + |Spell(x)|..] == s[q..][|Spell(x)|..] == rest;
    }
  }

  lemma {:induction false} TailGaps(ts: seq<Lexeme>, gaps: seq<string>)
    requires ts != [] && Gaps(ts, gaps)
    ensures Gaps(ts[1..], gaps[1..]) && (|ts| > 1 && Touching(ts[0], ts[1]) ==> gaps[1] != "")
  {
    forall k | 0 < k < |ts[1..]| && Touching(ts[1..][k - 1], ts[1..][k]) ensures gaps[1..][k] != "" {
      assert Touching(ts[k + 1 - 1], ts[k + 1]);
    }
  }

  lemma {:induction false} LayIsLine(ts: seq<Lexeme>, gaps: seq<string>)
    requires LegalLexemes(ts) && Gaps(ts, gaps)
    ensures Line(Lay(ts, gaps))
    decreases |ts|
  {
    if ts != [] {
      TailGaps(ts, gaps);
      LayIsLine(ts[1..], gaps[1..]);
      assert LegalLexeme(ts[0]);
      assert '\0' !in Spell(ts[0]);
    }
    assert '\0' !in gaps[0];
  }

  /** Every line is its lexemes laid out with some gaps. */
  lemma {:induction false} LayLex(s: string, i: nat) returns (gaps: seq<string>)
    requires Line(s) && i <= |s|
    ensures LegalLexemes(Lex(s, i)) && Gaps(Lex(s, i), gaps) && s[i..] == Lay(Lex(s, i), gaps)
    decreases |s| - i
  {
    hide Token, Lex, Lay, Gaps, LegalLexeme, SkipWhite, LexemeOf, Spell;
    var t := Token(s, i);
    LexStep(s, i);
    TokenShape(s, i);
    if t.kind == '\0' {
      gaps := [s[i..]];
      LayNone(s, i);
    } else {
      Pop(s, i);
      LexSkip(s, t.eq);
      var rest := LayLex(s, t.eq);
      gaps := [s[i..t.q]] + rest;
      LayJoin(s, i, t, Lex(s, t.eq), rest);
    }
  }

  lemma {:induction false} LayNone(s: string, i: nat)
    requires i <= |s| && forall k :: i <= k < |s| ==> White(s[k])
    ensures Gaps([], [s[i..]]) && Lay([], [s[i..]]) == s[i..]
  {
    forall k | 0 <= k < |s[i..]| ensures s[i..][k] in WHITESPACE { CharClasses(s[i + k]); }
  }

  lemma {:induction false} LayJoin(s: string, i: nat, t: Tok, ts: seq<Lexeme>, rest: seq<string>)
    requires i <= t.q <= t.eq <= |s| && (forall k :: i <= k < t.q ==> White(s[k])) && s[t.q..t.eq] == Spell(LexemeOf(s, t))
    requires LegalLexemes(ts) && Gaps(ts, rest) && s[t.eq..] == Lay(ts, rest)
    requires (LexemeOf(s, t).Word? <==> t.kind == 'a') && (t.kind == 'a' ==> !WordChar(At(s, t.eq)))
    requires t.kind == '>' ==> At(s, t.eq) != '>'
    ensures Gaps([LexemeOf(s, t)] + ts, [s[i..t.q]] + rest)
    ensures Lay([LexemeOf(s, t)] + ts, [s[i..t.q]] + rest) == s[i..]
  {
    var x, g := LexemeOf(s, t), s[i..t.q];
    forall k | 0 <= k < |g| ensures g[k] in WHITESPACE { CharClasses(s[i + k]); }
    NotTouching(s, t, x, ts, rest);
    HeadGaps(x, ts, g, rest);
    hide Spell, LexemeOf, Gaps;
    assert ([x] + ts)[1..] == ts && ([g] + rest)[1..] == rest;
    assert s[i..] == g + (s[t.q..t.eq] + s[t.eq..]);
  }

  lemma {:induction false} HeadGaps(x: Lexeme, ts: seq<Lexeme>, g: string, gaps: seq<string>)
    requires Gaps(ts, gaps) && Blank(g) && (ts != [] && Touching(x, ts[0]) ==> gaps[0] != "")
    ensures Gaps([x] + ts, [g] + gaps)
  {
    forall k | 0 < k < |[x] + ts| && Touching(([x] + ts)[k - 1], ([x] + ts)[k]) ensures ([g] + gaps)[k] != "" {
      if k > 1 { assert Touching(ts[k - 1 - 1], ts[k - 1]); }
    }
  }

  /** Where gettoken starts and stops. */
  lemma {:induction false} TokenShape(s: string, i: nat)
    requires Line(s) && i <= |s|
    ensures var t := Token(s, i);
      && i <= t.q <= t.eq <= |s| && (forall k :: i <= k < t.q ==> White(s[k])) && t.next == SkipWhite(s, t.eq)
      && (t.kind == '\0' ==> t.q == |s|)
      && (t.kind != '\0' ==> s[t.q..t.eq] == Spell(LexemeOf(s, t)))
      && (t.kind == 'a' ==> !WordChar(At(s, t.eq))) && (t.kind == '>' ==> At(s, t.eq) != '>')
  {
    SkipsWhite(s, i);
    CharClasses(At(s, SkipWhite(s, i)));
  }

  lemma {:induction false} NotTouching(s: string, t: Tok, x: Lexeme, ts: seq<Lexeme>, gaps: seq<string>)
    requires t.q <= t.eq <= |s| && LegalLexemes(ts) && |gaps| == |ts| + 1 && s[t.eq..] == Lay(ts, gaps)
    requires x == LexemeOf(s, t) && (x.Word? <==> t.kind == 'a') && (t.kind == 'a' ==> !WordChar(At(s, t.eq)))
    requires t.kind == '>' ==> At(s, t.eq) != '>'
    ensures ts != [] && Touching(x, ts[0]) ==> gaps[0] != ""
  {
    if ts != [] && Touching(x, ts[0]) && gaps[0] == "" {
      assert LegalLexeme(ts[0]);
      assert s[t.eq] == s[t.eq..][0] == Spell(ts[0])[0];
      CharClasses(s[t.eq]);
    }
  }
}
