/** The matcher of grep.c against the language its patterns denote. */
module Regexp {

  /** A symbol: a literal character, or '.' for any. */
  predicate Fits(a: char, c: char) { a == '.' || a == c }

  datatype Regex = Eps | Sym(a: char) | Star(a: char) | Cat(left: Regex, right: Regex)

  ghost predicate L(r: Regex, s: string) {
    match r
    case Eps => s == ""
    case Sym(a) => |s| == 1 && Fits(a, s[0])
    case Star(a) => forall i :: 0 <= i < |s| ==> Fits(a, s[i])
    case Cat(x, y) => exists k :: 0 <= k <= |s| && L(x, s[..k]) && L(y, s[k..])
  }

  /** The pattern after an optional '^', read left to right: x* is a star whatever
      x is, '$' is an anchor only in last place, everything else is a symbol. */
  function Parse(re: string): Regex {
    if re == "" || re == "$" then Eps
    else if |re| >= 2 && re[1] == '*' then Cat(Star(re[0]), Parse(re[2..]))
    else Cat(Sym(re[0]), Parse(re[1..]))
  }

  /** Does the pattern end in an anchoring '$'? */
  predicate AtEnd(re: string) {
    if re == "" then false
    else if re == "$" then true
    else if |re| >= 2 && re[1] == '*' then AtEnd(re[2..])
    else AtEnd(re[1..])
  }

  /** The first k characters of text match. */
  ghost predicate MatchesTo(re: string, text: string, k: int) {
    0 <= k <= |text| && L(Parse(re), text[..k]) && (AtEnd(re) ==> k == |text|)
  }

  /** Some prefix of text matches. */
  ghost predicate Prefix(re: string, text: string) {
    exists k :: MatchesTo(re, text, k)
  }

  predicate AtStart(re: string) { re != "" && re[0] == '^' }

  function Body(re: string): string { if AtStart(re) then re[1..] else re }

  ghost predicate Substring(re: string, text: string, i: int, j: int) {
    && 0 <= i <= j <= |text| && L(Parse(Body(re)), text[i..j])
    && (AtStart(re) ==> i == 0) && (AtEnd(Body(re)) ==> j == |text|)
  }

  /** What grep promises: a substring of the line is in the language, starting at
      the beginning after '^' and reaching the end before a final '$'. */
  ghost predicate Found(re: string, text: string) {
    exists i, j :: Substring(re, text, i, j)
  }

  lemma {:induction false} FoundAt(re: string, text: string, i: int)
    requires 0 <= i <= |text| && (AtStart(re) ==> i == 0)
    ensures Prefix(Body(re), text[i..]) <==> exists j :: Substring(re, text, i, j)
  {
    if Prefix(Body(re), text[i..]) {
      var k :| MatchesTo(Body(re), text[i..], k);
      assert text[i..][..k] == text[i..i+k];
      assert Substring(re, text, i, i+k);
    }
    if j :| Substring(re, text, i, j) {
      assert text[i..][..j-i] == text[i..j];
      assert MatchesTo(Body(re), text[i..], j-i);
    }
  }

  lemma {:induction false} EmptyPattern(text: string)
    ensures Prefix("", text)
  {
    assert MatchesTo("", text, 0);
  }

  lemma {:induction false} Dollar(text: string)
    ensures Prefix("$", text) <==> text == ""
  {
    if text == "" { assert MatchesTo("$", text, 0); }
  }

  lemma {:induction false} SymbolFirst(re: string, text: string)
    requires re != "" && re != "$" && !(|re| >= 2 && re[1] == '*')
    ensures Prefix(re, text) <==> text != "" && Fits(re[0], text[0]) && Prefix(re[1..], text[1..])
  {
    if Prefix(re, text) {
      var k :| MatchesTo(re, text, k);
      var s := text[..k];
      var j :| 0 <= j <= |s| && L(Sym(re[0]), s[..j]) && L(Parse(re[1..]), s[j..]);
      assert text[1..][..k-1] == s[1..];
      assert MatchesTo(re[1..], text[1..], k-1);
    }
    if text != "" && Fits(re[0], text[0]) && Prefix(re[1..], text[1..]) {
      var k :| MatchesTo(re[1..], text[1..], k);
      var s := text[..k+1];
      assert s[1..] == text[1..][..k];
      assert L(Sym(re[0]), s[..1]) && L(Parse(re[1..]), s[1..]);
      assert MatchesTo(re, text, k+1);
    }
  }

  ghost predicate StarTo(a: char, re: string, text: string, m: int) {
    0 <= m <= |text| && L(Star(a), text[..m]) && Prefix(re, text[m..])
  }

  lemma {:induction false} StarFirst(re: string, text: string)
    requires |re| >= 2 && re[1] == '*'
    ensures Prefix(re, text) <==> exists m :: StarTo(re[0], re[2..], text, m)
  {
    if Prefix(re, text) {
      var k :| MatchesTo(re, text, k);
      var s := text[..k];
      var j :| 0 <= j <= |s| && L(Star(re[0]), s[..j]) && L(Parse(re[2..]), s[j..]);
      assert s[..j] == text[..j];
      assert text[j..][..k-j] == s[j..];
      assert MatchesTo(re[2..], text[j..], k-j);
      assert StarTo(re[0], re[2..], text, j);
    }
    if m :| StarTo(re[0], re[2..], text, m) {
      var k :| MatchesTo(re[2..], text[m..], k);
      var s := text[..m+k];
      assert s[..m] == text[..m];
      assert s[m..] == text[m..][..k];
      assert MatchesTo(re, text, m+k);
    }
  }

  /** match: search for re anywhere in text. */
  method Match(re: string, text: string) returns (r: bool)
    ensures r <==> Found(re, text)
  {
    if |re| > 0 && re[0] == '^' {
      r := MatchHere(re[1..], text);
      assert text[0..] == text;
      FoundAt(re, text, 0);
      return;
    }
    var i := 0;
    while true
      invariant 0 <= i <= |text|
      invariant forall k, j :: 0 <= k < i ==> !Substring(re, text, k, j)
      decreases |text| - i
    {
      r := MatchHere(re, text[i..]);
      FoundAt(re, text, i);
      if r || i == |text| {
        return;
      }
      i := i + 1;
    }
  }

  /** matchhere: search for re at the beginning of text. */
  method MatchHere(re: string, text: string) returns (r: bool)
    ensures r <==> Prefix(re, text)
    decreases |re|, 0
  {
    if re == "" {
      EmptyPattern(text);
      return true;
    }
    if |re| >= 2 && re[1] == '*' {
      StarFirst(re, text);
      r := MatchStar(re[0], re[2..], text);
      return;
    }
    if re[0] == '$' && |re| == 1 {
      assert re == "$";
      Dollar(text);
      return text == "";
    }
    SymbolFirst(re, text);
    if text != "" && (re[0] == '.' || re[0] == text[0]) {
      r := MatchHere(re[1..], text[1..]);
      return;
    }
    return false;
  }

  /** matchstar: search for c*re at the beginning of text. */
  method MatchStar(c: char, re: string, text: string) returns (r: bool)
    ensures r <==> exists m :: StarTo(c, re, text, m)
    decreases |re|, 1
  {
    var i := 0;
    while true
      invariant 0 <= i <= |text| && L(Star(c), text[..i])
      invariant forall m :: 0 <= m < i ==> !StarTo(c, re, text, m)
      decreases |text| - i
    {
      r := MatchHere(re, text[i..]);
      if r {
        assert StarTo(c, re, text, i);
        return;
      }
      if !(i < |text| && (text[i] == c || c == '.')) {
        assert forall m :: i < m <= |text| ==> !Fits(c, text[..m][i]);
        return;
      }
      i := i + 1;
    }
  }
}
