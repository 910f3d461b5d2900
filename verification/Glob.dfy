/**
 * The glob language of ACL paths: `*` stays inside a path segment, `**` crosses `/`.
 * The translation emits three kinds of regular-expression pieces; their language is modelled
 * as Python's `re` defines it (`.` matches no newline, `$` also matches before a final newline).
 */
module Glob {

  datatype Token = Lit(c: char) | Star | DoubleStar

  /** The piece sequence, read off the front of the pattern. */
  function Tokens(pattern: string): seq<Token> {
    if pattern == "" then []
    else if |pattern| >= 2 && pattern[..2] == "**" then [DoubleStar] + Tokens(pattern[2..])
    else if pattern[0] == '*' then [Star] + Tokens(pattern[1..])
    else [Lit(pattern[0])] + Tokens(pattern[1..])
  }

  predicate StarsAt(pattern: string, i: nat) {
    i + 2 <= |pattern| && pattern[i..i + 2] == "**"
  }

  /** The piece at position `i` and the position after it. */
  lemma PieceAt(pattern: string, i: nat, parts: seq<Token>)
    requires i < |pattern|
    ensures StarsAt(pattern, i) ==> parts + Tokens(pattern[i..]) == (parts + [DoubleStar]) + Tokens(pattern[i + 2..])
    ensures !StarsAt(pattern, i) ==>
              parts + Tokens(pattern[i..])
              == (parts + [if pattern[i] == '*' then Star else Lit(pattern[i])]) + Tokens(pattern[i + 1..])
  {
    var rest := pattern[i..];
    assert rest[1..] == pattern[i + 1..];
    if |rest| >= 2 {
      assert rest[..2] == pattern[i..i + 2] && rest[2..] == pattern[i + 2..];
    }
  }

  /** The loop of the translation: position `i` advances, `parts` grows. */
  method GlobToRegex(pattern: string) returns (parts: seq<Token>)
    ensures parts == Tokens(pattern)
  {
    parts := [];
    var i := 0;
    assert pattern[0..] == pattern;
    while i < |pattern|
      invariant 0 <= i <= |pattern|
      invariant parts + Tokens(pattern[i..]) == Tokens(pattern)
    {
      PieceAt(pattern, i, parts);
      if StarsAt(pattern, i) {
        parts := parts + [DoubleStar];
        i := i + 2;
      } else if pattern[i] == '*' {
        parts := parts + [Star];
        i := i + 1;
      } else {
        parts := parts + [Lit(pattern[i])];
        i := i + 1;
      }
    }
  }

  /** The texts one piece matches: `re.escape(c)`, `[^/]*`, `.*`. */
  predicate Fits(t: Token, s: string) {
    match t
    case Lit(c) => s == [c]
    case Star => '/' !in s
    case DoubleStar => '\n' !in s
  }

  /** Concatenation of the pieces' languages. */
  predicate Accepts(ts: seq<Token>, s: string) {
    if ts == [] then s == ""
    else exists i :: 0 <= i <= |s| && Fits(ts[0], s[..i]) && Accepts(ts[1..], s[i..])
  }

  /** `re.compile("^" + ... + "$").match(path)`. */
  predicate Matches(ts: seq<Token>, path: string) {
    Accepts(ts, path) || (path != "" && path[|path| - 1] == '\n' && Accepts(ts, path[..|path| - 1]))
  }

  lemma AcceptsCons(t: Token, ts: seq<Token>, s: string, i: nat)
    requires i <= |s| && Fits(t, s[..i]) && Accepts(ts, s[i..])
    ensures Accepts([t] + ts, s)
  {
    assert ([t] + ts)[1..] == ts;
  }

  lemma AcceptsUncons(t: Token, ts: seq<Token>, s: string) returns (i: nat)
    requires Accepts([t] + ts, s)
    ensures i <= |s| && Fits(t, s[..i]) && Accepts(ts, s[i..])
  {
    assert ([t] + ts)[1..] == ts;
    i :| 0 <= i <= |s| && Fits(t, s[..i]) && Accepts(ts, s[i..]);
  }

  // ---- The language, said without the matcher ---------------------------------

  function Flatten(parts: seq<string>): string {
    if parts == [] then "" else parts[0] + Flatten(parts[1..])
  }

  /** `s` is cut into one part per piece, and each part is a text of its piece. */
  ghost predicate Splits(ts: seq<Token>, parts: seq<string>, s: string) {
    |parts| == |ts| && Flatten(parts) == s && forall k :: 0 <= k < |ts| ==> Fits(ts[k], parts[k])
  }

  lemma {:induction false} AcceptedSplits(ts: seq<Token>, s: string) returns (parts: seq<string>)
    requires Accepts(ts, s)
    ensures Splits(ts, parts, s)
  {
    if ts == [] {
      parts := [];
    } else {
      var i :| 0 <= i <= |s| && Fits(ts[0], s[..i]) && Accepts(ts[1..], s[i..]);
      var rest := AcceptedSplits(ts[1..], s[i..]);
      parts := [s[..i]] + rest;
      assert parts[1..] == rest;
      assert s == s[..i] + s[i..];
      forall k | 0 <= k < |ts| ensures Fits(ts[k], parts[k]) {
        if k > 0 { assert ts[k] == ts[1..][k - 1] && parts[k] == rest[k - 1]; }
      }
    }
  }

  lemma {:induction false} SplitsAccepted(ts: seq<Token>, parts: seq<string>, s: string)
    requires Splits(ts, parts, s)
    ensures Accepts(ts, s)
  {
    if ts != [] {
      var i := |parts[0]|;
      assert s[..i] == parts[0] && s[i..] == Flatten(parts[1..]);
      forall k | 0 <= k < |ts[1..]| ensures Fits(ts[1..][k], parts[1..][k]) {
        assert Fits(ts[k + 1], parts[k + 1]);
      }
      SplitsAccepted(ts[1..], parts[1..], s[i..]);
    }
  }

  /** A pattern accepts exactly the texts that split into its literals, slash-free and arbitrary parts. */
  lemma TranslationIsExact(pattern: string, s: string)
    ensures Accepts(Tokens(pattern), s) <==> exists parts :: Splits(Tokens(pattern), parts, s)
  {
    if Accepts(Tokens(pattern), s) {
      var parts := AcceptedSplits(Tokens(pattern), s);
    }
    forall parts | Splits(Tokens(pattern), parts, s) ensures Accepts(Tokens(pattern), s) {
      SplitsAccepted(Tokens(pattern), parts, s);
    }
  }

  // ---- Runs of stars -----------------------------------------------------------

  predicate OneLine(s: string) { '\n' !in s }

  lemma DoubleStarAbsorbs(t: Token, ts: seq<Token>, s: string)
    requires t == Star || t == DoubleStar
    requires OneLine(s)
    ensures Accepts([DoubleStar, t] + ts, s) <==> Accepts([DoubleStar] + ts, s)
  {
    if Accepts([DoubleStar, t] + ts, s) {
      assert [DoubleStar, t] + ts == [DoubleStar] + ([t] + ts);
      var i := AcceptsUncons(DoubleStar, [t] + ts, s);
      var j := AcceptsUncons(t, ts, s[i..]);
      assert s[i..][j..] == s[i + j..];
      AcceptsCons(DoubleStar, ts, s, i + j);
    }
    if Accepts([DoubleStar] + ts, s) {
      var i := AcceptsUncons(DoubleStar, ts, s);
      assert s[i..][..0] == "" && s[i..][0..] == s[i..];
      AcceptsCons(t, ts, s[i..], 0);
      AcceptsCons(DoubleStar, [t] + ts, s, i);
      assert [DoubleStar, t] + ts == [DoubleStar] + ([t] + ts);
    }
  }

  lemma TokensOfStarThenLiteral(r: string)
    requires r == "" || r[0] != '*'
    ensures Tokens("*" + r) == [Star] + Tokens(r)
  {
    assert ("*" + r)[1..] == r;
    if r != "" { assert ("*" + r)[1] == r[0]; }
  }

  lemma TokensOfDoubleStar(r: string)
    ensures Tokens("**" + r) == [DoubleStar] + Tokens(r)
  {
    assert ("**" + r)[..2] == "**" && ("**" + r)[2..] == r;
  }

  lemma {:induction false} ExtraStarIsAbsorbed(r: string, s: string)
    requires OneLine(s)
    ensures Accepts([DoubleStar] + Tokens("*" + r), s) <==> Accepts([DoubleStar] + Tokens(r), s)
  {
    if r == "" || r[0] != '*' {
      TokensOfStarThenLiteral(r);
      assert [DoubleStar] + ([Star] + Tokens(r)) == [DoubleStar, Star] + Tokens(r);
      DoubleStarAbsorbs(Star, Tokens(r), s);
    } else {
      var r' := r[1..];
      assert r == "*" + r' && "*" + r == "**" + r';
      TokensOfDoubleStar(r');
      assert [DoubleStar] + ([DoubleStar] + Tokens(r')) == [DoubleStar, DoubleStar] + Tokens(r');
      DoubleStarAbsorbs(DoubleStar, Tokens(r'), s);
      ExtraStarIsAbsorbed(r', s);
    }
  }

  /** Every run of two or more stars shortened to `**`. */
  function Collapse(pattern: string): string {
    if |pattern| >= 3 && pattern[..3] == "***" then Collapse(pattern[1..])
    else if pattern == "" then ""
    else [pattern[0]] + Collapse(pattern[1..])
  }

  lemma {:induction false} CollapseKeepsHead(pattern: string)
    ensures pattern == "" <==> Collapse(pattern) == ""
    ensures pattern != "" ==> Collapse(pattern)[0] == pattern[0]
  {
    if |pattern| >= 3 && pattern[..3] == "***" {
      assert pattern[0] == pattern[..3][0] && pattern[1] == pattern[..3][1];
      CollapseKeepsHead(pattern[1..]);
    }
  }

  lemma Congruence(t: Token, a: seq<Token>, b: seq<Token>, s: string)
    requires forall i :: 0 <= i <= |s| ==> (Accepts(a, s[i..]) <==> Accepts(b, s[i..]))
    ensures Accepts([t] + a, s) <==> Accepts([t] + b, s)
  {
    if Accepts([t] + a, s) {
      var i := AcceptsUncons(t, a, s);
      AcceptsCons(t, b, s, i);
    }
    if Accepts([t] + b, s) {
      var i := AcceptsUncons(t, b, s);
      AcceptsCons(t, a, s, i);
    }
  }

  lemma ThreeStars(pattern: string, s: string)
    requires OneLine(s) && |pattern| >= 3 && pattern[..3] == "***"
    ensures Accepts(Tokens(pattern), s) <==> Accepts(Tokens(pattern[1..]), s)
  {
    var r := pattern[3..];
    assert pattern == "**" + ("*" + r);
    assert pattern[1..] == "**" + r;
    TokensOfDoubleStar("*" + r);
    TokensOfDoubleStar(r);
    ExtraStarIsAbsorbed(r, s);
  }

  /** First piece of a pattern with no run of three stars in front, and the same for the collapsed pattern. */
  lemma CollapseHead(pattern: string) returns (t: Token, r: string)
    requires pattern != "" && !(|pattern| >= 3 && pattern[..3] == "***")
    ensures |r| < |pattern|
    ensures r == pattern[|pattern| - |r|..]
    ensures Tokens(pattern) == [t] + Tokens(r)
    ensures Tokens(Collapse(pattern)) == [t] + Tokens(Collapse(r))
  {
    if |pattern| >= 2 && pattern[..2] == "**" {
      t, r := DoubleStar, pattern[2..];
      assert pattern[0] == pattern[..2][0] && pattern[1] == pattern[..2][1];
      assert pattern[1..][1..] == r && pattern[1..][0] == '*';
      assert |pattern| >= 3 ==> pattern[..3] == "**" + [pattern[2]];
      assert |pattern| >= 4 ==> pattern[1..][..3][1] == pattern[2];
      assert Collapse(pattern[1..]) == "*" + Collapse(r);
      assert Collapse(pattern) == "*" + ("*" + Collapse(r)) == "**" + Collapse(r);
      TokensOfDoubleStar(Collapse(r));
    } else {
      r := pattern[1..];
      CollapseKeepsHead(r);
      var c := Collapse(pattern);
      assert c == [pattern[0]] + Collapse(r) && c[1..] == Collapse(r);
      if pattern[0] == '*' {
        t := Star;
        if r != "" { assert pattern[..2] == [pattern[0], r[0]]; }
        TokensOfStarThenLiteral(Collapse(r));
      } else {
        t := Lit(pattern[0]);
        assert |c| >= 2 ==> c[..2][0] == pattern[0];
      }
    }
  }

  /** Any run of two or more stars means the same as `**`. */
  lemma {:induction false} CollapseKeepsLanguage(pattern: string, s: string)
    requires OneLine(s)
    ensures Accepts(Tokens(pattern), s) <==> Accepts(Tokens(Collapse(pattern)), s)
    decreases |pattern|
  {
    if |pattern| >= 3 && pattern[..3] == "***" {
      ThreeStars(pattern, s);
      CollapseKeepsLanguage(pattern[1..], s);
    } else if pattern != "" {
      var t, r := CollapseHead(pattern);
      forall i | 0 <= i <= |s|
        ensures Accepts(Tokens(r), s[i..]) <==> Accepts(Tokens(Collapse(r)), s[i..])
      {
        CollapseKeepsLanguage(r, s[i..]);
      }
      Congruence(t, Tokens(r), Tokens(Collapse(r)), s);
    }
  }

  // ---- Slashes ------------------------------------------------------------------

  function Slashes(s: string): nat { multiset(s)['/'] }

  lemma SlashesConcat(a: string, b: string)
    ensures Slashes(a + b) == Slashes(a) + Slashes(b)
  {}

  lemma NoSlash(s: string)
    requires '/' !in s
    ensures Slashes(s) == 0
  {
    assert '/' !in multiset(s);
  }

  predicate HasDoubleStar(pattern: string) {
    exists i :: 0 <= i < |pattern| - 1 && pattern[i] == '*' && pattern[i + 1] == '*'
  }

  lemma DoubleStarInRest(pattern: string)
    requires pattern != "" && HasDoubleStar(pattern[1..])
    ensures HasDoubleStar(pattern)
  {
    var rest := pattern[1..];
    var k :| 0 <= k < |rest| - 1 && rest[k] == '*' && rest[k + 1] == '*';
    assert pattern[k + 1] == '*' && pattern[k + 2] == '*';
  }

  function FirstToken(c: char): Token { if c == '*' then Star else Lit(c) }

  lemma SingleStarsByCharacter(pattern: string)
    requires pattern != "" && !HasDoubleStar(pattern)
    ensures Tokens(pattern) == [FirstToken(pattern[0])] + Tokens(pattern[1..]) && !HasDoubleStar(pattern[1..])
  {
    if |pattern| >= 2 { assert pattern[..2] == [pattern[0], pattern[1]]; }
    if HasDoubleStar(pattern[1..]) { DoubleStarInRest(pattern); }
  }

  lemma FirstTokenKeepsSlashes(c: char, m: string)
    requires Fits(FirstToken(c), m)
    ensures Slashes(m) == Slashes([c])
  {
    if c == '*' {
      NoSlash(m);
      NoSlash([c]);
    }
  }

  /** Without `**` a glob only accepts texts at the pattern's own depth. */
  lemma {:induction false} SingleStarsKeepDepth(pattern: string, s: string)
    requires !HasDoubleStar(pattern) && Accepts(Tokens(pattern), s)
    ensures Slashes(s) == Slashes(pattern)
    decreases |pattern|
  {
    hide Slashes, HasDoubleStar, Fits, FirstToken;
    if pattern != "" {
      var t, rest := FirstToken(pattern[0]), pattern[1..];
      SingleStarsByCharacter(pattern);
      hide Accepts, Tokens;
      var i := AcceptsUncons(t, Tokens(rest), s);
      SingleStarsKeepDepth(rest, s[i..]);
      FirstTokenKeepsSlashes(pattern[0], s[..i]);
      SlashesConcat(s[..i], s[i..]);
      SlashesConcat([pattern[0]], rest);
      assert s == s[..i] + s[i..] && pattern == [pattern[0]] + rest;
    }
  }
}
