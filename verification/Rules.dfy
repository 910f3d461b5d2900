/** What rules say, in terms of their own fields: the laws a reader of an ACL file can rely on. */
module Rules {
  import opened Base
  import opened Glob
  import opened Selection
  import opened Acl

  // ---- Patterns -----------------------------------------------------------------------------------

  predicate AllSlashes(s: string) { forall c :: c in s ==> c == '/' }

  lemma {:induction false} StripIsExact(slashes: string, plain: string)
    requires AllSlashes(slashes) && (plain == "" || plain[0] != '/')
    ensures StripSlashes(slashes + plain) == plain
  {
    if slashes == "" {
      assert slashes + plain == plain;
    } else {
      assert slashes[0] in slashes && (slashes + plain)[1..] == slashes[1..] + plain;
      assert forall c :: c in slashes[1..] ==> c in slashes;
      StripIsExact(slashes[1..], plain);
    }
  }

  lemma {:induction false} LeadingSlashes(p: string) returns (slashes: string, plain: string)
    ensures p == slashes + plain && AllSlashes(slashes) && (plain == "" || plain[0] != '/')
  {
    if p != "" && p[0] == '/' {
      var rest;
      rest, plain := LeadingSlashes(p[1..]);
      slashes := "/" + rest;
      assert p == "/" + p[1..];
    } else {
      slashes, plain := "", p;
    }
  }

  ghost predicate SplitsInto(pattern: string, s: string) {
    exists parts :: Splits(Tokens(pattern), parts, s)
  }

  /** The path, or the path without a final newline, splits into the pieces of the pattern. */
  ghost predicate Follows(pattern: string, path: string) {
    SplitsInto(pattern, path) || (path != "" && path[|path| - 1] == '\n' && SplitsInto(pattern, path[..|path| - 1]))
  }

  /** After leading slashes comes the start of the path or, with stars, a pattern the path splits into. */
  ghost predicate Reaches(pattern: string, path: string) {
    exists slashes, plain ::
      pattern == slashes + plain && AllSlashes(slashes) && (plain == "" || plain[0] != '/') &&
      if '*' in plain then Follows(plain, path) else plain <= path
  }

  lemma ReachesIsMatching(pattern: string, path: string)
    ensures PathMatches(Some(pattern), path) <==> Reaches(pattern, path)
  {
    hide Splits;
    forall slashes, plain | pattern == slashes + plain && AllSlashes(slashes) && (plain == "" || plain[0] != '/')
      ensures StripSlashes(pattern) == plain
    {
      StripIsExact(slashes, plain);
    }
    var slashes, plain := LeadingSlashes(pattern);
    TranslationIsExact(plain, path);
    if path != "" { TranslationIsExact(plain, path[..|path| - 1]); }
    assert Matches(Tokens(plain), path) <==> Follows(plain, path);
    assert pattern == slashes + plain;
  }

  /** A single star stands for a slash-free text, a double one for any text on one line. */
  lemma StarsMean(x: string, y: string, s: string)
    requires '*' !in x && '*' !in y
    ensures Accepts(Tokens(x + "*" + y), s) <==> exists m :: s == x + m + y && '/' !in m
    ensures Accepts(Tokens(x + "**" + y), s) <==> exists m :: s == x + m + y && '\n' !in m
  {
    TokensAfterText(x, "*" + y);
    TokensAfterText(x, "**" + y);
    assert x + "*" + y == x + ("*" + y) && x + "**" + y == x + ("**" + y);
    TokensOfStar(y);
    TokensOfDoubleStar(y);
    TextStarText(x, y, Star, s);
    TextStarText(x, y, DoubleStar, s);
  }

  lemma TokensOfStar(y: string)
    requires '*' !in y
    ensures Tokens("*" + y) == [Star] + Tokens(y)
  {
    assert ("*" + y)[1..] == y;
    if y != "" { assert ("*" + y)[1] == y[0] && y[0] in y; }
  }

  /** The pieces of a star-free text are its characters. */
  function LiteralsOf(x: string): (ts: seq<Token>)
    ensures |ts| == |x| && forall i :: 0 <= i < |x| ==> ts[i] == Lit(x[i])
  {
    seq(|x|, i requires 0 <= i < |x| => Lit(x[i]))
  }

  lemma {:induction false} TokensAfterText(x: string, rest: string)
    requires '*' !in x
    ensures Tokens(x + rest) == LiteralsOf(x) + Tokens(rest)
  {
    if x == "" {
      assert x + rest == rest && LiteralsOf(x) == [];
    } else {
      var p := x + rest;
      assert x[0] in x && p[0] == x[0] && p[1..] == x[1..] + rest;
      assert |p| >= 2 ==> p[..2][0] == x[0];
      assert forall c :: c in x[1..] ==> c in x;
      TokensAfterText(x[1..], rest);
      assert LiteralsOf(x) == [Lit(x[0])] + LiteralsOf(x[1..]);
    }
  }

  lemma {:induction false} AcceptsText(x: string, ts: seq<Token>, s: string)
    ensures Accepts(LiteralsOf(x) + ts, s) <==> x <= s && Accepts(ts, s[|x|..])
  {
    hide Accepts;
    if x == "" {
      assert LiteralsOf(x) + ts == ts && s[0..] == s;
    } else {
      var rest := LiteralsOf(x[1..]) + ts;
      assert LiteralsOf(x) + ts == [Lit(x[0])] + rest;
      LiteralStep(x[0], rest, s);
      if s != "" && s[0] == x[0] {
        AcceptsText(x[1..], ts, s[1..]);
        assert x == [x[0]] + x[1..] && s == [s[0]] + s[1..];
        assert |x| <= |s| ==> s[1..][|x| - 1..] == s[|x|..];
      }
    }
  }

  lemma TextStarText(x: string, y: string, t: Token, s: string)
    requires '*' !in y
    ensures Accepts(LiteralsOf(x) + ([t] + Tokens(y)), s) <==> exists m :: s == x + m + y && Fits(t, m)
  {
    hide Accepts, Fits, Tokens;
    var ts := [t] + Tokens(y);
    AcceptsText(x, ts, s);
    if x <= s && Accepts(ts, s[|x|..]) {
      var i := AcceptsUncons(t, Tokens(y), s[|x|..]);
      OnlyItself(y, s[|x|..][i..]);
      var m := s[|x|..][..i];
      assert s == x + m + y;
    }
    forall m | s == x + m + y && Fits(t, m) ensures x <= s && Accepts(ts, s[|x|..]) {
      assert s[|x|..] == m + y && (m + y)[..|m|] == m && (m + y)[|m|..] == y;
      OnlyItself(y, y);
      AcceptsCons(t, Tokens(y), m + y, |m|);
    }
  }

  lemma OnlyItself(y: string, s: string)
    requires '*' !in y
    ensures Accepts(Tokens(y), s) <==> s == y
  {
    hide Accepts;
    TokensAfterText(y, "");
    assert y + "" == y && Tokens("") == [] && Tokens(y) == LiteralsOf(y) + [];
    AcceptsText(y, [], s);
    if y <= s {
      AcceptsNothing(s[|y|..]);
      assert s == y + s[|y|..];
    }
  }

  lemma AcceptsNothing(s: string)
    ensures Accepts([], s) <==> s == ""
  {}

  // ---- Weights --------------------------------------------------------------------------------------

  /** The characters of the pattern that are no star; a rule without pattern weighs nothing. */
  ghost function Weight(r: AclRule): int {
    if r.pathPrefix.None? then 0 else |r.pathPrefix.value| - multiset(r.pathPrefix.value)['*']
  }

  lemma {:induction false} LiteralsAreCounted(p: string)
    ensures Literals(p) == |p| - multiset(p)['*']
  {
    if p != "" {
      assert p == [p[0]] + p[1..];
      LiteralsAreCounted(p[1..]);
    }
  }

  lemma ScoreIsWeight(r: AclRule)
    ensures Score(r) == Weight(r)
  {
    if r.pathPrefix.Some? { LiteralsAreCounted(r.pathPrefix.value); }
  }

  // ---- Which rules apply -------------------------------------------------------------------------------

  function Said(r: AclRule, ask: Ask): Option<Permission> {
    if ask.field == Read then r.read else r.write
  }

  /** The rule says something about what is asked, and everything it names is the request's. */
  ghost predicate Concerns(r: AclRule, ask: Ask) {
    && Said(r, ask) != None
    && (r.userId == None || r.userId == Some(ask.principal.userId))
    && (r.clientId == None || r.clientId == Some(ask.principal.clientId))
    && (r.kind == None || r.kind == Some(ask.kind))
    && (r.pathPrefix == None || Reaches(r.pathPrefix.value, ask.path))
  }

  lemma ConcernsIsCandidate(r: AclRule, ask: Ask)
    ensures Candidate(r, ask) <==> Concerns(r, ask)
  {
    hide Reaches;
    if r.pathPrefix.Some? { ReachesIsMatching(r.pathPrefix.value, ask.path); }
  }

  /** Both rules name a user or both do not, and the same for the client. */
  predicate SameScope(a: AclRule, b: AclRule) {
    a.userId.Some? == b.userId.Some? && a.clientId.Some? == b.clientId.Some?
  }

  /** A rule for another user, client or kind, or for another start of the path, or silent on what is asked, is idle. */
  lemma RuleForOthersIsIdle(before: seq<AclRule>, r: AclRule, after: seq<AclRule>, ask: Ask, slashes: string,
                            plain: string)
    requires AllSlashes(slashes) && (plain == "" || plain[0] != '/') && '*' !in plain
    requires || (r.userId.Some? && r.userId.value != ask.principal.userId)
             || (r.clientId.Some? && r.clientId.value != ask.principal.clientId)
             || (r.kind.Some? && r.kind.value != ask.kind)
             || (r.pathPrefix == Some(slashes + plain) && !(plain <= ask.path))
             || (if ask.field == Read then r.read else r.write) == None
    ensures Allowed(Some(before + [r] + after), ask) <==> Allowed(Some(before + after), ask)
  {
    hide Allowed;
    StripIsExact(slashes, plain);
    assert !Candidate(r, ask);
    IdleRuleCanBeDeleted(before, r, after, ask);
  }

  /** The same for a pattern with stars that the path does not split into. */
  lemma RuleForOtherGlobsIsIdle(before: seq<AclRule>, r: AclRule, after: seq<AclRule>, ask: Ask)
    requires r.pathPrefix.Some? && !Reaches(r.pathPrefix.value, ask.path)
    ensures Allowed(Some(before + [r] + after), ask) <==> Allowed(Some(before + after), ask)
  {
    hide Allowed, Reaches;
    ReachesIsMatching(r.pathPrefix.value, ask.path);
    assert !Candidate(r, ask);
    IdleRuleCanBeDeleted(before, r, after, ask);
  }

  /** A lone rule whose fields are the request's, and whose prefix starts the path, decides. */
  lemma LoneRuleDecides(r: AclRule, ask: Ask, slashes: string, plain: string)
    requires AllSlashes(slashes) && (plain == "" || plain[0] != '/') && '*' !in plain && plain <= ask.path
    requires r.userId == None || r.userId == Some(ask.principal.userId)
    requires r.clientId == None || r.clientId == Some(ask.principal.clientId)
    requires r.kind == None || r.kind == Some(ask.kind)
    requires r.pathPrefix == None || r.pathPrefix == Some(slashes + plain)
    requires (if ask.field == Read then r.read else r.write) != None
    ensures Allowed(Some([r]), ask) <==> (if ask.field == Read then r.read else r.write) == Some(Allow)
  {
    hide Allowed;
    StripIsExact(slashes, plain);
    ConcernsIsCandidate(r, ask);
    LoneConcernDecides(r, ask);
  }

  lemma LoneConcernDecides(r: AclRule, ask: Ask)
    requires Concerns(r, ask)
    ensures Allowed(Some([r]), ask) <==> Said(r, ask) == Some(Allow)
  {
    hide Allowed, Reaches, Score, RuleMatches;
    ConcernsIsCandidate(r, ask);
    OneOfThree(Said(r, ask));
    if Said(r, ask) == Some(Deny) {
      DenyDecides([r], ask, 0);
    } else {
      AllowedByAll([r], ask, 0);
    }
  }

  /** What every applying rule allows is allowed, if one applies. */
  lemma AllowedByAll(rules: seq<AclRule>, ask: Ask, i: nat)
    requires i < |rules| && Concerns(rules[i], ask)
    requires forall j :: 0 <= j < |rules| && Concerns(rules[j], ask) ==> Said(rules[j], ask) == Some(Allow)
    ensures Allowed(Some(rules), ask)
  {
    hide Allowed, Concerns, Score, Candidate;
    EngineFollowsAccessRule(Some(rules), ask);
    forall j | 0 <= j < |rules| ensures Candidate(rules[j], ask) <==> Concerns(rules[j], ask) {
      ConcernsIsCandidate(rules[j], ask);
    }
    assert Candidate(rules[i], ask);
  }

  /** No rule applies: nothing is allowed, except on a tree without an ACL file. */
  lemma NothingSaidMeansNo(rules: seq<AclRule>, ask: Ask)
    requires forall j :: 0 <= j < |rules| ==> !Concerns(rules[j], ask)
    ensures !Allowed(Some(rules), ask) && Allowed(None, ask)
  {
    hide Allowed, Concerns, Candidate;
    EngineFollowsAccessRule(Some(rules), ask);
    EngineFollowsAccessRule(None, ask);
    forall j | 0 <= j < |rules| ensures !Candidate(rules[j], ask) { ConcernsIsCandidate(rules[j], ask); }
  }

  /** No rule of this list that passes the test allows what rule i denies at its weight or more. */
  ghost predicate NotOverruled(rules: seq<AclRule>, ask: Ask, i: nat, rival: AclRule -> bool)
    requires i < |rules|
  {
    forall j :: 0 <= j < |rules| && rival(rules[j]) && Concerns(rules[j], ask) && Said(rules[j], ask) == Some(Allow) ==>
      Weight(rules[j]) < Weight(rules[i])
  }

  /**
   * An applying rule that denies decides against every allowing rule of its own scope that weighs less,
   * whatever rules of other scopes allow; only pair rules silence rules of the other scopes.
   */
  lemma DenyDecides(rules: seq<AclRule>, ask: Ask, i: nat)
    requires i < |rules| && Concerns(rules[i], ask) && Said(rules[i], ask) == Some(Deny)
    requires NotOverruled(rules, ask, i, (r: AclRule) => SameScope(r, rules[i]))
    requires (rules[i].userId.Some? && rules[i].clientId.Some?) ||
             forall j :: 0 <= j < |rules| && Concerns(rules[j], ask) ==>
               rules[j].userId.None? || rules[j].clientId.None?
    ensures !Allowed(Some(rules), ask)
  {
    hide Allowed, Concerns, Score, Candidate, Weight;
    EngineFollowsAccessRule(Some(rules), ask);
    var r := rules[i];
    var pot := if r.userId.Some? && r.clientId.Some? then Pair
               else if r.userId.Some? then User else if r.clientId.Some? then Client else Global;
    forall j | 0 <= j < |rules| ensures Candidate(rules[j], ask) <==> Concerns(rules[j], ask) {
      ConcernsIsCandidate(rules[j], ask);
    }
    DenyTops(rules, ask, i, pot);
  }

  /** The denying rule, or one of its weight that denies too, is the top of its pot. */
  lemma DenyTops(rules: seq<AclRule>, ask: Ask, i: nat, pot: Pot)
    requires i < |rules| && InPot(rules[i], ask, pot) && Perm(rules[i], ask.field) == Some(Deny)
    requires forall j :: 0 <= j < |rules| && InPot(rules[j], ask, pot) && Perm(rules[j], ask.field) == Some(Allow) ==>
               Weight(rules[j]) < Weight(rules[i])
    ensures Denies(rules, ask, pot) && Present(rules, ask, pot)
  {
    hide Weight, Score, InPot, Perm, TopRule;
    var t := TopOfPot(rules, ask, i, pot);
    ScoreIsWeight(rules[i]);
    ScoreIsWeight(rules[t]);
    if Perm(rules[t], ask.field) != Some(Deny) { OneOfThree(Perm(rules[t], ask.field)); }
  }

  lemma TopOfPot(rules: seq<AclRule>, ask: Ask, i: nat, pot: Pot) returns (t: nat)
    requires i < |rules| && InPot(rules[i], ask, pot)
    ensures t < |rules| && TopRule(rules, ask, pot, t) && Present(rules, ask, pot)
    ensures InPot(rules[t], ask, pot) && Score(rules[i]) <= Score(rules[t]) && Perm(rules[t], ask.field).Some?
  {
    hide Score, RuleMatches, Belongs;
    var keep := Chooser(ask, pot);
    assert Kept(rules, keep, i);
    var top := MaxIsTop(rules, keep, Score);
    assert AnyKept(rules, keep);
    TopRuleIsTop(rules, ask, pot, top);
    t := top;
  }

  /** A rule with a kind that denies decides against all allowing rules with a kind that weigh less, and all without. */
  lemma KindGateDenies(rules: seq<AclRule>, ask: Ask, i: nat)
    requires i < |rules| && rules[i].kind.Some? && Concerns(rules[i], ask) && Said(rules[i], ask) == Some(Deny)
    requires NotOverruled(rules, ask, i, (r: AclRule) => r.kind.Some?)
    ensures !Allowed(Some(rules), ask)
  {
    hide Allowed, Concerns, Score, Candidate, Weight;
    EngineFollowsAccessRule(Some(rules), ask);
    forall j | 0 <= j < |rules| ensures Candidate(rules[j], ask) <==> Concerns(rules[j], ask) {
      ConcernsIsCandidate(rules[j], ask);
    }
    DenyTops(rules, ask, i, KindGate);
  }

  /** An applying rule is idle beside one of its scope that weighs more, if it has no kind or the other has one too. */
  lemma OutweighedRuleIsIdle(before: seq<AclRule>, r: AclRule, after: seq<AclRule>, heavier: AclRule, ask: Ask)
    requires heavier in before + after && Concerns(heavier, ask) && SameScope(r, heavier)
    requires r.kind.Some? ==> heavier.kind.Some?
    requires Weight(heavier) > Weight(r)
    ensures Allowed(Some(before + [r] + after), ask) <==> Allowed(Some(before + after), ask)
  {
    hide Allowed, Concerns, Score, Candidate, Weight;
    ConcernsIsCandidate(heavier, ask);
    ScoreIsWeight(heavier);
    ScoreIsWeight(r);
    forall pot | InPot(r, ask, pot) ensures Dominated(r, before + after, ask, pot) {
      assert InPot(heavier, ask, pot);
    }
    IdleRuleCanBeDeleted(before, r, after, ask);
  }

  /** Of two applying rules of one scope the one with more characters besides stars decides, in either order. */
  lemma LongerPatternDecides(long: AclRule, short: AclRule, ask: Ask)
    requires Concerns(long, ask) && Concerns(short, ask) && SameScope(long, short)
    requires short.kind.Some? ==> long.kind.Some?
    requires Weight(long) > Weight(short)
    ensures Allowed(Some([long, short]), ask) <==> Said(long, ask) == Some(Allow)
    ensures Allowed(Some([short, long]), ask) <==> Said(long, ask) == Some(Allow)
  {
    hide Allowed, Concerns, Weight;
    assert [long] + [short] + [] == [long, short] && [long] + [] == [long];
    assert [] + [short] + [long] == [short, long] && [] + [long] == [long];
    OutweighedRuleIsIdle([long], short, [], long, ask);
    OutweighedRuleIsIdle([], short, [long], long, ask);
    LoneConcernDecides(long, ask);
  }

  lemma PrefixConcerns(p: string, a: Permission, ask: Ask)
    requires '*' !in p && p <= ask.path && (p == "" || p[0] != '/')
    ensures var r := AclRule(None, None, Some(p), None, Some(a), Some(a));
            Concerns(r, ask) && Said(r, ask) == Some(a) && Weight(r) == |p|
  {
    assert "" + p == p && AllSlashes("") && multiset(p)['*'] == 0;
    assert Reaches(p, ask.path);
  }

  /** Of two plain prefixes of the path, given without leading slashes, the longer decides. */
  lemma LongerPrefixDecides(p: string, q: string, a: Permission, b: Permission, ask: Ask)
    requires '*' !in p && '*' !in q && p <= ask.path && q <= ask.path && |p| > |q|
    requires (p == "" || p[0] != '/') && (q == "" || q[0] != '/')
    ensures var long := AclRule(None, None, Some(p), None, Some(a), Some(a));
            var short := AclRule(None, None, Some(q), None, Some(b), Some(b));
            && (Allowed(Some([long, short]), ask) <==> a == Allow)
            && (Allowed(Some([short, long]), ask) <==> a == Allow)
  {
    hide Allowed;
    var long := AclRule(None, None, Some(p), None, Some(a), Some(a));
    var short := AclRule(None, None, Some(q), None, Some(b), Some(b));
    hide Reaches, Concerns;
    PrefixConcerns(p, a, ask);
    PrefixConcerns(q, b, ask);
    LongerPatternDecides(long, short, ask);
  }

  /** A rule for user and client that applies silences every rule without kind that does not name both. */
  lemma PairSilencesTheRest(before: seq<AclRule>, r: AclRule, after: seq<AclRule>, pair: AclRule, ask: Ask)
    requires pair in before + after && Concerns(pair, ask) && pair.userId.Some? && pair.clientId.Some?
    requires r.kind.None? && (r.userId.None? || r.clientId.None?)
    ensures Allowed(Some(before + [r] + after), ask) <==> Allowed(Some(before + after), ask)
  {
    hide Concerns, Candidate, Score, PotDecision, PotRules;
    ConcernsIsCandidate(pair, ask);
    var all, rest := before + [r] + after, before + after;
    PairPotStays(before, r, after, pair, ask);
  }

  lemma PairPotStays(before: seq<AclRule>, r: AclRule, after: seq<AclRule>, pair: AclRule, ask: Ask)
    requires pair in before + after && InPot(pair, ask, Pair) && r.kind.None? && (r.userId.None? || r.clientId.None?)
    ensures var all, rest := before + [r] + after, before + after;
            && PotRules(all, ask, Pair) != [] && PotRules(rest, ask, Pair) != []
            && PotDecision(all, ask, Pair) == PotDecision(rest, ask, Pair)
            && PotDecision(all, ask, KindGate) == PotDecision(rest, ask, KindGate)
  {
    hide Candidate, Score;
    var all, rest := before + [r] + after, before + after;
    assert Chooser(ask, Pair)(pair) && pair in all;
    DroppedIsNotMissed(before, r, after, Chooser(ask, Pair), Score);
    DroppedIsNotMissed(before, r, after, Chooser(ask, KindGate), Score);
    assert pair in PotRules(all, ask, Pair) && pair in PotRules(rest, ask, Pair);
  }
}
