/** Access decisions over a rule list: four scope pots, a kind gate, deny dominance, fail-closed default. */
module Acl {
  import opened Base
  import opened Glob
  import opened Paths
  import opened Selection

  datatype Permission = Allow | Deny
  datatype Field = Read | Write

  datatype AclRule = AclRule(userId: Option<string>, clientId: Option<string>, pathPrefix: Option<string>,
                             kind: Option<Kind>, read: Option<Permission>, write: Option<Permission>)

  /** One question to the engine. */
  datatype Ask = Ask(principal: Principal, path: string, kind: Kind, field: Field)

  function StripSlashes(p: string): string {
    if p != "" && p[0] == '/' then StripSlashes(p[1..]) else p
  }

  predicate PathMatches(pattern: Option<string>, path: string) {
    match pattern
    case None => true
    case Some(p) =>
      var normalized := StripSlashes(p);
      if '*' !in normalized then normalized <= path else Matches(Tokens(normalized), path)
  }

  function Literals(p: string): nat {
    if p == "" then 0 else (if p[0] == '*' then 0 else 1) + Literals(p[1..])
  }

  /** Literal characters of the pattern as written, leading slashes included. */
  function Score(r: AclRule): int {
    if r.pathPrefix.None? then 0 else Literals(r.pathPrefix.value)
  }

  predicate RuleMatches(r: AclRule, ask: Ask) {
    && (r.userId.None? || r.userId.value == ask.principal.userId)
    && (r.clientId.None? || r.clientId.value == ask.principal.clientId)
    && PathMatches(r.pathPrefix, ask.path)
    && (r.kind.None? || r.kind.value == ask.kind)
  }

  function Perm(r: AclRule, field: Field): Option<Permission> {
    match field case Read => r.read case Write => r.write
  }

  datatype Pot = Pair | User | Client | Global | KindGate

  predicate Belongs(r: AclRule, pot: Pot) {
    match pot
    case Pair => r.userId.Some? && r.clientId.Some?
    case User => r.userId.Some? && r.clientId.None?
    case Client => r.userId.None? && r.clientId.Some?
    case Global => r.userId.None? && r.clientId.None?
    case KindGate => r.kind.Some?
  }

  predicate Candidate(r: AclRule, ask: Ask) { Perm(r, ask.field).Some? && RuleMatches(r, ask) }

  predicate InPot(r: AclRule, ask: Ask, pot: Pot) { Candidate(r, ask) && Belongs(r, pot) }

  function Chooser(ask: Ask, pot: Pot): AclRule -> bool { r => InPot(r, ask, pot) }

  function PotRules(rules: seq<AclRule>, ask: Ask, pot: Pot): seq<AclRule> {
    Filter(rules, Chooser(ask, pot))
  }

  /** `max(rules, key=score)`: the first rule of the highest score. */
  function MostSpecific(rules: seq<AclRule>): Option<AclRule> {
    FirstMax(rules, Score)
  }

  function PotDecision(rules: seq<AclRule>, ask: Ask, pot: Pot): Option<Permission> {
    match MostSpecific(PotRules(rules, ask, pot))
    case None => None
    case Some(r) => Perm(r, ask.field)
  }

  function ScopeDecision(rules: seq<AclRule>, ask: Ask): Option<Permission> {
    if PotRules(rules, ask, Pair) != [] then PotDecision(rules, ask, Pair)
    else
      var decisions := {PotDecision(rules, ask, User), PotDecision(rules, ask, Client),
                       PotDecision(rules, ask, Global)} - {None};
      if decisions == {} then None
      else if Some(Deny) in decisions then Some(Deny)
      else Some(Allow)
  }

  /** `AclEngine(rules)._effective(...) is ALLOW`; `None` is a tree without an ACL file. */
  predicate Allowed(acl: Option<seq<AclRule>>, ask: Ask) {
    var rules := if acl.None? then [] else acl.value;
    var scope := ScopeDecision(rules, ask);
    var gate := PotDecision(rules, ask, KindGate);
    if scope == Some(Deny) || gate == Some(Deny) then false
    else if scope == Some(Allow) || gate == Some(Allow) then true
    else acl.None?
  }

  // ---- The same decision as a quantified formula --------------------------------

  ghost predicate Present(rules: seq<AclRule>, ask: Ask, pot: Pot) {
    exists i :: 0 <= i < |rules| && InPot(rules[i], ask, pot)
  }

  /** Rule i is in the pot, no other there scores more, and earlier ones score less. */
  ghost predicate TopRule(rules: seq<AclRule>, ask: Ask, pot: Pot, i: int) {
    && 0 <= i < |rules| && InPot(rules[i], ask, pot)
    && (forall j :: 0 <= j < |rules| && InPot(rules[j], ask, pot) ==> Score(rules[j]) <= Score(rules[i]))
    && (forall j :: 0 <= j < i && InPot(rules[j], ask, pot) ==> Score(rules[j]) < Score(rules[i]))
  }

  ghost predicate Denies(rules: seq<AclRule>, ask: Ask, pot: Pot) {
    exists i :: TopRule(rules, ask, pot, i) && Perm(rules[i], ask.field) == Some(Deny)
  }

  /** Pair rules override; otherwise any deny wins; the kind gate comes on top; nothing said means no. */
  ghost predicate AccessRule(rules: seq<AclRule>, ask: Ask) {
    && AnyCandidate(rules, ask)
    && !Denies(rules, ask, KindGate)
    && !ScopeDenies(rules, ask)
  }

  ghost predicate AnyCandidate(rules: seq<AclRule>, ask: Ask) {
    exists i :: 0 <= i < |rules| && Candidate(rules[i], ask)
  }

  ghost predicate ScopeDenies(rules: seq<AclRule>, ask: Ask) {
    if Present(rules, ask, Pair) then Denies(rules, ask, Pair)
    else Denies(rules, ask, User) || Denies(rules, ask, Client) || Denies(rules, ask, Global)
  }

  lemma TopRuleIsTop(rules: seq<AclRule>, ask: Ask, pot: Pot, i: int)
    ensures TopRule(rules, ask, pot, i) <==> Top(rules, Chooser(ask, pot), Score, i)
  {
    assert forall j :: Kept(rules, Chooser(ask, pot), j) <==> 0 <= j < |rules| && InPot(rules[j], ask, pot);
  }

  lemma PotDecisionIsTop(rules: seq<AclRule>, ask: Ask, pot: Pot)
    ensures PotRules(rules, ask, pot) == [] <==> !Present(rules, ask, pot)
    ensures PotDecision(rules, ask, pot).None? <==> !Present(rules, ask, pot)
    ensures PotDecision(rules, ask, pot) == Some(Deny) <==> Denies(rules, ask, pot)
  {
    var keep := Chooser(ask, pot);
    var i := MaxIsTop(rules, keep, Score);
    assert forall j :: Kept(rules, keep, j) <==> 0 <= j < |rules| && InPot(rules[j], ask, pot);
    if Present(rules, ask, pot) {
      TopRuleIsTop(rules, ask, pot, i);
    }
    forall j | TopRule(rules, ask, pot, j) ensures j == i {
      TopRuleIsTop(rules, ask, pot, j);
      TopIsUnique(rules, keep, Score, i, j);
    }
  }

  /** Every matching rule is in one of the four scope pots. */
  lemma EveryCandidateHasAPot(rules: seq<AclRule>, ask: Ask)
    ensures AnyCandidate(rules, ask) <==>
            Present(rules, ask, Pair) || Present(rules, ask, User) || Present(rules, ask, Client)
                || Present(rules, ask, Global)
    ensures Present(rules, ask, KindGate) ==> AnyCandidate(rules, ask)
  {
    forall i | 0 <= i < |rules| && Candidate(rules[i], ask)
      ensures Present(rules, ask, Pair) || Present(rules, ask, User) || Present(rules, ask, Client)
              || Present(rules, ask, Global)
    {
      assert InPot(rules[i], ask, Pair) || InPot(rules[i], ask, User) || InPot(rules[i], ask, Client)
             || InPot(rules[i], ask, Global);
    }
  }

  lemma ScopeCases(rules: seq<AclRule>, ask: Ask)
    ensures PotRules(rules, ask, Pair) == [] ==>
              (ScopeDecision(rules, ask) == Some(Deny) <==>
               Some(Deny) in
               {PotDecision(rules, ask, User), PotDecision(rules, ask, Client), PotDecision(rules, ask, Global)})
    ensures ScopeDecision(rules, ask) == None <==>
            PotDecision(rules, ask, Pair) == None && PotDecision(rules, ask, User) == None &&
            PotDecision(rules, ask, Client) == None && PotDecision(rules, ask, Global) == None
  {
    PotDecisionIsTop(rules, ask, Pair);
    var all := {PotDecision(rules, ask, User), PotDecision(rules, ask, Client), PotDecision(rules, ask, Global)};
    assert PotDecision(rules, ask, User) in all && PotDecision(rules, ask, Client) in all
           && PotDecision(rules, ask, Global) in all;
    if PotRules(rules, ask, Pair) == [] && ScopeDecision(rules, ask) == None {
      assert forall d :: d in all ==> d in all - {None} || d == None;
    }
  }

  lemma ScopeFollowsRule(rules: seq<AclRule>, ask: Ask)
    ensures ScopeDecision(rules, ask) == Some(Deny) <==> ScopeDenies(rules, ask)
    ensures ScopeDecision(rules, ask) == None <==> !AnyCandidate(rules, ask)
  {
    PotDecisionIsTop(rules, ask, Pair);
    PotDecisionIsTop(rules, ask, User);
    PotDecisionIsTop(rules, ask, Client);
    PotDecisionIsTop(rules, ask, Global);
    EveryCandidateHasAPot(rules, ask);
    ScopeCases(rules, ask);
  }

  /** The evaluation of the pots is the quantified formula; without an ACL file everything is allowed. */
  lemma EngineFollowsAccessRule(acl: Option<seq<AclRule>>, ask: Ask)
    ensures Allowed(acl, ask) <==> acl.None? || AccessRule(acl.value, ask)
  {
    hide ScopeDecision, PotDecision, Candidate, InPot, TopRule;
    var rules := if acl.None? then [] else acl.value;
    ScopeFollowsRule(rules, ask);
    PotDecisionIsTop(rules, ask, KindGate);
    EveryCandidateHasAPot(rules, ask);
    OneOfThree(ScopeDecision(rules, ask));
    OneOfThree(PotDecision(rules, ask, KindGate));
  }

  lemma OneOfThree(d: Option<Permission>)
    ensures d == None || d == Some(Allow) || d == Some(Deny)
  {
    if d.Some? {
      match d.value case Allow => case Deny =>
    }
  }

  // ---- Rule-list changes that change no decision --------------------------------

  /** Same maximum value per pot means the same decision. */
  lemma SamePotsSameDecision(a: seq<AclRule>, b: seq<AclRule>, ask: Ask)
    requires forall pot :: PotDecision(a, ask, pot) == PotDecision(b, ask, pot)
    ensures Allowed(Some(a), ask) <==> Allowed(Some(b), ask)
  {
    assert PotDecision(a, ask, Pair) == PotDecision(b, ask, Pair);
    PotDecisionIsTop(a, ask, Pair);
    PotDecisionIsTop(b, ask, Pair);
    assert PotDecision(a, ask, User) == PotDecision(b, ask, User);
    assert PotDecision(a, ask, Client) == PotDecision(b, ask, Client);
    assert PotDecision(a, ask, Global) == PotDecision(b, ask, Global);
    assert PotDecision(a, ask, KindGate) == PotDecision(b, ask, KindGate);
  }

  /** In this pot some other rule of the list applies and scores strictly more. */
  ghost predicate Dominated(r: AclRule, others: seq<AclRule>, ask: Ask, pot: Pot) {
    exists q :: q in others && InPot(q, ask, pot) && Score(q) > Score(r)
  }

  /** A rule that does not apply, or is dominated in every pot it belongs to, can be deleted. */
  lemma IdleRuleCanBeDeleted(before: seq<AclRule>, r: AclRule, after: seq<AclRule>, ask: Ask)
    requires forall pot :: InPot(r, ask, pot) ==> Dominated(r, before + after, ask, pot)
    ensures Allowed(Some(before + [r] + after), ask) <==> Allowed(Some(before + after), ask)
  {
    forall pot ensures PotDecision(before + [r] + after, ask, pot) == PotDecision(before + after, ask, pot) {
      if InPot(r, ask, pot) {
        var q :| q in before + after && InPot(q, ask, pot) && Score(q) > Score(r);
        assert Chooser(ask, pot)(q);
      }
      DroppedIsNotMissed(before, r, after, Chooser(ask, pot), Score);
    }
    SamePotsSameDecision(before + [r] + after, before + after, ask);
  }

  function PermOf(field: Field): AclRule -> Option<Permission> { r => Perm(r, field) }

  /** Where the best rules of each pot agree, only the set of rules matters, not its order or repetitions. */
  lemma OrderIsIrrelevantWhenTiesAgree(a: seq<AclRule>, b: seq<AclRule>, ask: Ask)
    requires forall r :: r in a <==> r in b
    requires forall pot :: TiesAgree(a, Chooser(ask, pot), Score, PermOf(ask.field))
    ensures Allowed(Some(a), ask) <==> Allowed(Some(b), ask)
  {
    forall pot ensures PotDecision(a, ask, pot) == PotDecision(b, ask, pot) {
      assert TiesAgree(a, Chooser(ask, pot), Score, PermOf(ask.field));
      OnlyTheSetMatters(a, b, Chooser(ask, pot), Score, PermOf(ask.field));
    }
    SamePotsSameDecision(a, b, ask);
  }

  /** The decision of a pot is the same for every order of the rules exactly when its best rules agree. */
  lemma PotIgnoresOrderIff(rules: seq<AclRule>, ask: Ask, pot: Pot)
    ensures (forall perm :: multiset(perm) == multiset(rules) ==>
            PotDecision(perm, ask, pot) == PotDecision(rules, ask, pot))
            <==> TiesAgree(rules, Chooser(ask, pot), Score, PermOf(ask.field))
  {
    hide Score;
    var keep := Chooser(ask, pot);
    if TiesAgree(rules, keep, Score, PermOf(ask.field)) {
      forall perm | multiset(perm) == multiset(rules)
        ensures PotDecision(perm, ask, pot) == PotDecision(rules, ask, pot)
      {
        PermutationHasTheSame(rules, perm);
        OnlyTheSetMatters(rules, perm, keep, Score, PermOf(ask.field));
      }
    }
    if forall perm :: multiset(perm) == multiset(rules) ==> PotDecision(perm, ask, pot) == PotDecision(rules, ask, pot)
    {
      forall x | x in rules && keep(x) && Highest(rules, keep, Score, x)
        ensures PotDecision(rules, ask, pot) == Perm(x, ask.field)
      {
        var perm := BestInFront(rules, ask, pot, x);
      }
    }
  }

  lemma BestInFront(rules: seq<AclRule>, ask: Ask, pot: Pot, x: AclRule) returns (perm: seq<AclRule>)
    requires x in rules && Chooser(ask, pot)(x) && Highest(rules, Chooser(ask, pot), Score, x)
    ensures multiset(perm) == multiset(rules) && PotDecision(perm, ask, pot) == Perm(x, ask.field)
  {
    hide Score;
    var i :| 0 <= i < |rules| && rules[i] == x;
    perm := MoveFirst(rules, i);
    MoveFirstPermutes(rules, i);
    PermutationHasTheSame(rules, perm);
    FrontWins(perm, Chooser(ask, pot), Score);
  }

  /** A disagreeing tie makes the order decide. */
  lemma DisagreeingTiesDependOnOrder(ask: Ask) returns (a: seq<AclRule>, b: seq<AclRule>)
    ensures forall r :: r in a <==> r in b
    ensures Allowed(Some(a), ask) && !Allowed(Some(b), ask)
  {
    var yes := AclRule(None, None, None, None, Some(Allow), Some(Allow));
    var no := AclRule(None, None, None, None, Some(Deny), Some(Deny));
    a, b := [yes, no], [no, yes];
    assert InPot(yes, ask, Global) && InPot(no, ask, Global) && Score(yes) == Score(no) == 0;
    FirstRuleDecides(a, ask);
    FirstRuleDecides(b, ask);
  }

  lemma FirstRuleDecides(rules: seq<AclRule>, ask: Ask)
    requires |rules| == 2
    requires forall r :: r in rules ==>
               r.userId.None? && r.clientId.None? && r.kind.None? && InPot(r, ask, Global) && Score(r) == 0
    ensures Allowed(Some(rules), ask) <==> Perm(rules[0], ask.field) != Some(Deny)
  {
    hide ScopeDecision, PotDecision, Allowed, RuleMatches, Score;
    OnlyGlobal(rules, ask);
    EngineFollowsAccessRule(Some(rules), ask);
    assert TopRule(rules, ask, Global, 0) && !TopRule(rules, ask, Global, 1);
  }

  lemma OnlyGlobal(rules: seq<AclRule>, ask: Ask)
    requires forall r :: r in rules ==> r.userId.None? && r.clientId.None? && r.kind.None?
    ensures !Present(rules, ask, Pair) && !Denies(rules, ask, User) && !Denies(rules, ask, Client)
            && !Denies(rules, ask, KindGate)
  {
    assert forall i :: 0 <= i < |rules| ==> rules[i] in rules;
  }

  // ---- Prefixes are globs ---------------------------------------------------------

  /** The rule with its plain prefix written as a glob: `p` as `p**`, an absent one as `**`. */
  function AsGlob(r: AclRule): AclRule {
    match r.pathPrefix
    case None => r.(pathPrefix := Some("**"))
    case Some(p) => if '*' in p then r else r.(pathPrefix := Some(p + "**"))
  }

  function AllAsGlobs(rules: seq<AclRule>): (r: seq<AclRule>)
    ensures |r| == |rules| && forall i :: 0 <= i < |r| ==> r[i] == AsGlob(rules[i])
  {
    seq(|rules|, i requires 0 <= i < |rules| => AsGlob(rules[i]))
  }

  /** No newline except possibly as the last character. */
  predicate NewlineOnlyLast(path: string) {
    forall i :: 0 <= i < |path| - 1 ==> path[i] != '\n'
  }

  lemma {:induction false} LiteralsConcat(a: string, b: string)
    ensures Literals(a + b) == Literals(a) + Literals(b)
  {
    if a == "" {
      assert a + b == b;
    } else {
      assert (a + b)[1..] == a[1..] + b;
      LiteralsConcat(a[1..], b);
    }
  }

  lemma GlobKeepsScore(r: AclRule)
    ensures Score(AsGlob(r)) == Score(r)
  {
    assert Literals("**") == Literals("*") == 0 by { assert "**"[1..] == "*" && "*"[1..] == ""; }
    if r.pathPrefix.Some? { LiteralsConcat(r.pathPrefix.value, "**"); }
  }

  lemma {:induction false} StripStarred(p: string)
    requires '*' !in p
    ensures StripSlashes(p + "**") == StripSlashes(p) + "**"
    ensures '*' !in StripSlashes(p)
  {
    if p == "" {
      assert p + "**" == "**";
    } else {
      assert (p + "**")[1..] == p[1..] + "**";
      StripStarred(p[1..]);
    }
  }

  /** A literal prefix followed by `**` accepts its one-line continuations. */
  lemma {:induction false} PrefixGlobAccepts(p: string, s: string)
    requires '*' !in p
    ensures Accepts(Tokens(p + "**"), s) <==> p <= s && OneLine(s[|p|..])
  {
    if p == "" {
      assert p + "**" == "**" && "**" + "" == "**";
      TokensOfDoubleStar("");
      assert Tokens("**") == [DoubleStar];
      if Accepts([DoubleStar], s) {
        var i :| 0 <= i <= |s| && Fits(DoubleStar, s[..i]) && Accepts([DoubleStar][1..], s[i..]);
        assert s[..i] == s;
      }
      if OneLine(s) {
        assert s[..|s|] == s && s[|s|..] == "";
        AcceptsCons(DoubleStar, [], s, |s|);
      }
      assert s[0..] == s;
    } else {
      PrefixTokens(p);
      LiteralStep(p[0], Tokens(p[1..] + "**"), s);
      if s != "" && s[0] == p[0] {
        PrefixGlobAccepts(p[1..], s[1..]);
        assert s == [p[0]] + s[1..] && p == [p[0]] + p[1..];
        if |p| <= |s| { assert s[1..][|p[1..]|..] == s[|p|..]; }
      }
    }
  }

  lemma PrefixTokens(p: string)
    requires p != "" && '*' !in p
    ensures Tokens(p + "**") == [Lit(p[0])] + Tokens(p[1..] + "**")
  {
    var q := p + "**";
    assert q[0] == p[0] && p[0] in p;
    assert q[1..] == p[1..] + "**";
    assert q[..2][0] == p[0];
  }

  lemma LiteralStep(c: char, ts: seq<Token>, s: string)
    ensures Accepts([Lit(c)] + ts, s) <==> s != "" && s[0] == c && Accepts(ts, s[1..])
  {
    if Accepts([Lit(c)] + ts, s) {
      var i := AcceptsUncons(Lit(c), ts, s);
      assert s[..i] == [c] && |s[..i]| == 1;
    }
    if s != "" && s[0] == c && Accepts(ts, s[1..]) {
      assert s[..1] == [c];
      AcceptsCons(Lit(c), ts, s, 1);
    }
  }

  lemma GlobKeepsMatches(p: string, path: string)
    requires '*' !in p && NewlineOnlyLast(path)
    ensures Matches(Tokens(p + "**"), path) <==> p <= path
  {
    PrefixGlobAccepts(p, path);
    if path != "" && path[|path| - 1] == '\n' {
      var front := path[..|path| - 1];
      PrefixGlobAccepts(p, front);
      assert OneLine(front);
      if p <= path && |p| < |path| {
        assert p <= front;
        assert forall c :: c in front[|p|..] ==> c in front;
      }
    } else {
      assert OneLine(path) by {
        forall i | 0 <= i < |path| ensures path[i] != '\n' {}
      }
    }
  }

  lemma GlobKeepsPathMatches(r: AclRule, path: string)
    requires NewlineOnlyLast(path)
    ensures PathMatches(AsGlob(r).pathPrefix, path) <==> PathMatches(r.pathPrefix, path)
  {
    match r.pathPrefix
    case None =>
      assert StripSlashes("**") == "**" && "" + "**" == "**";
      GlobKeepsMatches("", path);
    case Some(p) =>
      if '*' !in p {
        StripStarred(p);
        GlobKeepsMatches(StripSlashes(p), path);
        assert '*' in StripSlashes(p) + "**" by { assert (StripSlashes(p) + "**")[|StripSlashes(p)|] == '*'; }
      }
  }

  lemma GlobKeepsPot(r: AclRule, ask: Ask, pot: Pot)
    requires NewlineOnlyLast(ask.path)
    ensures InPot(AsGlob(r), ask, pot) <==> InPot(r, ask, pot)
    ensures Perm(AsGlob(r), ask.field) == Perm(r, ask.field)
  {
    hide PathMatches;
    GlobKeepsPathMatches(r, ask.path);
  }

  lemma GlobsKeepPotDecision(rules: seq<AclRule>, ask: Ask, pot: Pot)
    requires NewlineOnlyLast(ask.path)
    ensures PotDecision(AllAsGlobs(rules), ask, pot) == PotDecision(rules, ask, pot)
  {
    hide InPot, Score, AsGlob, Perm;
    var globs := AllAsGlobs(rules);
    var keep := Chooser(ask, pot);
    forall j | 0 <= j < |rules|
      ensures Kept(globs, keep, j) <==> Kept(rules, keep, j)
      ensures Score(globs[j]) == Score(rules[j]) && Perm(globs[j], ask.field) == Perm(rules[j], ask.field)
    {
      GlobKeepsPot(rules[j], ask, pot);
      GlobKeepsScore(rules[j]);
    }
    var i := MaxIsTop(rules, keep, Score);
    var i' := MaxIsTop(globs, keep, Score);
    if AnyKept(rules, keep) {
      assert Kept(rules, keep, i) && Kept(globs, keep, i);
      assert Top(globs, keep, Score, i);
      TopIsUnique(globs, keep, Score, i, i');
    } else {
      assert !AnyKept(globs, keep);
    }
  }

  /** The decisions about this path are the same for every rule list, written with prefixes or with globs. */
  ghost predicate GlobsDecideAlike(path: string) {
    forall rules, ask: Ask :: ask.path == path ==>
      (Allowed(Some(AllAsGlobs(rules)), ask) <==> Allowed(Some(rules), ask))
  }

  /** A path with an inner newline tells a prefix from its glob, because `.` does not match a newline. */
  lemma InnerNewlineDiffers(path: string)
    requires !NewlineOnlyLast(path)
    ensures !GlobsDecideAlike(path)
  {
    var r := AclRule(None, None, None, None, Some(Allow), Some(Allow));
    var ask := Ask(Principal("", ""), path, Binary, Read);
    var k :| 0 <= k < |path| - 1 && path[k] == '\n';
    assert "" + "**" == "**" && StripSlashes("**") == "**" && path[0..] == path;
    PrefixGlobAccepts("", path);
    var front := path[..|path| - 1];
    assert front[k] == '\n' && front[0..] == front;
    PrefixGlobAccepts("", front);
    assert !Matches(Tokens("**"), path);
    assert '*' in "**" by { assert "**"[0] == '*'; }
    assert !RuleMatches(AsGlob(r), ask);
    LoneGlobalRule(r, ask);
    LoneGlobalRule(AsGlob(r), ask);
    assert AllAsGlobs([r]) == [AsGlob(r)];
  }

  lemma LoneGlobalRule(r: AclRule, ask: Ask)
    requires r.userId.None? && r.clientId.None? && r.kind.None? && Perm(r, ask.field) == Some(Allow)
    ensures Allowed(Some([r]), ask) <==> RuleMatches(r, ask)
  {
    hide ScopeDecision, PotDecision, Allowed, RuleMatches, Score;
    OnlyGlobal([r], ask);
    EngineFollowsAccessRule(Some([r]), ask);
    assert [r][0] == r;
    assert Candidate([r][0], ask) <==> RuleMatches(r, ask);
    assert !Denies([r], ask, Global);
  }

  /**
   * Writing every prefix `p` as `p**` and every absent one as `**` changes no decision about a path,
   * whatever the rules, exactly when the path has no newline before its last character.
   */
  lemma PrefixesAreGlobs(path: string)
    ensures GlobsDecideAlike(path) <==> NewlineOnlyLast(path)
  {
    hide Allowed, NewlineOnlyLast;
    if NewlineOnlyLast(path) {
      forall rules, ask: Ask | ask.path == path
        ensures Allowed(Some(AllAsGlobs(rules)), ask) <==> Allowed(Some(rules), ask)
      {
        forall pot ensures PotDecision(AllAsGlobs(rules), ask, pot) == PotDecision(rules, ask, pot) {
          GlobsKeepPotDecision(rules, ask, pot);
        }
        SamePotsSameDecision(AllAsGlobs(rules), rules, ask);
      }
    } else {
      InnerNewlineDiffers(path);
    }
  }
}
