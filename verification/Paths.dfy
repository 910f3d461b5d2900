/** Tree paths, file kinds and identities. */
module Paths {

  /** A path is its segments; `[]` is the root of the tree. */
  type Path = seq<string>

  /** The segments joined with `/`. */
  function Render(p: Path): string {
    if p == [] then "" else if |p| == 1 then p[0] else p[0] + "/" + Render(p[1..])
  }

  predicate Canonical(p: Path) {
    p != [] && forall i :: 0 <= i < |p| ==> p[i] != "" && '/' !in p[i]
  }

  datatype Kind = Dir | Md | Json | PiiJson | Skill | Binary

  predicate EndsWith(s: string, suffix: string) {
    |suffix| <= |s| && s[|s| - |suffix|..] == suffix
  }

  function ClassifyKind(path: string): Kind {
    if EndsWith(path, ".pii.json") then PiiJson
    else if EndsWith(path, ".json") then Json
    else if EndsWith(path, ".skill") then Skill
    else if EndsWith(path, ".md") then Md
    else Binary
  }

  function KindOf(p: Path): Kind { ClassifyKind(Render(p)) }

  predicate IsText(p: Path) { KindOf(p) != Binary }

  datatype Principal = Principal(userId: string, clientId: string)

  const ACL_PATH: Path := ["_system", "acl.json"]

  /** A string up to its first `/`. */
  function FirstSegment(s: string): string {
    if s == "" || s[0] == '/' then "" else [s[0]] + FirstSegment(s[1..])
  }

  lemma {:induction false} FirstSegmentOf(a: string, rest: string)
    requires '/' !in a && (rest == "" || rest[0] == '/')
    ensures FirstSegment(a + rest) == a
  {
    if a == "" {
      assert a + rest == rest;
    } else {
      assert (a + rest)[1..] == a[1..] + rest;
      FirstSegmentOf(a[1..], rest);
    }
  }

  lemma RenderFirst(p: Path)
    requires Canonical(p)
    ensures FirstSegment(Render(p)) == p[0]
    ensures Render(p) == p[0] + if |p| == 1 then "" else "/" + Render(p[1..])
  {
    if |p| == 1 {
      assert p[0] + "" == p[0];
      FirstSegmentOf(p[0], "");
    } else {
      assert p[0] + "/" + Render(p[1..]) == p[0] + ("/" + Render(p[1..]));
      FirstSegmentOf(p[0], "/" + Render(p[1..]));
    }
  }

  /** One segment more is a slash and the segment more, and the root is the empty string. */
  lemma {:induction false} RenderSnoc(p: Path, name: string)
    ensures Render([]) == "" && Render(p + [name]) == if p == [] then name else Render(p) + "/" + name
  {
    if p == [] {
      assert p + [name] == [name];
    } else {
      var q := p + [name];
      assert q[1..] == p[1..] + [name];
      RenderSnoc(p[1..], name);
      assert q[0] + "/" + Render(q[1..]) == Render(q);
    }
  }

  /** Distinct canonical paths have distinct strings. */
  lemma {:induction false} RenderIsInjective(p: Path, q: Path)
    requires Canonical(p) && Canonical(q) && Render(p) == Render(q)
    ensures p == q
  {
    RenderFirst(p);
    RenderFirst(q);
    var n := |p[0]|;
    assert |p| > 1 ==> Render(p)[n..] == "/" + Render(p[1..]) && Render(p)[n + 1..] == Render(p[1..]);
    assert |q| > 1 ==> Render(q)[n..] == "/" + Render(q[1..]) && Render(q)[n + 1..] == Render(q[1..]);
    if |p| > 1 {
      RenderIsInjective(p[1..], q[1..]);
    }
    assert p == [p[0]] + p[1..] && q == [q[0]] + q[1..];
  }

  // ---- Kinds by name ------------------------------------------------------------------------------

  lemma SuffixMeansStem(name: string, suffix: string)
    ensures EndsWith(name, suffix) <==> exists stem :: name == stem + suffix
  {
    if EndsWith(name, suffix) { assert name == name[..|name| - |suffix|] + suffix; }
  }

  /** The four suffixes, the longer `.pii.json` before `.json`. */
  lemma KindsByStem(stem: string)
    ensures ClassifyKind(stem + ".pii.json") == PiiJson
    ensures ClassifyKind(stem + ".json") ==
            if exists inner :: stem + ".json" == inner + ".pii.json" then PiiJson else Json
    ensures ClassifyKind(stem + ".skill") == Skill && ClassifyKind(stem + ".md") == Md
  {
    SuffixMeansStem(stem + ".pii.json", ".pii.json");
    SuffixMeansStem(stem + ".json", ".pii.json");
    SuffixMeansStem(stem + ".json", ".json");
    SuffixMeansStem(stem + ".skill", ".skill");
    SuffixMeansStem(stem + ".md", ".md");
    EndsAre(stem + ".skill");
    EndsAre(stem + ".md");
  }

  /** The suffixes end in different characters, so one name has only one of them. */
  lemma EndsAre(name: string)
    ensures EndsWith(name, ".skill") ==> name[|name| - 1] == 'l'
    ensures EndsWith(name, ".md") ==> name[|name| - 1] == 'd'
    ensures EndsWith(name, ".json") || EndsWith(name, ".pii.json") ==> name[|name| - 1] == 'n'
  {
    LastCharacter(name, ".skill");
    LastCharacter(name, ".md");
    LastCharacter(name, ".json");
    LastCharacter(name, ".pii.json");
  }

  lemma LastCharacter(s: string, suffix: string)
    ensures EndsWith(s, suffix) && suffix != "" ==> s != "" && s[|s| - 1] == suffix[|suffix| - 1]
  {
    if EndsWith(s, suffix) && suffix != "" { assert s[|s| - |suffix|..][|suffix| - 1] == s[|s| - 1]; }
  }

  /** A name is binary exactly when it has none of the suffixes, and never names a directory. */
  lemma BinaryIsTheRest(name: string)
    ensures ClassifyKind(name) == Binary <==>
            forall stem :: name != stem + ".json" && name != stem + ".skill" && name != stem + ".md"
    ensures ClassifyKind(name) == PiiJson <==> exists stem :: name == stem + ".pii.json"
    ensures ClassifyKind(name) != Dir
  {
    SuffixMeansStem(name, ".pii.json");
    SuffixMeansStem(name, ".json");
    SuffixMeansStem(name, ".skill");
    SuffixMeansStem(name, ".md");
    forall stem | name == stem + ".pii.json" ensures name == stem + ".pii" + ".json" {
      assert ".pii" + ".json" == ".pii.json";
    }
  }

  /** The last name of a path decides its kind, so that listings, which look at names, agree with the gates. */
  lemma NameDecidesKind(parents: Path, name: string)
    ensures KindOf(parents + [name]) == ClassifyKind(name)
  {
    RenderSnoc(parents, name);
    if parents != [] {
      var before := Render(parents);
      SuffixOfName(before, name, ".pii.json");
      SuffixOfName(before, name, ".json");
      SuffixOfName(before, name, ".skill");
      SuffixOfName(before, name, ".md");
    }
  }

  lemma SuffixOfName(before: string, name: string, suffix: string)
    requires '/' !in suffix
    ensures EndsWith(before + "/" + name, suffix) <==> EndsWith(name, suffix)
  {
    var whole := before + "/" + name;
    if |suffix| <= |name| {
      assert whole[|whole| - |suffix|..] == name[|name| - |suffix|..];
    } else if |suffix| <= |whole| {
      assert whole[|whole| - |suffix|..][|suffix| - |name| - 1] == '/';
    }
  }
}
