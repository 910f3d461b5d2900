/**
 * The exact-once substring edit: Python's `str.count` and `str.replace(old, new, 1)`.
 * `count` looks left to right and skips past each hit, so it does not see overlapping hits.
 */
module Edits {
  import opened Base

  /** `t` starts at position `i` of `s`. */
  predicate At(s: string, t: string, i: int) {
    0 <= i && i + |t| <= |s| && s[i..i + |t|] == t
  }

  /** `s.find(t, from)`. */
  function Find(s: string, t: string, from: nat): (r: Option<nat>)
    requires from <= |s|
    ensures r.Some? ==> from <= r.value && At(s, t, r.value) && forall k | from <= k < r.value :: !At(s, t, k)
    ensures r.None? ==> forall k | from <= k :: !At(s, t, k)
    decreases |s| - from
  {
    if At(s, t, from) then Some(from)
    else if from == |s| then None
    else Find(s, t, from + 1)
  }

  function CountFrom(s: string, t: string, from: nat): nat
    requires t != "" && from <= |s|
    decreases |s| - from
  {
    match Find(s, t, from)
    case None => 0
    case Some(i) => 1 + CountFrom(s, t, i + |t|)
  }

  /** `s.count(t)`; the empty string counts once per gap. */
  function Count(s: string, t: string): nat {
    if t == "" then |s| + 1 else CountFrom(s, t, 0)
  }

  /** `s.replace(old, new, 1)`. */
  function ReplaceFirst(s: string, old_: string, new_: string): string {
    match Find(s, old_, 0)
    case None => s
    case Some(i) => s[..i] + new_ + s[i + |old_|..]
  }

  /** `t` starts at exactly one position of `s`, overlapping starts included. */
  ghost predicate Once(s: string, t: string) {
    exists i :: At(s, t, i) && forall k :: At(s, t, k) ==> k == i
  }

  /** Every start of `t` lies inside the leftmost hit, which is at `i`. */
  ghost predicate ClusteredAt(s: string, t: string, i: int) {
    At(s, t, i) && forall k :: At(s, t, k) ==> i <= k && (k < i + |t| || k == i)
  }

  lemma CountIsZero(s: string, t: string)
    ensures Count(s, t) == 0 <==> forall k :: !At(s, t, k)
  {
    if t == "" {
      assert At(s, t, 0);
    }
  }

  /** What the guard of an edit means: all hits overlap the leftmost one. */
  lemma CountIsOne(s: string, t: string)
    ensures Count(s, t) == 1 <==> exists i :: ClusteredAt(s, t, i)
  {
    if t == "" {
      assert At(s, t, 0) && At(s, t, |s|);
      if s == "" {
        assert ClusteredAt(s, t, 0);
      }
      forall i | ClusteredAt(s, t, i) ensures s == "" {}
    } else {
      match Find(s, t, 0)
      case None =>
      case Some(i) =>
        var rest := Find(s, t, i + |t|);
        assert Count(s, t) == 1 + CountFrom(s, t, i + |t|);
        if rest.None? {
          assert CountFrom(s, t, i + |t|) == 0;
          assert ClusteredAt(s, t, i);
        } else {
          assert At(s, t, rest.value) && At(s, t, i);
          assert CountFrom(s, t, i + |t|) >= 1;
        }
    }
  }

  /** An edit that passes validation rewrites the leftmost hit and nothing else. */
  lemma EditIsExact(s: string, old_: string, new_: string) returns (before: string, after: string)
    requires Count(s, old_) == 1
    ensures s == before + old_ + after
    ensures ReplaceFirst(s, old_, new_) == before + new_ + after
    ensures ClusteredAt(s, old_, |before|)
  {
    CountIsOne(s, old_);
    var i :| ClusteredAt(s, old_, i);
    var f := Find(s, old_, 0).value;
    assert f == i;
    before, after := s[..i], s[i + |old_|..];
    assert s == s[..i] + s[i..i + |old_|] + s[i + |old_|..];
  }

  lemma OnceCountsOne(s: string, t: string)
    requires Once(s, t)
    ensures Count(s, t) == 1
  {
    var i :| At(s, t, i) && forall k :: At(s, t, k) ==> k == i;
    assert ClusteredAt(s, t, i);
    CountIsOne(s, t);
  }

  /** The reverse edit passes validation and restores the text when the new text starts at one position only. */
  lemma UndoRestores(s: string, old_: string, new_: string)
    requires Count(s, old_) == 1
    requires Once(ReplaceFirst(s, old_, new_), new_)
    ensures Count(ReplaceFirst(s, old_, new_), new_) == 1
    ensures ReplaceFirst(ReplaceFirst(s, old_, new_), new_, old_) == s
  {
    var before, after := EditIsExact(s, old_, new_);
    var r := before + new_ + after;
    assert r[|before|..|before| + |new_|] == new_;
    assert At(r, new_, |before|);
    OnceCountsOne(r, new_);
    var f := Find(r, new_, 0).value;
    assert f == |before|;
    assert r[..f] == before && r[f + |new_|..] == after;
  }

  /** `t` has a proper nonempty prefix that is also its suffix, so two hits of `t` can overlap. */
  ghost predicate Bordered(t: string) {
    exists b :: 0 < b < |t| && t[..b] == t[|t| - b..]
  }

  lemma OverlapGivesBorder(s: string, t: string, i: int, k: int)
    requires At(s, t, i) && At(s, t, k) && i < k < i + |t|
    ensures Bordered(t)
  {
    var b := i + |t| - k;
    assert t[..b] == s[k..k + |t|][..b] == s[k..i + |t|];
    assert t[|t| - b..] == s[i..i + |t|][|t| - b..] == s[k..i + |t|];
  }

  lemma BorderedCountsOverlapOnce(t: string) returns (s: string)
    requires Bordered(t)
    ensures Count(s, t) == 1 && !Once(s, t)
  {
    var b :| 0 < b < |t| && t[..b] == t[|t| - b..];
    var d := |t| - b;
    s := t + t[b..];
    assert s[0..|t|] == t;
    assert s[d..d + |t|] == t[d..] + t[b..] == t[..b] + t[b..] == t;
    assert At(s, t, 0) && At(s, t, d);
    assert ClusteredAt(s, t, 0);
    CountIsOne(s, t);
  }

  /**
   * The documentation promises that `old_str` occurs exactly once. The guard `count == 1` means
   * that for every text exactly when `old_str` has no border.
   */
  lemma GuardMeansOnceIffUnbordered(t: string)
    ensures (forall s :: Count(s, t) == 1 <==> Once(s, t)) <==> !Bordered(t)
  {
    if Bordered(t) {
      var s := BorderedCountsOverlapOnce(t);
    } else {
      forall s ensures Count(s, t) == 1 <==> Once(s, t) {
        if Once(s, t) {
          OnceCountsOne(s, t);
        }
        if Count(s, t) == 1 {
          CountIsOne(s, t);
          var i :| ClusteredAt(s, t, i);
          forall k | At(s, t, k) ensures k == i {
            if k != i { OverlapGivesBorder(s, t, i, k); }
          }
        }
      }
    }
  }
}
