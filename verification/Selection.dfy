/** Python's `max` over a filtered list: the first element of the highest score. */
module Selection {
  import opened Base

  function FirstMax<T>(xs: seq<T>, score: T -> int): Option<T> {
    if xs == [] then None
    else
      var best := FirstMax(xs[..|xs| - 1], score);
      var last := xs[|xs| - 1];
      if best.None? || score(last) > score(best.value) then Some(last) else best
  }

  ghost predicate Kept<T>(xs: seq<T>, keep: T -> bool, i: int) {
    0 <= i < |xs| && keep(xs[i])
  }

  /** Element i is kept, no other kept one scores more, and earlier kept ones score less. */
  ghost predicate Top<T>(xs: seq<T>, keep: T -> bool, score: T -> int, i: int) {
    && Kept(xs, keep, i)
    && (forall j :: Kept(xs, keep, j) ==> score(xs[j]) <= score(xs[i]))
    && (forall j :: j < i && Kept(xs, keep, j) ==> score(xs[j]) < score(xs[i]))
  }

  lemma TopIsUnique<T>(xs: seq<T>, keep: T -> bool, score: T -> int, i: int, j: int)
    requires Top(xs, keep, score, i) && Top(xs, keep, score, j)
    ensures i == j
  {}

  lemma FilterSnoc<T(!new)>(xs: seq<T>, x: T, keep: T -> bool)
    ensures Filter(xs + [x], keep) == Filter(xs, keep) + if keep(x) then [x] else []
  {
    FilterConcat(xs, [x], keep);
  }

  lemma FirstMaxSnoc<T>(xs: seq<T>, x: T, score: T -> int)
    ensures FirstMax(xs + [x], score) ==
              var best := FirstMax(xs, score);
              if best.None? || score(x) > score(best.value) then Some(x) else best
  {
    assert (xs + [x])[..|xs|] == xs;
  }

  ghost predicate AnyKept<T>(xs: seq<T>, keep: T -> bool) {
    exists j :: Kept(xs, keep, j)
  }

  lemma TopStays<T>(xs: seq<T>, x: T, keep: T -> bool, score: T -> int, i: int)
    requires Top(xs, keep, score, i) && (keep(x) ==> score(x) <= score(xs[i]))
    ensures Top(xs + [x], keep, score, i)
  {
    forall j | Kept(xs + [x], keep, j) ensures j < |xs| ==> Kept(xs, keep, j) {}
  }

  lemma TopMoves<T>(xs: seq<T>, x: T, keep: T -> bool, score: T -> int, i: int)
    requires keep(x) && (AnyKept(xs, keep) ==> Top(xs, keep, score, i) && score(x) > score(xs[i]))
    ensures Top(xs + [x], keep, score, |xs|)
  {
    forall j | Kept(xs + [x], keep, j) && j < |xs| ensures score((xs + [x])[j]) < score(x) {
      assert Kept(xs, keep, j);
    }
  }

  lemma AnyKeptSnoc<T>(xs: seq<T>, x: T, keep: T -> bool)
    ensures AnyKept(xs + [x], keep) <==> AnyKept(xs, keep) || keep(x)
  {
    if AnyKept(xs, keep) {
      var j :| Kept(xs, keep, j);
      assert Kept(xs + [x], keep, j);
    } else if keep(x) {
      assert Kept(xs + [x], keep, |xs|);
    } else {
      forall j | Kept(xs + [x], keep, j) ensures Kept(xs, keep, j) {}
    }
  }

  /** `max` over the kept elements is the element at the top position. */
  lemma {:induction false} MaxIsTop<T(!new)>(xs: seq<T>, keep: T -> bool, score: T -> int) returns (i: int)
    ensures AnyKept(xs, keep) ==>
              Top(xs, keep, score, i) && FirstMax(Filter(xs, keep), score) == Some(xs[i])
    ensures !AnyKept(xs, keep) ==> Filter(xs, keep) == []
  {
    i := 0;
    if xs != [] {
      var front, last := xs[..|xs| - 1], xs[|xs| - 1];
      assert xs == front + [last];
      i := MaxIsTop(front, keep, score);
      i := MaxIsTopSnoc(front, last, keep, score, i);
    }
  }

  lemma MaxIsTopSnoc<T(!new)>(xs: seq<T>, x: T, keep: T -> bool, score: T -> int, i: int) returns (i': int)
    requires AnyKept(xs, keep) ==> Top(xs, keep, score, i) && FirstMax(Filter(xs, keep), score) == Some(xs[i])
    requires !AnyKept(xs, keep) ==> Filter(xs, keep) == []
    ensures AnyKept(xs + [x], keep) ==>
              Top(xs + [x], keep, score, i') && FirstMax(Filter(xs + [x], keep), score) == Some((xs + [x])[i'])
    ensures !AnyKept(xs + [x], keep) ==> Filter(xs + [x], keep) == []
  {
    FilterSnoc(xs, x, keep);
    AnyKeptSnoc(xs, x, keep);
    i' := i;
    if keep(x) {
      FirstMaxSnoc(Filter(xs, keep), x, score);
      if AnyKept(xs, keep) && score(x) <= score(xs[i]) {
        TopStays(xs, x, keep, score, i);
      } else {
        TopMoves(xs, x, keep, score, i);
        i' := |xs|;
      }
    } else {
      assert Filter(xs, keep) + [] == Filter(xs, keep);
      if AnyKept(xs, keep) { TopStays(xs, x, keep, score, i); }
    }
  }

  /** Taking out an element that is not kept, or scores less than another kept one, changes no maximum. */
  lemma DroppedIsNotMissed<T(!new)>(a: seq<T>, x: T, b: seq<T>, keep: T -> bool, score: T -> int)
    requires !keep(x) || exists y :: y in a + b && keep(y) && score(y) > score(x)
    ensures FirstMax(Filter(a + [x] + b, keep), score) == FirstMax(Filter(a + b, keep), score)
  {
    var with, without := a + [x] + b, a + b;
    if !keep(x) {
      FilterConcat(a + [x], b, keep);
      FilterSnoc(a, x, keep);
      FilterConcat(a, b, keep);
      assert Filter(a, keep) + [] == Filter(a, keep);
    } else {
      var y :| y in without && keep(y) && score(y) > score(x);
      var k :| 0 <= k < |without| && without[k] == y;
      assert Kept(without, keep, k);
      var i := MaxIsTop(without, keep, score);
      var i' := if i < |a| then i else i + 1;
      TopSurvivesInsert(a, x, b, keep, score, i);
      var j := MaxIsTop(with, keep, score);
      TopIsUnique(with, keep, score, i', j);
    }
  }

  lemma TopSurvivesInsert<T>(a: seq<T>, x: T, b: seq<T>, keep: T -> bool, score: T -> int, i: int)
    requires Top(a + b, keep, score, i) && score(x) < score((a + b)[i])
    ensures var i' := if i < |a| then i else i + 1;
            Top(a + [x] + b, keep, score, i') && (a + [x] + b)[i'] == (a + b)[i]
  {
    var with, without := a + [x] + b, a + b;
    var i' := if i < |a| then i else i + 1;
    forall j | Kept(with, keep, j) && j != |a|
      ensures score(with[j]) <= score(with[i']) && (j < i' ==> score(with[j]) < score(with[i']))
    {
      var k := if j < |a| then j else j - 1;
      assert with[j] == without[k] && Kept(without, keep, k);
    }
  }

  /** Kept elements of the highest score agree on `value`. */
  ghost predicate TiesAgree<T(!new), V>(xs: seq<T>, keep: T -> bool, score: T -> int, value: T -> V) {
    forall x, y ::
      x in xs && y in xs && keep(x) && keep(y) && Highest(xs, keep, score, x) && Highest(xs, keep, score, y) ==>
        value(x) == value(y)
  }

  ghost predicate Highest<T(!new)>(xs: seq<T>, keep: T -> bool, score: T -> int, x: T) {
    forall z :: z in xs && keep(z) ==> score(z) <= score(x)
  }

  lemma MaxIsHighest<T(!new)>(xs: seq<T>, keep: T -> bool, score: T -> int) returns (m: Option<T>)
    ensures m == FirstMax(Filter(xs, keep), score)
    ensures m.Some? ==> m.value in xs && keep(m.value) && Highest(xs, keep, score, m.value)
    ensures m.None? <==> forall x :: x in xs ==> !keep(x)
  {
    var i := MaxIsTop(xs, keep, score);
    m := FirstMax(Filter(xs, keep), score);
    if AnyKept(xs, keep) {
      forall z | z in xs && keep(z) ensures score(z) <= score(xs[i]) {
        var j :| 0 <= j < |xs| && xs[j] == z;
        assert Kept(xs, keep, j);
      }
      assert xs[i] in xs;
    } else {
      forall x | x in xs ensures !keep(x) {
        var j :| 0 <= j < |xs| && xs[j] == x;
        assert !Kept(xs, keep, j);
      }
    }
  }

  /** With agreeing ties only the set of elements matters: order and repetition do not. */
  lemma OnlyTheSetMatters<T(!new), V>(xs: seq<T>, ys: seq<T>, keep: T -> bool, score: T -> int, value: T -> V)
    requires forall x :: x in xs <==> x in ys
    requires TiesAgree(xs, keep, score, value)
    ensures var a, b := FirstMax(Filter(xs, keep), score), FirstMax(Filter(ys, keep), score);
            (a.None? <==> b.None?) && (a.Some? ==> value(a.value) == value(b.value))
  {
    var a := MaxIsHighest(xs, keep, score);
    var b := MaxIsHighest(ys, keep, score);
    if a.Some? && b.Some? {
      assert Highest(xs, keep, score, b.value);
    }
  }

  /** A kept element of the highest score is the maximum once it stands in front. */
  lemma FrontWins<T(!new)>(xs: seq<T>, keep: T -> bool, score: T -> int)
    requires xs != [] && keep(xs[0]) && Highest(xs, keep, score, xs[0])
    ensures FirstMax(Filter(xs, keep), score) == Some(xs[0])
  {
    var i := MaxIsTop(xs, keep, score);
    assert Top(xs, keep, score, 0);
    assert AnyKept(xs, keep) by { assert Kept(xs, keep, 0); }
    TopIsUnique(xs, keep, score, i, 0);
  }
}
