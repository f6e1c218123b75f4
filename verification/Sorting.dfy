/** What `sort` and `dedup` of the standard library promise, for a total preorder on keys. */
module Sorting {

  /** Stable insertion sort: `le(a, b)` when `a` may stand before `b`. */
  function Sort<T>(s: seq<T>, le: (T, T) -> bool): (r: seq<T>)
    ensures multiset(r) == multiset(s)
  {
    if s == [] then []
    else
      assert s == s[..|s| - 1] + [s[|s| - 1]];
      Insert(Sort(s[..|s| - 1], le), s[|s| - 1], le)
  }

  function Insert<T>(s: seq<T>, x: T, le: (T, T) -> bool): (r: seq<T>)
    ensures multiset(r) == multiset(s) + multiset{x}
  {
    if s == [] then [x]
    else if le(s[|s| - 1], x) then s + [x]
    else
      assert s == s[..|s| - 1] + [s[|s| - 1]];
      Insert(s[..|s| - 1], x, le) + [s[|s| - 1]]
  }

  ghost predicate TotalPreorder<T(!new)>(le: (T, T) -> bool) {
    && (forall a, b :: le(a, b) || le(b, a))
    && (forall a, b, c :: le(a, b) && le(b, c) ==> le(a, c))
  }

  ghost predicate Sorted<T>(s: seq<T>, le: (T, T) -> bool) {
    forall i, j :: 0 <= i < j < |s| ==> le(s[i], s[j])
  }

  lemma SameElements<T>(s: seq<T>, r: seq<T>)
    requires multiset(s) == multiset(r)
    ensures |s| == |r|
    ensures forall x :: x in s <==> x in r
  {
    assert |multiset(s)| == |s| && |multiset(r)| == |r|;
    forall x
      ensures x in s <==> x in r
    {
      assert x in multiset(s) <==> x in multiset(r);
    }
  }

  lemma {:induction false} InsertSorted<T(!new)>(s: seq<T>, x: T, le: (T, T) -> bool)
    requires TotalPreorder(le) && Sorted(s, le)
    ensures Sorted(Insert(s, x, le), le)
  {
    if s != [] && !le(s[|s| - 1], x) {
      var init, last := s[..|s| - 1], s[|s| - 1];
      InsertSorted(init, x, le);
      var front := Insert(init, x, le);
      forall i | 0 <= i < |front|
        ensures le(front[i], last)
      {
        assert front[i] in multiset(front);
        assert front[i] in multiset(init) || front[i] == x;
      }
    }
  }

  lemma {:induction false} SortSorts<T(!new)>(s: seq<T>, le: (T, T) -> bool)
    requires TotalPreorder(le)
    ensures Sorted(Sort(s, le), le)
  {
    if s != [] {
      SortSorts(s[..|s| - 1], le);
      InsertSorted(Sort(s[..|s| - 1], le), s[|s| - 1], le);
    }
  }

  /** `dedup`: of equal neighbours, the first. */
  function Dedup<T>(s: seq<T>, same: (T, T) -> bool): seq<T> {
    if |s| <= 1 then s
    else
      var init := Dedup(s[..|s| - 1], same);
      if init != [] && same(init[|init| - 1], s[|s| - 1]) then init else init + [s[|s| - 1]]
  }

  lemma DedupStep<T>(init: seq<T>, last: T, same: (T, T) -> bool)
    ensures var front := Dedup(init, same);
            Dedup(init + [last], same)
            == if front != [] && same(front[|front| - 1], last) then front else front + [last]
  {
    var s := init + [last];
    assert s[..|s| - 1] == init;
    if init == [] {
      assert s == [last];
    }
  }

  // ---------- sorted, then deduplicated ----------

  /** `same` is what `le` cannot tell apart. */
  ghost predicate Orders<T(!new)>(le: (T, T) -> bool, same: (T, T) -> bool) {
    TotalPreorder(le) && forall a, b :: same(a, b) <==> le(a, b) && le(b, a)
  }

  ghost predicate Strict<T>(s: seq<T>, le: (T, T) -> bool, same: (T, T) -> bool) {
    forall i, j :: 0 <= i < j < |s| ==> le(s[i], s[j]) && !same(s[i], s[j])
  }

  ghost predicate Has<T(!new)>(r: seq<T>, x: T, same: (T, T) -> bool) {
    exists y :: y in r && same(y, x)
  }

  /** `r` takes its elements from `s` and has one like each of them. */
  ghost predicate Represents<T(!new)>(r: seq<T>, s: seq<T>, same: (T, T) -> bool) {
    && |r| <= |s|
    && (forall x :: x in r ==> x in s)
    && (forall x :: x in s ==> Has(r, x, same))
  }

  lemma SortedInit<T(!new)>(init: seq<T>, last: T, le: (T, T) -> bool)
    requires Sorted(init + [last], le)
    ensures Sorted(init, le)
    ensures forall x :: x in init ==> le(x, last)
  {
    var s := init + [last];
    forall i, j | 0 <= i < j < |init|
      ensures le(init[i], init[j])
    {
      assert le(s[i], s[j]);
    }
    forall x | x in init
      ensures le(x, last)
    {
      var k :| 0 <= k < |init| && init[k] == x;
      assert le(s[k], s[|init|]);
    }
  }

  lemma StrictlyBetween<T(!new)>(a: T, b: T, c: T, le: (T, T) -> bool, same: (T, T) -> bool)
    requires Orders(le, same) && le(a, b) && !same(a, b) && le(b, c)
    ensures le(a, c) && !same(a, c)
  {
    assert same(a, c) ==> le(c, a);
    assert le(c, a) ==> le(b, a);
  }

  /** One step of `dedup` on a sorted list, whatever stands in front. */
  lemma StrictAppend<T(!new)>(front: seq<T>, x: T, le: (T, T) -> bool, same: (T, T) -> bool)
    requires Orders(le, same) && Strict(front, le, same) && front != []
    requires le(front[|front| - 1], x) && !same(front[|front| - 1], x)
    ensures Strict(front + [x], le, same)
  {
    var e := front[|front| - 1];
    forall i | 0 <= i < |front|
      ensures le(front[i], x) && !same(front[i], x)
    {
      if i < |front| - 1 {
        StrictlyBetween(front[i], e, x, le, same);
      }
    }
  }

  lemma RepresentsAppend<T(!new)>(front: seq<T>, init: seq<T>, r: seq<T>, last: T, le: (T, T) -> bool, same: (T, T) -> bool)
    requires Orders(le, same) && Represents(front, init, same)
    requires r == front + [last] || (r == front && r != [] && same(r[|r| - 1], last))
    ensures Represents(r, init + [last], same)
  {
    assert r[|r| - 1] in r && same(r[|r| - 1], last);
    forall x | x in init + [last]
      ensures Has(r, x, same)
    {
      if x in init {
        var y :| y in front && same(y, x);
        assert y in r;
      }
    }
  }

  /** On a sorted list `dedup` leaves a strictly increasing one that represents it. */
  lemma {:induction false} DedupStrict<T(!new)>(s: seq<T>, le: (T, T) -> bool, same: (T, T) -> bool)
    requires Orders(le, same) && Sorted(s, le)
    ensures Strict(Dedup(s, same), le, same) && Represents(Dedup(s, same), s, same)
  {
    if s != [] {
      var init, last := s[..|s| - 1], s[|s| - 1];
      assert s == init + [last];
      SortedInit(init, last, le);
      DedupStrict(init, le, same);
      DedupStep(init, last, same);
      var front := Dedup(init, same);
      if front != [] {
        assert front[|front| - 1] in init;
        if !same(front[|front| - 1], last) {
          StrictAppend(front, last, le, same);
        }
      }
      RepresentsAppend(front, init, Dedup(s, same), last, le, same);
    }
  }

  lemma SortDedup<T(!new)>(s: seq<T>, le: (T, T) -> bool, same: (T, T) -> bool)
    requires Orders(le, same)
    ensures var r := Dedup(Sort(s, le), same);
            Strict(r, le, same) && Represents(r, s, same)
  {
    SortSorts(s, le);
    SameElements(Sort(s, le), s);
    DedupStrict(Sort(s, le), le, same);
  }

  /** Two strictly increasing lists of the same elements are the same list. */
  lemma {:induction false} StrictIsUnique<T(!new)>(a: seq<T>, b: seq<T>, le: (T, T) -> bool, same: (T, T) -> bool)
    requires Orders(le, same) && Strict(a, le, same) && Strict(b, le, same)
    requires forall x :: x in a <==> x in b
    ensures a == b
    decreases |a|
  {
    HasFirst(a);
    HasFirst(b);
    if a != [] {
      LeastAndAlone(a, b[0], le, same);
      LeastAndAlone(b, a[0], le, same);
      forall x
        ensures x in a[1..] <==> x in b[1..]
      {
        StrictRest(a, x, le, same);
        StrictRest(b, x, le, same);
      }
      StrictIsUnique(a[1..], b[1..], le, same);
      assert a == [a[0]] + a[1..] && b == [b[0]] + b[1..];
    }
  }

  lemma HasFirst<T(!new)>(s: seq<T>)
    ensures s != [] <==> exists x :: x in s
    ensures s != [] ==> s[0] in s
  {
    if s != [] {
      assert s[0] in s;
    }
  }

  lemma LeastAndAlone<T(!new)>(s: seq<T>, x: T, le: (T, T) -> bool, same: (T, T) -> bool)
    requires Orders(le, same) && Strict(s, le, same) && x in s
    ensures le(s[0], x)
    ensures same(s[0], x) ==> s[0] == x
  {
    var k :| 0 <= k < |s| && s[k] == x;
    assert le(x, x);
    assert k > 0 ==> le(s[0], s[k]) && !same(s[0], s[k]);
  }

  lemma StrictRest<T(!new)>(a: seq<T>, x: T, le: (T, T) -> bool, same: (T, T) -> bool)
    requires Orders(le, same) && Strict(a, le, same) && a != []
    ensures x in a[1..] <==> x in a && x != a[0]
  {
    assert a == [a[0]] + a[1..];
    if x in a[1..] {
      var k :| 0 <= k < |a[1..]| && a[1..][k] == x;
      assert le(a[0], a[k + 1]) && !same(a[0], a[k + 1]);
      assert le(x, x);
    }
  }
}
