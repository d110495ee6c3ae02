/** Python's `sorted`.

    An insertion sort stands for it, since only three facts about the result matter: it is in order, it has
    the same elements, and elements that are level keep their order.

    The order is a parameter and must be a total preorder, as every key function makes one. `Level` picks out
    the elements that are level with a given one, which is how stability is stated. */
module Sorting {

  ghost predicate IsPreorder<T(!new)>(leq: (T, T) -> bool) {
    && (forall a, b :: leq(a, b) || leq(b, a))
    && (forall a, b, c :: leq(a, b) && leq(b, c) ==> leq(a, c))
  }

  ghost predicate Ordered<T>(s: seq<T>, leq: (T, T) -> bool) {
    forall i, j | 0 <= i < j < |s| :: leq(s[i], s[j])
  }

  /** Puts `x` behind everything that is not above it. */
  function Insert<T>(s: seq<T>, x: T, leq: (T, T) -> bool): seq<T> {
    if s == [] || leq(s[|s| - 1], x) then s + [x] else Insert(s[..|s| - 1], x, leq) + [s[|s| - 1]]
  }

  function Sort<T>(s: seq<T>, leq: (T, T) -> bool): seq<T> {
    if s == [] then [] else Insert(Sort(s[..|s| - 1], leq), s[|s| - 1], leq)
  }

  /** The elements that are level with `x`, in order. */
  function Level<T>(s: seq<T>, x: T, leq: (T, T) -> bool): seq<T> {
    if s == [] then []
    else
      var before, last := Level(s[..|s| - 1], x, leq), s[|s| - 1];
      if leq(last, x) && leq(x, last) then before + [last] else before
  }

  lemma {:induction false} InsertElements<T(!new)>(s: seq<T>, x: T, leq: (T, T) -> bool)
    ensures multiset(Insert(s, x, leq)) == multiset(s + [x])
  {
    if s != [] && !leq(s[|s| - 1], x) {
      var n := |s| - 1;
      var init, last := s[..n], s[n];
      InsertElements(init, x, leq);
      assert s + [x] == init + ([last] + [x]) && init + ([x] + [last]) == (init + [x]) + [last];
      assert multiset([last] + [x]) == multiset([x] + [last]);
      hide Insert;
      assert multiset(s + [x]) == multiset((init + [x]) + [last]);
    }
  }

  lemma InsertMember<T(!new)>(s: seq<T>, x: T, leq: (T, T) -> bool, e: T)
    requires e in Insert(s, x, leq)
    ensures e in s || e == x
  {
    InsertElements(s, x, leq);
    assert e in multiset(Insert(s, x, leq));
    assert e in multiset(s + [x]);
    assert e in s + [x];
  }

  lemma {:induction false} InsertOrdered<T(!new)>(s: seq<T>, x: T, leq: (T, T) -> bool)
    requires IsPreorder(leq) && Ordered(s, leq)
    ensures Ordered(Insert(s, x, leq), leq)
  {
    if s != [] {
      var n := |s| - 1;
      var init, last := s[..n], s[n];
      if leq(last, x) {
        BelowLast(s, x, leq);
      } else {
        InsertOrdered(init, x, leq);
        var r := Insert(init, x, leq);
        forall e | e in r ensures leq(e, last) {
          InsertMember(init, x, leq, e);
          assert e in init ==> leq(e, last);
        }
      }
    }
  }

  lemma BelowLast<T(!new)>(s: seq<T>, x: T, leq: (T, T) -> bool)
    requires IsPreorder(leq) && Ordered(s, leq) && s != [] && leq(s[|s| - 1], x)
    ensures Ordered(s + [x], leq)
  {
    forall i | 0 <= i < |s| ensures leq(s[i], x) {
      assert i < |s| - 1 ==> leq(s[i], s[|s| - 1]);
    }
  }

  lemma InsertFacts<T(!new)>(s: seq<T>, x: T, leq: (T, T) -> bool)
    requires IsPreorder(leq) && Ordered(s, leq)
    ensures Ordered(Insert(s, x, leq), leq) && multiset(Insert(s, x, leq)) == multiset(s + [x])
  {
    InsertOrdered(s, x, leq);
    InsertElements(s, x, leq);
  }

  lemma {:induction false} InsertLevel<T(!new)>(s: seq<T>, x: T, y: T, leq: (T, T) -> bool)
    requires IsPreorder(leq) && Ordered(s, leq)
    ensures Level(Insert(s, x, leq), y, leq) == Level(s + [x], y, leq)
  {
    assert (s + [x])[..|s|] == s;
    if s != [] && !leq(s[|s| - 1], x) {
      var n := |s| - 1;
      var init, last := s[..n], s[n];
      InsertLevel(init, x, y, leq);
      var r := Insert(init, x, leq);
      assert (r + [last])[..|r|] == r && (init + [x])[..n] == init;
    }
  }

  /** The result is in order and has the same elements; elements that are level keep their order. */
  lemma {:induction false} SortFacts<T(!new)>(s: seq<T>, leq: (T, T) -> bool)
    requires IsPreorder(leq)
    ensures Ordered(Sort(s, leq), leq) && multiset(Sort(s, leq)) == multiset(s)
    ensures forall y :: Level(Sort(s, leq), y, leq) == Level(s, y, leq)
  {
    if s != [] {
      var n := |s| - 1;
      SortFacts(s[..n], leq);
      InsertFacts(Sort(s[..n], leq), s[n], leq);
      assert s == s[..n] + [s[n]];
      assert multiset(Sort(s[..n], leq) + [s[n]]) == multiset(s);
      forall y ensures Level(Sort(s, leq), y, leq) == Level(s, y, leq) {
        hide IsPreorder, Ordered;
        InsertLevel(Sort(s[..n], leq), s[n], y, leq);
        LevelSnoc(Sort(s[..n], leq), s[n], y, leq);
      }
    }
  }

  lemma LevelSnoc<T(!new)>(s: seq<T>, x: T, y: T, leq: (T, T) -> bool)
    ensures Level(s + [x], y, leq) == if leq(x, y) && leq(y, x) then Level(s, y, leq) + [x] else Level(s, y, leq)
  {
    assert (s + [x])[..|s|] == s;
  }

  /** Sorting leaves a sorted list alone. */
  lemma {:induction false} SortKeepsOrdered<T(!new)>(s: seq<T>, leq: (T, T) -> bool)
    requires IsPreorder(leq) && Ordered(s, leq)
    ensures Sort(s, leq) == s
  {
    if s != [] {
      var n := |s| - 1;
      SortKeepsOrdered(s[..n], leq);
      assert s == s[..n] + [s[n]];
      assert n > 0 ==> leq(s[n - 1], s[n]);
    }
  }

  lemma SortMembers<T(!new)>(s: seq<T>, leq: (T, T) -> bool)
    requires IsPreorder(leq)
    ensures |Sort(s, leq)| == |s| && forall x :: x in Sort(s, leq) <==> x in s
  {
    SortFacts(s, leq);
    assert |multiset(Sort(s, leq))| == |multiset(s)|;
    forall x ensures x in Sort(s, leq) <==> x in s {
      assert x in Sort(s, leq) <==> x in multiset(Sort(s, leq));
    }
  }
}
