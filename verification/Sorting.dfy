/** The stable sort the standard library of JavaScript promises, as insertion from the left. */
module Sorting {

  /** An order given by what may stand before what: total and transitive. */
  ghost predicate Ordering<T(!new)>(before: (T, T) -> bool) {
    && (forall a, b :: before(a, b) || before(b, a))
    && (forall a, b, c :: before(a, b) && before(b, c) ==> before(a, c))
  }

  ghost predicate InOrder<T>(s: seq<T>, before: (T, T) -> bool) {
    forall i, j :: 0 <= i < j < |s| ==> before(s[i], s[j])
  }

  /** Places an element behind all elements that may stand before it. */
  function Inserted<T>(e: T, sorted: seq<T>, before: (T, T) -> bool): seq<T> {
    if sorted == [] then [e]
    else if before(sorted[|sorted| - 1], e) then sorted + [e]
    else Inserted(e, sorted[..|sorted| - 1], before) + [sorted[|sorted| - 1]]
  }

  function Sorted<T>(s: seq<T>, before: (T, T) -> bool): seq<T> {
    if s == [] then [] else Inserted(s[|s| - 1], Sorted(s[..|s| - 1], before), before)
  }

  lemma AllButLast<T>(s: seq<T>)
    requires s != []
    ensures multiset(s) == multiset(s[..|s| - 1]) + multiset{s[|s| - 1]}
  {
    assert s == s[..|s| - 1] + [s[|s| - 1]];
  }

  lemma {:induction false} InsertedAddsOne<T>(e: T, sorted: seq<T>, before: (T, T) -> bool)
    ensures multiset(Inserted(e, sorted, before)) == multiset(sorted) + multiset{e}
  {
    if sorted == [] || before(sorted[|sorted| - 1], e) {
    } else {
      var init, last := sorted[..|sorted| - 1], sorted[|sorted| - 1];
      InsertedAddsOne(e, init, before);
      AllButLast(sorted);
      assert multiset(init) + multiset{e} + multiset{last} == multiset(init) + multiset{last} + multiset{e};
    }
  }

  lemma InsertedElement<T>(e: T, sorted: seq<T>, before: (T, T) -> bool, x: T)
    requires x in Inserted(e, sorted, before)
    ensures x == e || x in sorted
  {
    InsertedAddsOne(e, sorted, before);
    assert x in multiset(Inserted(e, sorted, before));
  }

  lemma {:induction false} InsertedIsInOrder<T(!new)>(e: T, sorted: seq<T>, before: (T, T) -> bool)
    requires Ordering(before) && InOrder(sorted, before)
    ensures InOrder(Inserted(e, sorted, before), before)
  {
    if sorted == [] {
    } else {
      var init, last := sorted[..|sorted| - 1], sorted[|sorted| - 1];
      if before(last, e) {
        forall i | 0 <= i < |sorted| ensures before(sorted[i], e) {
          assert i < |init| ==> before(sorted[i], last);
        }
      } else {
        InsertedIsInOrder(e, init, before);
        forall i | 0 <= i < |Inserted(e, init, before)| ensures before(Inserted(e, init, before)[i], last) {
          InsertedElement(e, init, before, Inserted(e, init, before)[i]);
        }
      }
    }
  }

  lemma {:induction false} SortedIsInOrder<T(!new)>(s: seq<T>, before: (T, T) -> bool)
    requires Ordering(before)
    ensures InOrder(Sorted(s, before), before)
  {
    if s == [] {
    } else {
      SortedIsInOrder(s[..|s| - 1], before);
      InsertedIsInOrder(s[|s| - 1], Sorted(s[..|s| - 1], before), before);
    }
  }

  lemma {:induction false} SortedIsPermutation<T>(s: seq<T>, before: (T, T) -> bool)
    ensures multiset(Sorted(s, before)) == multiset(s)
  {
    if s == [] {
    } else {
      SortedIsPermutation(s[..|s| - 1], before);
      InsertedAddsOne(s[|s| - 1], Sorted(s[..|s| - 1], before), before);
      AllButLast(s);
    }
  }

  predicate Tied<T>(a: T, b: T, before: (T, T) -> bool) {
    before(a, b) && before(b, a)
  }

  /** The elements that tie with `x`, in order. */
  function Ties<T>(s: seq<T>, x: T, before: (T, T) -> bool): seq<T> {
    if s == [] then []
    else
      var init, last := Ties(s[..|s| - 1], x, before), s[|s| - 1];
      if Tied(last, x, before) then init + [last] else init
  }

  lemma {:induction false} InsertedKeepsTies<T(!new)>(e: T, sorted: seq<T>, x: T, before: (T, T) -> bool)
    requires Ordering(before) && InOrder(sorted, before)
    ensures Ties(Inserted(e, sorted, before), x, before)
         == Ties(sorted, x, before) + if Tied(e, x, before) then [e] else []
  {
    if sorted == [] {
      assert [e][..0] == [];
    } else {
      var init, last := sorted[..|sorted| - 1], sorted[|sorted| - 1];
      if before(last, e) {
        assert (sorted + [e])[..|sorted|] == sorted;
      } else {
        InsertedKeepsTies(e, init, x, before);
        var longer := Inserted(e, init, before) + [last];
        assert longer[..|longer| - 1] == Inserted(e, init, before);
        if Tied(e, x, before) && Tied(last, x, before) {
          assert false;
        }
      }
    }
  }

  /** Sorting leaves the elements that tie with each other as they were. */
  lemma {:induction false} SortedIsStable<T(!new)>(s: seq<T>, x: T, before: (T, T) -> bool)
    requires Ordering(before)
    ensures Ties(Sorted(s, before), x, before) == Ties(s, x, before)
  {
    if s == [] {
    } else {
      var init, last := s[..|s| - 1], s[|s| - 1];
      SortedIsStable(init, x, before);
      SortedIsInOrder(init, before);
      InsertedKeepsTies(last, Sorted(init, before), x, before);
    }
  }
}
