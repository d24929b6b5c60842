/** Filtering, ordering and searching lists: what the database's WHERE and ORDER BY clauses, a stable
    sort and a search loop have in common. */
module Listing {
  import opened Strings

  function Filter<T>(s: seq<T>, keep: T -> bool): (r: seq<T>)
    ensures |r| <= |s|
  {
    if s == [] then [] else if keep(s[0]) then [s[0]] + Filter(s[1..], keep) else Filter(s[1..], keep)
  }

  function Map<T, U>(s: seq<T>, f: T -> U): (r: seq<U>)
    ensures |r| == |s| && forall i :: 0 <= i < |s| ==> r[i] == f(s[i])
  {
    if s == [] then [] else [f(s[0])] + Map(s[1..], f)
  }

  function First<T>(s: seq<T>, p: T -> bool): Option<T> {
    if s == [] then None else if p(s[0]) then Some(s[0]) else First(s[1..], p)
  }

  /** The list with x in front of everything that does not come before it. */
  function Insert<T>(x: T, s: seq<T>, before: (T, T) -> bool): seq<T> {
    if s == [] || !before(s[0], x) then [x] + s else [s[0]] + Insert(x, s[1..], before)
  }

  /** Stable sorting: elements neither of which comes before the other stay in their order. */
  function Sort<T>(s: seq<T>, before: (T, T) -> bool): seq<T> {
    if s == [] then [] else Insert(s[0], Sort(s[1..], before), before)
  }

  /** A strict weak order: no two elements come before each other, and not coming before is transitive. */
  ghost predicate WeakOrder<T(!new)>(before: (T, T) -> bool) {
    && (forall x, y :: before(x, y) ==> !before(y, x))
    && (forall x, y, z :: !before(y, x) && !before(z, y) ==> !before(z, x))
  }

  ghost predicate Sorted<T(!new)>(s: seq<T>, before: (T, T) -> bool) {
    s == [] || ((forall y :: y in s[1..] ==> !before(y, s[0])) && Sorted(s[1..], before))
  }

  lemma {:induction false} FilterMembers<T(!new)>(s: seq<T>, keep: T -> bool)
    ensures forall x :: x in Filter(s, keep) <==> x in s && keep(x)
  {
    if s != [] {
      FilterMembers(s[1..], keep);
      assert forall x :: x in s <==> x == s[0] || x in s[1..];
    }
  }

  lemma {:induction false} FilterAppend<T>(a: seq<T>, b: seq<T>, keep: T -> bool)
    ensures Filter(a + b, keep) == Filter(a, keep) + Filter(b, keep)
  {
    hide Filter;
    if a == [] {
      assert a + b == b;
      FilterNone(a, keep);
    } else {
      FilterAppend(a[1..], b, keep);
      assert (a + b)[0] == a[0] && (a + b)[1..] == a[1..] + b;
      FilterStep(a, keep);
      FilterStep(a + b, keep);
      var x, fa, fb := [a[0]], Filter(a[1..], keep), Filter(b, keep);
      assert x + (fa + fb) == x + fa + fb;
    }
  }

  lemma FilterStep<T>(s: seq<T>, keep: T -> bool)
    requires s != []
    ensures Filter(s, keep) == if keep(s[0]) then [s[0]] + Filter(s[1..], keep) else Filter(s[1..], keep)
  {
  }

  lemma FilterNone<T>(s: seq<T>, keep: T -> bool)
    requires s == []
    ensures Filter(s, keep) == []
  {
  }

  lemma FilterLast<T>(s: seq<T>, i: nat, keep: T -> bool)
    requires i < |s|
    ensures Filter(s[..i + 1], keep) == if keep(s[i]) then Filter(s[..i], keep) + [s[i]] else Filter(s[..i], keep)
  {
    assert s[..i + 1] == s[..i] + [s[i]];
    FilterAppend(s[..i], [s[i]], keep);
  }

  lemma MapLast<T, U>(s: seq<T>, x: T, f: T -> U)
    ensures Map(s + [x], f) == Map(s, f) + [f(x)]
  {
  }

  lemma {:induction false} InsertMembers<T(!new)>(x: T, s: seq<T>, before: (T, T) -> bool)
    ensures forall y :: y in Insert(x, s, before) <==> y == x || y in s
  {
    if s != [] && before(s[0], x) {
      InsertMembers(x, s[1..], before);
      assert forall y :: y in s <==> y == s[0] || y in s[1..];
    }
  }

  lemma {:induction false} SortMembers<T(!new)>(s: seq<T>, before: (T, T) -> bool)
    ensures forall y :: y in Sort(s, before) <==> y in s
  {
    if s != [] {
      SortMembers(s[1..], before);
      InsertMembers(s[0], Sort(s[1..], before), before);
      assert forall y :: y in s <==> y == s[0] || y in s[1..];
    }
  }

  lemma {:induction false} InsertSorted<T(!new)>(x: T, s: seq<T>, before: (T, T) -> bool)
    requires WeakOrder(before) && Sorted(s, before)
    ensures Sorted(Insert(x, s, before), before)
  {
    if s != [] && before(s[0], x) {
      InsertSorted(x, s[1..], before);
      InsertMembers(x, s[1..], before);
    } else {
      assert ([x] + s)[1..] == s;
      forall y | y in s
        ensures !before(y, x)
      {
        assert y == s[0] || y in s[1..];
      }
    }
  }

  lemma {:induction false} SortSorted<T(!new)>(s: seq<T>, before: (T, T) -> bool)
    requires WeakOrder(before)
    ensures Sorted(Sort(s, before), before)
  {
    if s != [] {
      SortSorted(s[1..], before);
      InsertSorted(s[0], Sort(s[1..], before), before);
    }
  }

  /** r is one of the elements with p that no other element with p comes before; or there is none. */
  ghost predicate IsChoice<T(!new)>(s: seq<T>, p: T -> bool, before: (T, T) -> bool, r: Option<T>) {
    match r
    case None => forall x :: x in s ==> !p(x)
    case Some(best) => best in s && p(best) && forall x :: x in s && p(x) ==> !before(x, best)
  }

  /** Searching the sorted list from the front makes such a choice. */
  lemma FirstIsChoice<T(!new)>(s: seq<T>, p: T -> bool, before: (T, T) -> bool)
    requires WeakOrder(before)
    ensures IsChoice(s, p, before, First(Sort(s, before), p))
  {
    SortSorted(s, before);
    SortMembers(s, before);
    FirstInSorted(Sort(s, before), p, before);
  }

  lemma {:induction false} FirstInSorted<T(!new)>(s: seq<T>, p: T -> bool, before: (T, T) -> bool)
    requires WeakOrder(before) && Sorted(s, before)
    ensures IsChoice(s, p, before, First(s, p))
  {
    if s != [] {
      assert forall y :: y in s <==> y == s[0] || y in s[1..];
      if !p(s[0]) {
        FirstInSorted(s[1..], p, before);
      }
    }
  }

  /** Selecting from the sorted list is sorting the selection, when the two orders agree on what is
      selected. */
  lemma {:induction false} FilterOfSort<T(!new)>(s: seq<T>, keep: T -> bool, before: (T, T) -> bool, within: (T, T) -> bool)
    requires WeakOrder(before)
    requires forall x, y :: keep(x) && keep(y) ==> before(x, y) == within(x, y)
    ensures Filter(Sort(s, before), keep) == Sort(Filter(s, keep), within)
  {
    if s != [] {
      FilterOfSort(s[1..], keep, before, within);
      SortSorted(s[1..], before);
      FilterOfInsert(s[0], Sort(s[1..], before), keep, before, within);
      assert keep(s[0]) ==> Filter(s, keep)[1..] == Filter(s[1..], keep);
    }
  }

  lemma {:induction false} FilterOfInsert<T(!new)>(x: T, s: seq<T>, keep: T -> bool, before: (T, T) -> bool, within: (T, T) -> bool)
    requires WeakOrder(before) && Sorted(s, before)
    requires forall x, y :: keep(x) && keep(y) ==> before(x, y) == within(x, y)
    ensures Filter(Insert(x, s, before), keep) ==
            if keep(x) then Insert(x, Filter(s, keep), within) else Filter(s, keep)
  {
    if s != [] && before(s[0], x) {
      FilterOfInsert(x, s[1..], keep, before, within);
      assert Insert(x, s, before)[1..] == Insert(x, s[1..], before);
      assert keep(s[0]) ==> Filter(s, keep)[1..] == Filter(s[1..], keep);
    } else {
      assert ([x] + s)[1..] == s;
      if keep(x) && Filter(s, keep) != [] {
        var y := Filter(s, keep)[0];
        FilterMembers(s, keep);
        assert y in Filter(s, keep);
        assert y == s[0] || y in s[1..];
        assert !before(y, x);
      }
    }
  }

  lemma {:induction false} InsertCounts<T>(x: T, s: seq<T>, before: (T, T) -> bool)
    ensures multiset(Insert(x, s, before)) == multiset(s) + multiset{x}
  {
    if s != [] && before(s[0], x) {
      InsertCounts(x, s[1..], before);
      assert s == [s[0]] + s[1..];
    }
  }

  /** Sorting loses nothing and adds nothing, and neither does it repeat anything. */
  lemma {:induction false} SortCounts<T>(s: seq<T>, before: (T, T) -> bool)
    ensures multiset(Sort(s, before)) == multiset(s)
  {
    if s != [] {
      SortCounts(s[1..], before);
      InsertCounts(s[0], Sort(s[1..], before), before);
      assert s == [s[0]] + s[1..];
    }
  }

  /** Selecting keeps every occurrence of what is selected and none of what is not. */
  lemma {:induction false} FilterCounts<T>(s: seq<T>, keep: T -> bool, x: T)
    ensures multiset(Filter(s, keep))[x] == if keep(x) then multiset(s)[x] else 0
  {
    if s != [] {
      FilterCounts(s[1..], keep, x);
      assert s == [s[0]] + s[1..];
    }
  }

  /** What the definition of sortedness is meant to say. */
  lemma {:induction false} SortedMeaning<T(!new)>(s: seq<T>, before: (T, T) -> bool, i: nat, j: nat)
    requires Sorted(s, before) && i < j < |s|
    ensures !before(s[j], s[i])
  {
    if i > 0 {
      SortedMeaning(s[1..], before, i - 1, j - 1);
    } else {
      assert s[j] in s[1..];
    }
  }
}
