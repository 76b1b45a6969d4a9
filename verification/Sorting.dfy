/** Python's stable sort by a key that is a pair. */
module Sorting {

  predicate KeyBefore(a: (int, int), b: (int, int)) { a.0 < b.0 || (a.0 == b.0 && a.1 < b.1) }

  /** x goes after everything whose key is not greater. */
  function InsertBy<T>(s: seq<T>, key: T -> (int, int), x: T): seq<T> {
    if s == [] || !KeyBefore(key(x), key(s[|s| - 1])) then s + [x]
    else InsertBy(s[..|s| - 1], key, x) + [s[|s| - 1]]
  }

  function SortBy<T>(s: seq<T>, key: T -> (int, int)): seq<T> {
    if s == [] then [] else InsertBy(SortBy(s[..|s| - 1], key), key, s[|s| - 1])
  }

  ghost predicate SortedBy<T(!new)>(s: seq<T>, key: T -> (int, int)) {
    forall i, j :: 0 <= i < j < |s| ==> !KeyBefore(key(s[j]), key(s[i]))
  }

  lemma KeyOrder(a: (int, int), b: (int, int), c: (int, int))
    ensures !KeyBefore(b, a) && !KeyBefore(c, b) ==> !KeyBefore(c, a)
    ensures KeyBefore(a, b) ==> !KeyBefore(b, a)
  {
  }

  lemma {:induction false} InsertKeeps<T(!new)>(s: seq<T>, key: T -> (int, int), x: T)
    ensures |InsertBy(s, key, x)| == |s| + 1 && multiset(InsertBy(s, key, x)) == multiset(s) + multiset{x}
  {
    hide KeyBefore;
    if s == [] || !KeyBefore(key(x), key(s[|s| - 1])) {
    } else {
      InsertKeeps(s[..|s| - 1], key, x);
      assert s == s[..|s| - 1] + [s[|s| - 1]];
    }
  }

  lemma InsertMembers<T(!new)>(s: seq<T>, key: T -> (int, int), x: T)
    ensures forall y :: y in InsertBy(s, key, x) <==> y in s || y == x
  {
    hide KeyBefore, InsertBy;
    InsertKeeps(s, key, x);
    assert forall y :: y in InsertBy(s, key, x) <==> y in multiset(InsertBy(s, key, x));
    assert forall y :: y in s <==> y in multiset(s);
  }

  /** Nothing in the list comes after x. */
  ghost predicate NoneAfter<T(!new)>(s: seq<T>, key: T -> (int, int), x: T) {
    forall y :: y in s ==> !KeyBefore(key(x), key(y))
  }

  lemma SortedAppend<T(!new)>(s: seq<T>, key: T -> (int, int), x: T)
    requires SortedBy(s, key) && NoneAfter(s, key, x)
    ensures SortedBy(s + [x], key)
  {
    hide KeyBefore;
  }

  lemma SortedBound<T(!new)>(s: seq<T>, key: T -> (int, int))
    requires SortedBy(s, key) && s != []
    ensures SortedBy(s[..|s| - 1], key) && NoneAfter(s[..|s| - 1], key, s[|s| - 1])
  {
    hide KeyBefore;
  }

  lemma BoundedAbove<T(!new)>(s: seq<T>, key: T -> (int, int), x: T, y: T)
    requires NoneAfter(s, key, x) && !KeyBefore(key(y), key(x))
    ensures NoneAfter(s, key, y)
  {
    forall z | z in s ensures !KeyBefore(key(y), key(z)) { KeyOrder(key(z), key(x), key(y)); }
  }

  lemma {:induction false} InsertSorts<T(!new)>(s: seq<T>, key: T -> (int, int), x: T)
    requires SortedBy(s, key)
    ensures SortedBy(InsertBy(s, key, x), key)
  {
    hide KeyBefore, SortedBy, NoneAfter;
    if s == [] {
      OneSorted(key, x);
      assert InsertBy(s, key, x) == [x];
    } else {
      var init, last := s[..|s| - 1], s[|s| - 1];
      SortedBound(s, key);
      if KeyBefore(key(x), key(last)) {
        InsertSorts(init, key, x);
        InsertMembers(init, key, x);
        BoundedMore(init, key, last, x);
        SortedAppend(InsertBy(init, key, x), key, last);
      } else {
        BoundedAbove(init, key, last, x);
        assert s == init + [last];
        BoundedLast(init, key, last, x);
        SortedAppend(s, key, x);
      }
    }
  }

  lemma OneSorted<T(!new)>(key: T -> (int, int), x: T)
    ensures SortedBy([x], key)
  {
  }

  lemma BoundedMore<T(!new)>(init: seq<T>, key: T -> (int, int), last: T, x: T)
    requires NoneAfter(init, key, last) && KeyBefore(key(x), key(last))
    ensures NoneAfter(InsertBy(init, key, x), key, last)
  {
    hide KeyBefore;
    InsertMembers(init, key, x);
    KeyOrder(key(x), key(last), key(x));
    forall y | y in InsertBy(init, key, x) ensures !KeyBefore(key(last), key(y)) {
      assert y in init || y == x;
    }
  }

  lemma BoundedLast<T(!new)>(init: seq<T>, key: T -> (int, int), last: T, x: T)
    requires NoneAfter(init, key, x) && !KeyBefore(key(x), key(last))
    ensures NoneAfter(init + [last], key, x)
  {
    hide KeyBefore;
  }

  lemma {:induction false} SortSorts<T(!new)>(s: seq<T>, key: T -> (int, int))
    ensures SortedBy(SortBy(s, key), key) && multiset(SortBy(s, key)) == multiset(s) && |SortBy(s, key)| == |s|
  {
    hide KeyBefore, InsertBy;
    if s != [] {
      SortSorts(s[..|s| - 1], key);
      InsertSorts(SortBy(s[..|s| - 1], key), key, s[|s| - 1]);
      InsertKeeps(SortBy(s[..|s| - 1], key), key, s[|s| - 1]);
      assert s == s[..|s| - 1] + [s[|s| - 1]];
    }
  }

  lemma SortMembers<T(!new)>(s: seq<T>, key: T -> (int, int))
    ensures SortedBy(SortBy(s, key), key) && forall x :: x in SortBy(s, key) <==> x in s
  {
    hide SortBy, SortedBy;
    SortSorts(s, key);
    assert forall x :: x in SortBy(s, key) <==> x in multiset(SortBy(s, key));
    assert forall x :: x in s <==> x in multiset(s);
  }

  lemma {:induction false} SortedStays<T(!new)>(s: seq<T>, key: T -> (int, int))
    requires SortedBy(s, key)
    ensures SortBy(s, key) == s
  {
    hide KeyBefore, SortedBy, NoneAfter;
    if s != [] {
      var init, last := s[..|s| - 1], s[|s| - 1];
      SortedBound(s, key);
      SortedStays(init, key);
      assert init != [] ==> !KeyBefore(key(last), key(init[|init| - 1])) by { BoundedAt(init, key, last); }
      assert s == init + [last];
    }
  }

  lemma BoundedAt<T(!new)>(s: seq<T>, key: T -> (int, int), x: T)
    requires NoneAfter(s, key, x)
    ensures s != [] ==> !KeyBefore(key(x), key(s[|s| - 1]))
  {
  }

  /** Two places with one value. */
  lemma TwiceIn<T(!new)>(s: seq<T>, i: nat, j: nat)
    requires i < j < |s| && s[i] == s[j]
    ensures multiset(s)[s[i]] >= 2
  {
    assert s == s[..i] + [s[i]] + s[i + 1..j] + [s[j]] + s[j + 1..];
  }

  /** A value at one place only. */
  lemma OnceIn<T(!new)>(s: seq<T>, k: nat)
    requires k < |s| && forall i :: 0 <= i < |s| && i != k ==> s[i] != s[k]
    ensures multiset(s)[s[k]] == 1
  {
    assert s == s[..k] + [s[k]] + s[k + 1..];
    assert s[k] !in s[..k] && s[k] !in s[k + 1..];
  }

  /** A permutation of distinct values is distinct. */
  lemma StaysDistinct<T(!new)>(s: seq<T>, r: seq<T>)
    requires multiset(r) == multiset(s) && forall i, j :: 0 <= i < j < |s| ==> s[i] != s[j]
    ensures forall i, j :: 0 <= i < j < |r| ==> r[i] != r[j]
  {
    forall i, j | 0 <= i < j < |r| ensures r[i] != r[j] {
      if r[i] == r[j] {
        TwiceIn(r, i, j);
        assert r[i] in multiset(s);
        var k :| 0 <= k < |s| && s[k] == r[i];
        OnceIn(s, k);
      }
    }
  }
}
