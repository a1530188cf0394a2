/**
 Ordering of result rows by a text column, as `ORDER BY <column>` does. The
 sort is an insertion sort over immutable sequences; what the callers rely on
 is its contract: the result is ordered by the key and is a permutation of the
 input.
 */
module Sorting {
  import opened Strings

  ghost predicate SortedBy<T>(s: seq<T>, key: T -> string)
  {
    forall i, j :: 0 <= i < j < |s| ==> TextLe(key(s[i]), key(s[j]))
  }

  /** A key no larger than every key of a sorted sequence may be put in front of it. */
  lemma PrependSorted<T>(x: T, s: seq<T>, key: T -> string)
    requires SortedBy(s, key)
    requires forall y :: y in s ==> TextLe(key(x), key(y))
    ensures SortedBy([x] + s, key)
  {
  }

  /** Puts `x` into the sorted sequence `s` in front of the first element whose key is no smaller. */
  function Insert<T(==)>(x: T, s: seq<T>, key: T -> string): (r: seq<T>)
    requires SortedBy(s, key)
    ensures SortedBy(r, key)
    ensures multiset(r) == multiset(s) + multiset{x}
    decreases |s|
  {
    if |s| == 0 then [x]
    else if TextLe(key(x), key(s[0])) then
      LeadLowerBound(x, s, key);
      PrependSorted(x, s, key);
      [x] + s
    else
      TextLeTotal(key(x), key(s[0]));
      var rest := Insert(x, s[1..], key);
      assert s == [s[0]] + s[1..];
      HeadLowerBound(s[0], x, s[1..], rest, key);
      PrependSorted(s[0], rest, key);
      [s[0]] + rest
  }

  lemma LeadLowerBound<T>(x: T, s: seq<T>, key: T -> string)
    requires |s| > 0 && SortedBy(s, key) && TextLe(key(x), key(s[0]))
    ensures forall y :: y in s ==> TextLe(key(x), key(y))
  {
    forall y | y in s
      ensures TextLe(key(x), key(y))
    {
      var j :| 0 <= j < |s| && s[j] == y;
      if j > 0 {
        TextLeTransitive(key(x), key(s[0]), key(y));
      }
    }
  }

  lemma HeadLowerBound<T>(h: T, x: T, tail: seq<T>, rest: seq<T>, key: T -> string)
    requires SortedBy([h] + tail, key) && TextLe(key(h), key(x))
    requires multiset(rest) == multiset(tail) + multiset{x}
    ensures forall y :: y in rest ==> TextLe(key(h), key(y))
  {
    forall y | y in rest
      ensures TextLe(key(h), key(y))
    {
      assert y in multiset(rest);
      if y != x {
        assert y in multiset(tail);
        assert y in tail;
        var j :| 0 <= j < |tail| && tail[j] == y;
        assert ([h] + tail)[0] == h && ([h] + tail)[j + 1] == y;
      }
    }
  }

  /** The rows of `s` in ascending key order. */
  function SortBy<T(==)>(s: seq<T>, key: T -> string): (r: seq<T>)
    ensures SortedBy(r, key)
    ensures multiset(r) == multiset(s)
    decreases |s|
  {
    if |s| == 0 then []
    else
      assert s == s[..|s| - 1] + [s[|s| - 1]];
      Insert(s[|s| - 1], SortBy(s[..|s| - 1], key), key)
  }
}
