/** The stable sort behind JavaScript's `Array.prototype.sort` and SQL's ORDER BY on a total key. */
module StableSort {
  /** Sort keys compare lexicographically, as `a.x - b.x || a.y - b.y` does. */
  datatype Key = Key(major: int, minor: int) {
    predicate Leq(other: Key) {
      major < other.major || (major == other.major && minor <= other.minor)
    }

    predicate Less(other: Key) {
      major < other.major || (major == other.major && minor < other.minor)
    }
  }

  function Insert<T>(x: T, s: seq<T>, key: T -> Key): seq<T> {
    if s == [] || key(x).Leq(key(s[0])) then [x] + s else [s[0]] + Insert(x, s[1..], key)
  }

  /** Insertion sort from the right; an element goes before the later ones of equal key. */
  function SortBy<T>(s: seq<T>, key: T -> Key): seq<T> {
    if s == [] then [] else Insert(s[0], SortBy(s[1..], key), key)
  }

  ghost predicate Ascending<T>(s: seq<T>, key: T -> Key) {
    forall i, j :: 0 <= i < j < |s| ==> key(s[i]).Leq(key(s[j]))
  }

  ghost predicate StrictlyAscending<T>(s: seq<T>, key: T -> Key) {
    forall i, j :: 0 <= i < j < |s| ==> key(s[i]).Less(key(s[j]))
  }

  /** The elements of one key, in the order in which they stand. */
  function OfKey<T>(s: seq<T>, key: T -> Key, k: Key): seq<T> {
    if s == [] then [] else (if key(s[0]) == k then [s[0]] else []) + OfKey(s[1..], key, k)
  }

  lemma {:induction false} InsertFacts<T>(x: T, s: seq<T>, key: T -> Key)
    requires Ascending(s, key)
    ensures Ascending(Insert(x, s, key), key)
    ensures multiset(Insert(x, s, key)) == multiset{x} + multiset(s)
    ensures |Insert(x, s, key)| == |s| + 1
  {
    if s != [] && !key(x).Leq(key(s[0])) {
      var rest := Insert(x, s[1..], key);
      InsertFacts(x, s[1..], key);
      assert s == [s[0]] + s[1..];
      forall y | y in rest
        ensures key(s[0]).Leq(key(y))
      {
        assert y in multiset(rest);
        assert y == x || y in s[1..];
      }
      AscendingInFront(s[0], rest, key);
    } else {
      forall y | y in s
        ensures key(x).Leq(key(y))
      {
      }
      AscendingInFront(x, s, key);
    }
  }

  lemma AscendingInFront<T>(x: T, rest: seq<T>, key: T -> Key)
    requires Ascending(rest, key) && forall y :: y in rest ==> key(x).Leq(key(y))
    ensures Ascending([x] + rest, key)
  {
  }

  lemma {:induction false} InsertOfKey<T>(x: T, s: seq<T>, key: T -> Key, k: Key)
    requires Ascending(s, key)
    ensures OfKey(Insert(x, s, key), key, k) == OfKey([x] + s, key, k)
  {
    assert ([x] + s)[1..] == s;
    if s != [] && !key(x).Leq(key(s[0])) {
      InsertOfKey(x, s[1..], key, k);
      var rest := Insert(x, s[1..], key);
      assert ([s[0]] + rest)[1..] == rest;
      assert ([x] + s[1..])[1..] == s[1..];
    }
  }

  /** What the sort delivers: the same elements, in key order, equal keys in their original order. */
  lemma {:induction false} SortByFacts<T>(s: seq<T>, key: T -> Key)
    ensures Ascending(SortBy(s, key), key)
    ensures multiset(SortBy(s, key)) == multiset(s)
    ensures |SortBy(s, key)| == |s|
    ensures forall k :: OfKey(SortBy(s, key), key, k) == OfKey(s, key, k)
  {
    if s != [] {
      SortByFacts(s[1..], key);
      var rest := SortBy(s[1..], key);
      InsertFacts(s[0], rest, key);
      assert s == [s[0]] + s[1..];
      forall k
        ensures OfKey(SortBy(s, key), key, k) == OfKey(s, key, k)
      {
        InsertOfKey(s[0], rest, key, k);
        assert ([s[0]] + rest)[1..] == rest;
      }
    }
  }

  /** The element that `sort(...)[0]` selects. */
  lemma SortedHead<T>(s: seq<T>, key: T -> Key)
    requires s != []
    ensures SortBy(s, key) != []
    ensures SortBy(s, key)[0] in s
    ensures forall x :: x in s ==> key(SortBy(s, key)[0]).Leq(key(x))
  {
    SortByFacts(s, key);
    var t := SortBy(s, key);
    assert t[0] in multiset(s);
    forall x | x in s
      ensures key(t[0]).Leq(key(x))
    {
      assert x in multiset(t);
      var i :| 0 <= i < |t| && t[i] == x;
    }
  }

  /** It is the first of the elements of least key. */
  lemma {:induction false} HeadIsFirst<T>(s: seq<T>, key: T -> Key) returns (i: nat)
    requires s != []
    ensures i < |s| && SortBy(s, key) != [] && SortBy(s, key)[0] == s[i]
    ensures forall j :: 0 <= j < i ==> key(s[i]).Less(key(s[j]))
  {
    i := 0;
    if |s| > 1 && !key(s[0]).Leq(key(SortBy(s[1..], key)[0])) {
      var k := HeadIsFirst(s[1..], key);
      i := k + 1;
      forall j | 0 <= j < i
        ensures key(s[i]).Less(key(s[j]))
      {
        assert j > 0 ==> s[j] == s[1..][j - 1];
      }
    }
  }

  lemma MultisetOfTail<T>(s: seq<T>)
    requires s != []
    ensures multiset(s[1..]) == multiset(s) - multiset{s[0]}
  {
    assert s == [s[0]] + s[1..];
  }

  lemma LeastsAgree<T>(s: seq<T>, t: seq<T>, key: T -> Key)
    requires Ascending(s, key) && StrictlyAscending(t, key) && multiset(s) == multiset(t)
    requires s != [] && t != []
    ensures s[0] == t[0]
  {
    assert t[0] in multiset(s) && s[0] in multiset(t);
    var i :| 0 <= i < |s| && s[i] == t[0];
    var j :| 0 <= j < |t| && t[j] == s[0];
    assert key(s[0]).Leq(key(s[i]));
  }

  lemma {:induction false} AscendingUnique<T>(s: seq<T>, t: seq<T>, key: T -> Key)
    requires Ascending(s, key) && StrictlyAscending(t, key) && multiset(s) == multiset(t)
    ensures s == t
  {
    assert |s| == |multiset(s)| == |multiset(t)| == |t|;
    if t != [] {
      LeastsAgree(s, t, key);
      MultisetOfTail(s);
      MultisetOfTail(t);
      AscendingUnique(s[1..], t[1..], key);
    }
  }

  /** A listing whose keys strictly increase is the only order in which its elements can be sorted. */
  lemma SortIsUnique<T>(s: seq<T>, t: seq<T>, key: T -> Key)
    requires StrictlyAscending(t, key) && multiset(s) == multiset(t)
    ensures SortBy(s, key) == t
  {
    SortByFacts(s, key);
    AscendingUnique(SortBy(s, key), t, key);
  }
}
