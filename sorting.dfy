/** The ordering `qsort` gives the domain list and each domain's ACL list:
    ascending `strcmp` order of a string key. `qsort` leaves the relative
    order of equal keys unspecified; the model fixes one (insertion order)
    and only sortedness and permutation are claimed. */
module Sorting {
  import opened CStrings

  ghost predicate SortedBy<T>(s: seq<T>, key: T -> string)
  {
    forall i, j :: 0 <= i < j < |s| ==> StrLe(key(s[i]), key(s[j]))
  }

  function InsertByKey<T(==)>(x: T, s: seq<T>, key: T -> string): (r: seq<T>)
    ensures multiset(r) == multiset(s) + multiset{x}
  {
    if s == [] then [x]
    else if StrLe(key(x), key(s[0])) then [x] + s
    else
      assert s == [s[0]] + s[1..];
      [s[0]] + InsertByKey(x, s[1..], key)
  }

  lemma {:induction false} InsertKeepsSorted<T>(x: T, s: seq<T>, key: T -> string)
    requires SortedBy(s, key)
    ensures SortedBy(InsertByKey(x, s, key), key)
  {
    if s == [] {
      ConsSorted(x, s, key);
    } else if StrLe(key(x), key(s[0])) {
      forall k | 0 <= k < |s| ensures StrLe(key(x), key(s[k])) {
        if k > 0 {
          StrLeTransitive(key(x), key(s[0]), key(s[k]));
        }
      }
      ConsSorted(x, s, key);
    } else {
      var tail := InsertByKey(x, s[1..], key);
      assert SortedBy(s[1..], key);
      InsertKeepsSorted(x, s[1..], key);
      StrLeTotal(key(x), key(s[0]));
      InsertBound(x, s, key, tail);
      ConsSorted(s[0], tail, key);
    }
  }

  /** A head no greater than any element of a sorted list keeps it sorted. */
  lemma ConsSorted<T>(h: T, t: seq<T>, key: T -> string)
    requires SortedBy(t, key)
    requires forall k :: 0 <= k < |t| ==> StrLe(key(h), key(t[k]))
    ensures SortedBy([h] + t, key)
  {
    var r := [h] + t;
    forall i, j | 0 <= i < j < |r| ensures StrLe(key(r[i]), key(r[j])) {
      assert r[j] == t[j - 1];
      if i > 0 {
        assert r[i] == t[i - 1];
      }
    }
  }

  /** Inserting past the head of a sorted list keeps the head a lower bound. */
  lemma InsertBound<T>(x: T, s: seq<T>, key: T -> string, tail: seq<T>)
    requires SortedBy(s, key) && s != [] && StrLe(key(s[0]), key(x))
    requires tail == InsertByKey(x, s[1..], key)
    ensures forall k :: 0 <= k < |tail| ==> StrLe(key(s[0]), key(tail[k]))
  {
    forall k | 0 <= k < |tail| ensures StrLe(key(s[0]), key(tail[k])) {
      var y := tail[k];
      assert y in multiset(tail);
      if y != x {
        assert y in multiset(s[1..]);
        var m :| 0 <= m < |s[1..]| && s[1..][m] == y;
        assert s[m + 1] == y;
      }
    }
  }

  /** The sorted permutation `qsort` produces. */
  function SortByKey<T(==)>(s: seq<T>, key: T -> string): (r: seq<T>)
    ensures multiset(r) == multiset(s)
  {
    if s == [] then []
    else
      assert s == [s[0]] + s[1..];
      InsertByKey(s[0], SortByKey(s[1..], key), key)
  }

  lemma {:induction false} SortByKeySorted<T>(s: seq<T>, key: T -> string)
    ensures SortedBy(SortByKey(s, key), key)
  {
    if s != [] {
      SortByKeySorted(s[1..], key);
      InsertKeepsSorted(s[0], SortByKey(s[1..], key), key);
    }
  }
}
