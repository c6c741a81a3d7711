/**
  The stable descending sort both serializers rely on (`Array.prototype.sort` with a
  comparator that subtracts keys).
 */
module StableSort {

  /** Stable insertion: x goes before the first element whose key is not larger. */
  function Insert<T>(x: T, s: seq<T>, key: T -> int): seq<T> {
    if s == [] then [x]
    else if key(s[0]) <= key(x) then [x] + s
    else [s[0]] + Insert(x, s[1..], key)
  }

  lemma {:induction false} InsertPermutes<T>(x: T, s: seq<T>, key: T -> int)
    ensures multiset(Insert(x, s, key)) == multiset(s) + multiset{x}
  {
    if s != [] && key(s[0]) > key(x) {
      InsertPermutes(x, s[1..], key);
      assert s == [s[0]] + s[1..];
    }
  }

  /** Larger keys first, document order among equals. */
  function SortDescending<T>(s: seq<T>, key: T -> int): seq<T> {
    if s == [] then [] else Insert(s[0], SortDescending(s[1..], key), key)
  }

  lemma {:induction false} SortPermutes<T>(s: seq<T>, key: T -> int)
    ensures multiset(SortDescending(s, key)) == multiset(s)
  {
    if s != [] {
      SortPermutes(s[1..], key);
      InsertPermutes(s[0], SortDescending(s[1..], key), key);
      assert s == [s[0]] + s[1..];
    }
  }

  ghost predicate Descending<T>(s: seq<T>, key: T -> int) {
    forall i, j :: 0 <= i < j < |s| ==> key(s[i]) >= key(s[j])
  }

  lemma {:induction false} InsertDescending<T>(x: T, s: seq<T>, key: T -> int)
    requires Descending(s, key)
    ensures Descending(Insert(x, s, key), key)
  {
    if s != [] && key(s[0]) > key(x) {
      InsertDescending(x, s[1..], key);
      var r := Insert(x, s[1..], key);
      InsertPermutes(x, s[1..], key);
      forall i | 0 <= i < |r|
        ensures key(r[i]) <= key(s[0])
      {
        assert r[i] in multiset(r);
        assert r[i] == x || r[i] in s[1..];
      }
    }
  }

  ghost function WithKey<T>(s: seq<T>, key: T -> int, v: int): seq<T> {
    if s == [] then []
    else (if key(s[0]) == v then [s[0]] else []) + WithKey(s[1..], key, v)
  }

  lemma {:induction false} InsertStable<T>(x: T, s: seq<T>, key: T -> int, v: int)
    ensures WithKey(Insert(x, s, key), key, v) == (if key(x) == v then [x] else []) + WithKey(s, key, v)
  {
    var r := Insert(x, s, key);
    if s == [] || key(s[0]) <= key(x) {
      assert r == [x] + s && r[1..] == s;
    } else {
      InsertStable(x, s[1..], key, v);
      assert r[1..] == Insert(x, s[1..], key) && r[0] == s[0];
      assert key(x) == v ==> key(s[0]) != v;
    }
  }

  /** The order in which children are offered to the budget: sorted by key and stable. */
  lemma {:induction false} SortedAndStable<T>(s: seq<T>, key: T -> int)
    ensures Descending(SortDescending(s, key), key)
    ensures forall v: int :: WithKey(SortDescending(s, key), key, v) == WithKey(s, key, v)
  {
    if s != [] {
      SortedAndStable(s[1..], key);
      InsertDescending(s[0], SortDescending(s[1..], key), key);
      forall v: int
        ensures WithKey(SortDescending(s, key), key, v) == WithKey(s, key, v)
      {
        InsertStable(s[0], SortDescending(s[1..], key), key, v);
      }
    }
  }

  lemma {:induction false} SortAgrees<T>(s: seq<T>, key: T -> int, key': T -> int)
    requires forall x :: x in s ==> key(x) == key'(x)
    ensures SortDescending(s, key) == SortDescending(s, key')
  {
    if s != [] {
      SortAgrees(s[1..], key, key');
      var r := SortDescending(s[1..], key);
      SortPermutes(s[1..], key);
      forall x | x in r
        ensures x in s
      {
        assert x in multiset(r);
      }
      InsertAgrees(s[0], r, key, key');
    }
  }

  lemma {:induction false} InsertAgrees<T>(x: T, s: seq<T>, key: T -> int, key': T -> int)
    requires key(x) == key'(x) && forall y :: y in s ==> key(y) == key'(y)
    ensures Insert(x, s, key) == Insert(x, s, key')
  {
    if s != [] && key(s[0]) > key(x) {
      InsertAgrees(x, s[1..], key, key');
    }
  }
}
