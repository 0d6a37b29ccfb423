/** Python's stable sort by an integer key. */
module Sorting {
  ghost predicate SortedBy<T>(s: seq<T>, key: T -> int) {
    forall i, j :: 0 <= i <= j < |s| ==> key(s[i]) <= key(s[j])
  }

  /** Insert behind every element whose key is not larger. */
  function Insert<T>(s: seq<T>, x: T, key: T -> int): (r: seq<T>)
    ensures |r| == |s| + 1
  {
    if s == [] || key(s[|s| - 1]) <= key(x) then s + [x]
    else Insert(s[..|s| - 1], x, key) + [s[|s| - 1]]
  }

  function Sort<T>(s: seq<T>, key: T -> int): (r: seq<T>)
    ensures |r| == |s|
  {
    if s == [] then [] else Insert(Sort(s[..|s| - 1], key), s[|s| - 1], key)
  }

  lemma {:induction false} InsertKeeps<T(!new)>(s: seq<T>, x: T, key: T -> int)
    requires SortedBy(s, key)
    ensures SortedBy(Insert(s, x, key), key)
    ensures forall y :: y in Insert(s, x, key) <==> y in s || y == x
  {
    if s != [] && key(s[|s| - 1]) > key(x) {
      var front, last := s[..|s| - 1], s[|s| - 1];
      InsertKeeps(front, x, key);
      var r := Insert(front, x, key);
      forall i | 0 <= i < |r| ensures key(r[i]) <= key(last) {
        assert r[i] in r;
        if r[i] in front {
          var k :| 0 <= k < |front| && front[k] == r[i];
          assert key(s[k]) <= key(s[|s| - 1]);
        }
      }
      assert s == front + [last];
    }
  }

  /** Sorting orders by key and keeps exactly the elements. */
  lemma {:induction false} SortSorts<T(!new)>(s: seq<T>, key: T -> int)
    ensures SortedBy(Sort(s, key), key)
    ensures forall y :: y in Sort(s, key) <==> y in s
  {
    if s != [] {
      SortSorts(s[..|s| - 1], key);
      InsertKeeps(Sort(s[..|s| - 1], key), s[|s| - 1], key);
      assert s == s[..|s| - 1] + [s[|s| - 1]];
    }
  }

  ghost predicate DistinctKeys<T>(s: seq<T>, key: T -> int) {
    forall i, j :: 0 <= i < j < |s| ==> key(s[i]) != key(s[j])
  }

  lemma {:induction false} InsertDistinct<T(!new)>(s: seq<T>, x: T, key: T -> int)
    requires DistinctKeys(s, key) && SortedBy(s, key)
    requires forall y :: y in s ==> key(y) != key(x)
    ensures DistinctKeys(Insert(s, x, key), key)
  {
    if s != [] && key(s[|s| - 1]) > key(x) {
      var front, last := s[..|s| - 1], s[|s| - 1];
      InsertDistinct(front, x, key);
      InsertKeeps(front, x, key);
      var r := Insert(front, x, key);
      forall i | 0 <= i < |r| ensures key(r[i]) != key(last) {
        assert r[i] in r;
        if r[i] in front {
          var k :| 0 <= k < |front| && front[k] == r[i];
          assert key(s[k]) != key(s[|s| - 1]);
        }
      }
    }
  }

  lemma {:induction false} SortDistinct<T(!new)>(s: seq<T>, key: T -> int)
    requires DistinctKeys(s, key)
    ensures DistinctKeys(Sort(s, key), key)
  {
    if s != [] {
      var front := s[..|s| - 1];
      SortDistinct(front, key);
      SortSorts(front, key);
      forall y | y in Sort(front, key) ensures key(y) != key(s[|s| - 1]) {
        var k :| 0 <= k < |front| && front[k] == y;
        assert s[k] == y;
      }
      InsertDistinct(Sort(front, key), s[|s| - 1], key);
    }
  }

  lemma {:induction false} StrictlyUpwards(ks: seq<int>, n: nat, i: nat)
    requires forall a, b :: 0 <= a < b < |ks| ==> ks[a] < ks[b]
    requires i < |ks| && forall a :: 0 <= a < |ks| ==> 0 <= ks[a] < n
    ensures ks[i] >= i && n - ks[i] >= |ks| - i
  {
    if i > 0 {
      StrictlyUpwards(ks[..|ks| - 1], n, i - 1);
    }
    TailUpwards(ks, n, i);
  }

  lemma {:induction false} TailUpwards(ks: seq<int>, n: nat, i: nat)
    requires forall a, b :: 0 <= a < b < |ks| ==> ks[a] < ks[b]
    requires i < |ks| && forall a :: 0 <= a < |ks| ==> 0 <= ks[a] < n
    ensures n - ks[i] >= |ks| - i
    decreases |ks| - i
  {
    if i + 1 < |ks| {
      TailUpwards(ks, n, i + 1);
    }
  }
}
