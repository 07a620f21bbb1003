/** What the sources rely on of a stable sort by key: order, content, and the order of equals. */
module StableSorting {
  // Put x behind every element whose key is not larger.
  function Insert<T>(x: T, sorted: seq<T>, key: T -> int): (r: seq<T>)
    ensures |r| == |sorted| + 1
  {
    if |sorted| == 0 then [x]
    else
      var last := |sorted| - 1;
      if key(sorted[last]) <= key(x) then sorted + [x]
      else Insert(x, sorted[..last], key) + [sorted[last]]
  }

  function StableSort<T>(s: seq<T>, key: T -> int): (r: seq<T>)
    ensures |r| == |s|
  {
    if |s| == 0 then [] else Insert(s[|s| - 1], StableSort(s[..|s| - 1], key), key)
  }

  ghost predicate Ordered<T>(s: seq<T>, key: T -> int) {
    forall i, j :: 0 <= i < j < |s| ==> key(s[i]) <= key(s[j])
  }

  ghost predicate DistinctBy<T, U(!new)>(s: seq<T>, f: T -> U) {
    forall i, j :: 0 <= i < j < |s| ==> f(s[i]) != f(s[j])
  }

  lemma {:induction false} InsertContents<T>(x: T, s: seq<T>, key: T -> int)
    ensures multiset(Insert(x, s, key)) == multiset(s) + multiset{x}
    decreases |s|
  {
    if |s| > 0 {
      var last := |s| - 1;
      assert s == s[..last] + [s[last]];
      InsertContents(x, s[..last], key);
    }
  }

  lemma {:induction false} SortContents<T>(s: seq<T>, key: T -> int)
    ensures multiset(StableSort(s, key)) == multiset(s)
    decreases |s|
  {
    if |s| > 0 {
      var last := |s| - 1;
      assert s == s[..last] + [s[last]];
      SortContents(s[..last], key);
      InsertContents(s[last], StableSort(s[..last], key), key);
    }
  }

  lemma SortMember<T>(s: seq<T>, key: T -> int, i: nat)
    requires i < |s|
    ensures StableSort(s, key)[i] in s
  {
    SortContents(s, key);
    assert StableSort(s, key)[i] in multiset(StableSort(s, key));
  }

  lemma {:induction false} InsertOrdered<T>(x: T, s: seq<T>, key: T -> int)
    requires Ordered(s, key)
    ensures Ordered(Insert(x, s, key), key)
    decreases |s|
  {
    if |s| > 0 && key(s[|s| - 1]) > key(x) {
      var last := |s| - 1;
      InsertOrdered(x, s[..last], key);
      var r := Insert(x, s[..last], key);
      InsertContents(x, s[..last], key);
      forall i | 0 <= i < |r|
        ensures key(r[i]) <= key(s[last])
      {
        assert r[i] in multiset(r);
        if r[i] != x {
          assert r[i] in multiset(s[..last]);
          var k :| 0 <= k < last && s[k] == r[i];
        }
      }
    }
  }

  lemma {:induction false} SortOrdered<T>(s: seq<T>, key: T -> int)
    ensures Ordered(StableSort(s, key), key)
    decreases |s|
  {
    if |s| > 0 {
      SortOrdered(s[..|s| - 1], key);
      InsertOrdered(s[|s| - 1], StableSort(s[..|s| - 1], key), key);
    }
  }

  lemma {:induction false} InsertDistinct<T, U(!new)>(x: T, s: seq<T>, key: T -> int, f: T -> U)
    requires DistinctBy(s, f) && forall i :: 0 <= i < |s| ==> f(s[i]) != f(x)
    ensures DistinctBy(Insert(x, s, key), f)
    decreases |s|
  {
    if |s| > 0 && key(s[|s| - 1]) > key(x) {
      var last := |s| - 1;
      InsertDistinct(x, s[..last], key, f);
      var r := Insert(x, s[..last], key);
      InsertContents(x, s[..last], key);
      forall i | 0 <= i < |r|
        ensures f(r[i]) != f(s[last])
      {
        assert r[i] in multiset(r);
        if r[i] != x {
          assert r[i] in multiset(s[..last]);
          var k :| 0 <= k < last && s[k] == r[i];
        }
      }
    }
  }

  // Sorting never makes two distinguishable elements alike.
  lemma {:induction false} SortDistinct<T, U(!new)>(s: seq<T>, key: T -> int, f: T -> U)
    requires DistinctBy(s, f)
    ensures DistinctBy(StableSort(s, key), f)
    decreases |s|
  {
    if |s| > 0 {
      var last := |s| - 1;
      SortDistinct(s[..last], key, f);
      var t := StableSort(s[..last], key);
      forall i | 0 <= i < |t|
        ensures f(t[i]) != f(s[last])
      {
        SortMember(s[..last], key, i);
        var k :| 0 <= k < last && s[k] == t[i];
      }
      InsertDistinct(s[last], t, key, f);
    }
  }

  // The elements of one key, in order.
  function OfKey<T>(s: seq<T>, key: T -> int, v: int): seq<T> {
    if |s| == 0 then []
    else OfKey(s[..|s| - 1], key, v) + (if key(s[|s| - 1]) == v then [s[|s| - 1]] else [])
  }

  lemma {:induction false} InsertStable<T>(x: T, s: seq<T>, key: T -> int, v: int)
    requires Ordered(s, key)
    ensures OfKey(Insert(x, s, key), key, v) == OfKey(s, key, v) + (if key(x) == v then [x] else [])
    decreases |s|
  {
    if |s| == 0 {
      assert [x][..0] == [];
    } else {
      var last := |s| - 1;
      if key(s[last]) <= key(x) {
        assert (s + [x])[..|s|] == s;
      } else {
        InsertStable(x, s[..last], key, v);
        var r := Insert(x, s[..last], key);
        assert (r + [s[last]])[..|r|] == r;
        if key(x) == v {
          assert key(s[last]) != v;
        }
      }
    }
  }

  // Elements with equal keys keep their order.
  lemma {:induction false} SortStable<T>(s: seq<T>, key: T -> int, v: int)
    ensures OfKey(StableSort(s, key), key, v) == OfKey(s, key, v)
    decreases |s|
  {
    if |s| > 0 {
      SortStable(s[..|s| - 1], key, v);
      SortOrdered(s[..|s| - 1], key);
      InsertStable(s[|s| - 1], StableSort(s[..|s| - 1], key), key, v);
    }
  }
}
