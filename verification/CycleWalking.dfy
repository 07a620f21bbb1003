/** Cycle walking: restricting a permutation of [0, n) to [0, len). */
module CycleWalking {
  ghost predicate Permutes(f: nat -> nat, n: nat) {
    && (forall x: nat :: x < n ==> f(x) < n)
    && (forall x: nat, y: nat :: x < n && y < n && f(x) == f(y) ==> x == y)
  }

  ghost predicate Inverses(f: nat -> nat, g: nat -> nat, n: nat) {
    && (forall x: nat :: x < n ==> f(x) < n && g(f(x)) == x)
    && (forall x: nat :: x < n ==> g(x) < n && f(g(x)) == x)
  }

  lemma InversesPermute(f: nat -> nat, g: nat -> nat, n: nat)
    requires Inverses(f, g, n)
    ensures Permutes(f, n) && Permutes(g, n)
  {
    forall x: nat, y: nat | x < n && y < n
      ensures f(x) == f(y) ==> x == y
      ensures g(x) == g(y) ==> x == y
    {
      assert g(f(x)) == x && g(f(y)) == y;
      assert f(g(x)) == x && f(g(y)) == y;
    }
  }

  function Iterate(f: nat -> nat, x: nat, k: nat): nat {
    if k == 0 then x else f(Iterate(f, x, k - 1))
  }

  lemma IterateNext(f: nat -> nat, x: nat, k: nat)
    ensures Iterate(f, x, k + 1) == f(Iterate(f, x, k))
  {}

  lemma {:induction false} IterateBound(f: nat -> nat, n: nat, x: nat, k: nat)
    requires Permutes(f, n) && x < n
    ensures Iterate(f, x, k) < n
  {
    hide Permutes;
    if k > 0 {
      IterateBound(f, n, x, k - 1);
      PermutesAt(f, n, Iterate(f, x, k - 1), x);
    }
  }

  lemma PermutesAt(f: nat -> nat, n: nat, x: nat, y: nat)
    requires Permutes(f, n) && x < n && y < n
    ensures f(x) < n && (f(x) == f(y) ==> x == y)
  {}

  lemma {:induction false} IterateSplit(f: nat -> nat, x: nat, a: nat, b: nat)
    ensures Iterate(f, x, a + b) == Iterate(f, Iterate(f, x, a), b)
    decreases b
  {
    if b > 0 {
      IterateSplit(f, x, a, b - 1);
      assert a + b - 1 == a + (b - 1);
    }
  }

  lemma {:induction false} IterateCancel(f: nat -> nat, n: nat, x: nat, y: nat, k: nat)
    requires Permutes(f, n) && x < n && y < n && Iterate(f, x, k) == Iterate(f, y, k)
    ensures x == y
  {
    hide Permutes;
    if k > 0 {
      IterateBound(f, n, x, k - 1);
      IterateBound(f, n, y, k - 1);
      PermutesAt(f, n, Iterate(f, x, k - 1), Iterate(f, y, k - 1));
      IterateCancel(f, n, x, y, k - 1);
    }
  }

  // Distinct numbers below n are at most n.
  lemma {:induction false} Pigeonhole(s: seq<nat>, n: nat)
    requires forall i :: 0 <= i < |s| ==> s[i] < n
    requires forall i, j :: 0 <= i < j < |s| ==> s[i] != s[j]
    ensures |s| <= n
    decreases n
  {
    if |s| == 0 {
    } else if i :| 0 <= i < |s| && s[i] == n - 1 {
      var t := s[..i] + s[i + 1..];
      Pigeonhole(t, n - 1);
    } else {
      assert s[0] < n;
      Pigeonhole(s, n - 1);
    }
  }

  // k is the first time the orbit of x is below len again.
  ghost predicate FirstReturn(f: nat -> nat, len: nat, x: nat, k: nat) {
    k >= 1 && Iterate(f, x, k) < len && forall j :: 1 <= j < k ==> Iterate(f, x, j) >= len
  }

  // Two visits to one value would mean an earlier return.
  lemma OrbitDistinct(f: nat -> nat, n: nat, len: nat, x: nat, a: nat, b: nat)
    requires Permutes(f, n) && x < len <= n && a < b
    requires forall j :: 1 <= j <= b ==> Iterate(f, x, j) >= len
    ensures Iterate(f, x, a) != Iterate(f, x, b)
  {
    hide Iterate, Permutes;
    if Iterate(f, x, a) == Iterate(f, x, b) {
      IterateSplit(f, x, b - a, a);
      IterateBound(f, n, x, b - a);
      IterateCancel(f, n, x, Iterate(f, x, b - a), a);
    }
  }

  // Within n steps the walk is back below len.
  lemma WalkReturns(f: nat -> nat, n: nat, len: nat, x: nat)
    requires Permutes(f, n) && x < len <= n
    ensures exists k {:trigger Iterate(f, x, k)} :: 1 <= k <= n && Iterate(f, x, k) < len
  {
    if forall k {:trigger Iterate(f, x, k)} :: 1 <= k <= n ==> Iterate(f, x, k) >= len {
      var orbit := seq(n + 1, i requires 0 <= i => Iterate(f, x, i));
      forall i | 0 <= i < |orbit|
        ensures orbit[i] < n
      {
        IterateBound(f, n, x, i);
      }
      forall i, j | 0 <= i < j < |orbit|
        ensures orbit[i] != orbit[j]
      {
        OrbitDistinct(f, n, len, x, i, j);
      }
      Pigeonhole(orbit, n);
    }
  }

  lemma {:induction false} LeastReturn(f: nat -> nat, len: nat, x: nat, k: nat, tried: nat)
    requires 1 <= tried <= k && Iterate(f, x, k) < len
    requires forall j :: 1 <= j < tried ==> Iterate(f, x, j) >= len
    ensures exists t {:trigger FirstReturn(f, len, x, t)} :: FirstReturn(f, len, x, t)
    decreases k - tried
  {
    if Iterate(f, x, tried) < len {
      assert FirstReturn(f, len, x, tried);
    } else {
      LeastReturn(f, len, x, k, tried + 1);
    }
  }

  ghost function ReturnTime(f: nat -> nat, n: nat, len: nat, x: nat): (k: nat)
    requires Permutes(f, n) && x < len <= n
    ensures FirstReturn(f, len, x, k)
  {
    WalkReturns(f, n, len, x);
    var t: nat :| 1 <= t <= n && Iterate(f, x, t) < len;
    LeastReturn(f, len, x, t, 1);
    var k: nat :| FirstReturn(f, len, x, k);
    k
  }

  // Where the walk from x first comes back below len.
  ghost function Walk(f: nat -> nat, n: nat, len: nat, x: nat): (y: nat)
    requires Permutes(f, n) && x < len <= n
    ensures y < len
  {
    Iterate(f, x, ReturnTime(f, n, len, x))
  }

  // Walks from different starts end differently.
  lemma WalkInjective(f: nat -> nat, n: nat, len: nat, x: nat, y: nat)
    requires Permutes(f, n) && x < len <= n && y < len
    requires Walk(f, n, len, x) == Walk(f, n, len, y)
    ensures x == y
  {
    var a, b := ReturnTime(f, n, len, x), ReturnTime(f, n, len, y);
    if a <= b {
      WalkAligned(f, n, len, x, y, a, b);
    } else {
      WalkAligned(f, n, len, y, x, b, a);
    }
  }

  lemma WalkAligned(f: nat -> nat, n: nat, len: nat, x: nat, y: nat, a: nat, b: nat)
    requires Permutes(f, n) && x < len <= n && y < len && 1 <= a <= b
    requires Iterate(f, x, a) == Iterate(f, y, b) && FirstReturn(f, len, y, b)
    ensures x == y
  {
    hide Iterate, Permutes;
    var d := b - a;
    IterateSplit(f, y, d, a);
    assert d + a == b;
    IterateBound(f, n, y, d);
    IterateCancel(f, n, x, Iterate(f, y, d), a);
    IterateNone(f, y);
  }

  lemma IterateNone(f: nat -> nat, x: nat)
    ensures Iterate(f, x, 0) == x
  {}

  // Undoing j steps of f with its inverse.
  lemma {:induction false} IterateBack(f: nat -> nat, g: nat -> nat, n: nat, x: nat, k: nat, j: nat)
    requires Inverses(f, g, n) && x < n && j <= k
    ensures Iterate(g, Iterate(f, x, k), j) == Iterate(f, x, k - j)
    decreases j
  {
    hide Inverses, Permutes;
    if j > 0 {
      IterateBack(f, g, n, x, k, j - 1);
      InversesPermute(f, g, n);
      IterateBound(f, n, x, k - j);
      InversesAt(f, g, n, Iterate(f, x, k - j));
      assert k - (j - 1) == (k - j) + 1;
    }
  }

  lemma InversesAt(f: nat -> nat, g: nat -> nat, n: nat, x: nat)
    requires Inverses(f, g, n) && x < n
    ensures g(f(x)) == x && f(g(x)) == x
  {}

  lemma FirstReturnUnique(f: nat -> nat, len: nat, x: nat, a: nat, b: nat)
    requires FirstReturn(f, len, x, a) && FirstReturn(f, len, x, b)
    ensures a == b
  {}

  // Walking the inverse permutation back undoes the walk.
  lemma WalkBack(f: nat -> nat, g: nat -> nat, n: nat, len: nat, x: nat)
    requires Inverses(f, g, n) && Permutes(f, n) && Permutes(g, n) && x < len <= n
    ensures Walk(g, n, len, Walk(f, n, len, x)) == x
  {
    var k := ReturnTime(f, n, len, x);
    var y := Walk(f, n, len, x);
    forall j: nat | 1 <= j <= k
      ensures Iterate(g, y, j) == Iterate(f, x, k - j)
    {
      IterateBack(f, g, n, x, k, j);
    }
    assert FirstReturn(g, len, y, k);
    FirstReturnUnique(g, len, y, k, ReturnTime(g, n, len, y));
  }
}
