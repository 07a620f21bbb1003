/** Codewords, Hamming distance and the Berlekamp-Welch key equation. */
module KeyEquations {
  import opened GaloisField
  import opened FieldPowers
  import opened Polynomials
  import opened LinearSystems
  import opened Interpolation

  // The message polynomial at the first n evaluation points.
  function Codeword(m: Poly, n: nat): (c: seq<Byte>)
    ensures |c| == n
  {
    seq(n, i requires 0 <= i < n => Eval(m, Point(i)))
  }

  // Symbol 0 is the sum of the message, and the message [0, 1] is encoded as the points themselves: 1, 3, 5, 15, 17, ...
  lemma KnownSymbols()
    ensures Codeword([0, 1], 9) == [1, 3, 5, 0x0F, 0x11, 0x33, 0x55, 0xFF, 0x1A]
  {
    hide Pow, Mul, Add;
    KnownPoints();
    forall i | 0 <= i < 9
      ensures Eval([0, 1], Point(i)) == Point(i)
    {
      EvalLine(0, 1, Point(i));
      MulOne(Point(i));
      AddNothing(Point(i));
    }
  }

  // The low coefficient of a message is its first symbol.
  lemma EvalLine(a: Byte, b: Byte, x: Byte)
    ensures Eval([a, b], x) == Add(a, Mul(b, x))
  {
    hide Add, Mul;
    assert [a, b][1..] == [b] && [b][1..] == [];
    MulZero(x);
    AddNothing(b);
    assert Eval([b], x) == b;
    AddCommutes(Mul(b, x), a);
  }

  lemma KnownPoints()
    ensures Point(0) == 1 && Point(1) == 3 && Point(2) == 5 && Point(3) == 0x0F && Point(4) == 0x11
    ensures Point(5) == 0x33 && Point(6) == 0x55 && Point(7) == 0xFF && Point(8) == 0x1A
  {
    hide Pow, Mul;
    PowOnce(ALPHA, 0);
    PowOnce(ALPHA, 1);
    PowOnce(ALPHA, 2);
    PowOnce(ALPHA, 3);
    PowOnce(ALPHA, 4);
    PowOnce(ALPHA, 5);
    PowOnce(ALPHA, 6);
    PowOnce(ALPHA, 7);
    KnownTriples();
  }

  lemma KnownTriples()
    ensures Mul(3, 1) == 3 && Mul(3, 3) == 5 && Mul(3, 5) == 0x0F && Mul(3, 0x0F) == 0x11 && Mul(3, 0x11) == 0x33
    ensures Mul(3, 0x33) == 0x55 && Mul(3, 0x55) == 0xFF && Mul(3, 0xFF) == 0x1A
  {}

  // --- Hamming distance -----------------------------------------------------------

  function Differing(u: seq<Byte>, v: seq<Byte>): seq<nat>
    requires |u| == |v|
  {
    if |u| == 0 then []
    else
      var last := |u| - 1;
      Differing(u[..last], v[..last]) + if u[last] != v[last] then [last] else []
  }

  function Agreeing(u: seq<Byte>, v: seq<Byte>): seq<nat>
    requires |u| == |v|
  {
    if |u| == 0 then []
    else
      var last := |u| - 1;
      Agreeing(u[..last], v[..last]) + if u[last] == v[last] then [last] else []
  }

  function Hamming(u: seq<Byte>, v: seq<Byte>): nat
    requires |u| == |v|
  {
    |Differing(u, v)|
  }

  ghost predicate Increasing(positions: seq<nat>, n: nat) {
    && (forall i :: 0 <= i < |positions| ==> positions[i] < n)
    && (forall i, j :: 0 <= i < j < |positions| ==> positions[i] < positions[j])
  }

  lemma {:induction false} PositionsIncrease(u: seq<Byte>, v: seq<Byte>)
    requires |u| == |v|
    ensures Increasing(Differing(u, v), |u|) && Increasing(Agreeing(u, v), |u|)
    ensures |Differing(u, v)| + |Agreeing(u, v)| == |u|
  {
    if |u| > 0 {
      var last := |u| - 1;
      PositionsIncrease(u[..last], v[..last]);
    }
  }

  lemma {:induction false} PositionsComplete(u: seq<Byte>, v: seq<Byte>, i: nat)
    requires |u| == |v| && i < |u|
    ensures i in Differing(u, v) <==> u[i] != v[i]
    ensures i in Agreeing(u, v) <==> u[i] == v[i]
  {
    var last := |u| - 1;
    if i < last {
      PositionsComplete(u[..last], v[..last], i);
    } else {
      PositionsIncrease(u[..last], v[..last]);
      assert last !in Differing(u[..last], v[..last]);
      assert last !in Agreeing(u[..last], v[..last]);
    }
  }

  lemma Positions(u: seq<Byte>, v: seq<Byte>)
    requires |u| == |v|
    ensures Increasing(Differing(u, v), |u|) && Increasing(Agreeing(u, v), |u|)
    ensures |Differing(u, v)| + |Agreeing(u, v)| == |u|
    ensures forall i :: 0 <= i < |u| ==> (i in Differing(u, v) <==> u[i] != v[i])
    ensures forall i :: 0 <= i < |u| ==> (i in Agreeing(u, v) <==> u[i] == v[i])
  {
    hide Differing, Agreeing;
    PositionsIncrease(u, v);
    forall i | 0 <= i < |u|
      ensures i in Differing(u, v) <==> u[i] != v[i]
      ensures i in Agreeing(u, v) <==> u[i] == v[i]
    {
      PositionsComplete(u, v, i);
    }
  }

  lemma {:induction false} Triangle(u: seq<Byte>, v: seq<Byte>, w: seq<Byte>)
    requires |u| == |v| == |w|
    ensures Hamming(u, w) <= Hamming(u, v) + Hamming(v, w)
  {
    if |u| > 0 {
      var last := |u| - 1;
      Triangle(u[..last], v[..last], w[..last]);
    }
  }

  lemma NoDifference(u: seq<Byte>, v: seq<Byte>)
    requires |u| == |v| && Hamming(u, v) == 0
    ensures u == v
  {
    hide Differing, Agreeing;
    Positions(u, v);
  }

  // Differences that lie within a set are at most as many as the set has elements.
  lemma {:induction false} HammingWithin(u: seq<Byte>, v: seq<Byte>, damaged: set<nat>)
    requires |u| == |v| && forall t: nat :: t < |u| && u[t] != v[t] ==> t in damaged
    ensures Hamming(u, v) <= |damaged|
  {
    if |u| > 0 {
      var last := |u| - 1;
      if u[last] != v[last] {
        HammingWithin(u[..last], v[..last], damaged - {last});
      } else {
        HammingWithin(u[..last], v[..last], damaged);
      }
    }
  }

  lemma {:induction false} NoDamage(u: seq<Byte>)
    ensures Hamming(u, u) == 0
  {
    if |u| > 0 {
      NoDamage(u[..|u| - 1]);
    }
  }

  lemma {:induction false} HammingSymmetric(u: seq<Byte>, v: seq<Byte>)
    requires |u| == |v|
    ensures Differing(u, v) == Differing(v, u)
  {
    if |u| > 0 {
      var last := |u| - 1;
      HammingSymmetric(u[..last], v[..last]);
    }
  }

  function PointsAt(positions: seq<nat>): (xs: seq<Byte>)
    ensures |xs| == |positions|
  {
    seq(|positions|, i requires 0 <= i < |positions| => Point(positions[i]))
  }

  lemma PointsAtDistinct(positions: seq<nat>)
    requires Increasing(positions, 255)
    ensures Distinct(PointsAt(positions))
  {
    hide Pow;
    var xs := PointsAt(positions);
    forall i, j | 0 <= i < j < |xs|
      ensures xs[i] != xs[j]
    {
      PointsDistinct(positions[i], positions[j]);
    }
  }

  // Distinct messages have codewords more than n - k symbols apart.
  lemma MinimumDistance(m: Poly, m': Poly, n: nat)
    requires |m| == |m'| <= n <= 255 && m != m'
    ensures Hamming(Codeword(m, n), Codeword(m', n)) > n - |m|
  {
    hide Point, Eval, Differing, Agreeing;
    var u, v := Codeword(m, n), Codeword(m', n);
    Positions(u, v);
    var same := Agreeing(u, v);
    if |same| >= |m| {
      PointsAtDistinct(same);
      forall i | 0 <= i < |same|
        ensures Eval(m, PointsAt(same)[i]) == Eval(m', PointsAt(same)[i])
      {
        assert same[i] in same;
        assert u[same[i]] == v[same[i]];
      }
      AgreementUnique(m, m', PointsAt(same));
    }
  }

  ghost predicate WithinRadius(m: Poly, received: seq<Byte>, k: nat, radius: nat) {
    |m| == k && Hamming(Codeword(m, |received|), received) <= radius
  }

  // At most one message lies within half the parity.
  lemma RadiusUnique(m: Poly, m': Poly, received: seq<Byte>, k: nat, radius: nat)
    requires k + 2 * radius <= |received| <= 255
    requires WithinRadius(m, received, k, radius) && WithinRadius(m', received, k, radius)
    ensures m == m'
  {
    hide Differing, Codeword;
    var n := |received|;
    Triangle(Codeword(m, n), received, Codeword(m', n));
    HammingSymmetric(received, Codeword(m', n));
    if m != m' {
      MinimumDistance(m, m', n);
    }
  }

  // --- the error locator ------------------------------------------------------------

  // The monic polynomial whose roots are the points at the given positions.
  function Locator(errors: seq<nat>): (l: Poly)
    ensures |l| == |errors| + 1
  {
    if |errors| == 0 then [1]
    else MulLinear(Locator(errors[..|errors| - 1]), Point(errors[|errors| - 1]))
  }

  lemma {:induction false} LocatorMonic(errors: seq<nat>)
    ensures Locator(errors)[|errors|] == 1
  {
    hide Add, Mul, Point;
    if |errors| > 0 {
      LocatorMonic(errors[..|errors| - 1]);
      AddNothing(1);
    }
  }

  lemma {:induction false} LocatorRoot(errors: seq<nat>, i: nat)
    requires i < |errors|
    ensures Eval(Locator(errors), Point(errors[i])) == 0
  {
    hide Add, Mul, Point, MulLinear, Eval;
    var last := |errors| - 1;
    var rest := Locator(errors[..last]);
    var x := Point(errors[i]);
    EvalMulLinear(rest, Point(errors[last]), x);
    if i == last {
      AddSelf(x);
      MulZero(Eval(rest, x));
    } else {
      LocatorRoot(errors[..last], i);
      MulZero(Add(x, Point(errors[last])));
    }
  }

  // --- the key equation Q(x_i) = y_i E(x_i) -------------------------------------------

  ghost predicate KeyEquation(received: seq<Byte>, q: Poly, l: Poly) {
    forall i :: 0 <= i < |received| ==> Eval(q, Point(i)) == Mul(received[i], Eval(l, Point(i)))
  }

  // The true message and its error locator solve the key equation.
  lemma KeySolved(m: Poly, received: seq<Byte>)
    ensures var l := Locator(Differing(Codeword(m, |received|), received));
            KeyEquation(received, Product(m, l), l)
  {
    hide Add, Mul, Eval, Point, Product, Locator, Differing;
    var word := Codeword(m, |received|);
    var errors := Differing(word, received);
    Positions(word, received);
    forall i | 0 <= i < |received|
      ensures Eval(Product(m, Locator(errors)), Point(i)) == Mul(received[i], Eval(Locator(errors), Point(i)))
    {
      EvalProduct(m, Locator(errors), Point(i));
      if received[i] != word[i] {
        var j :| 0 <= j < |errors| && errors[j] == i;
        LocatorRoot(errors, j);
        MulZero(Eval(m, Point(i)));
        MulZero(received[i]);
      }
    }
  }

  // Enough intact symbols force Q = m E.
  lemma NumeratorForced(m: Poly, received: seq<Byte>, q: Poly, l: Poly)
    requires |received| <= 255 && KeyEquation(received, q, l)
    requires 0 < |l| && |q| == |m| + |l| - 1
    requires |q| + Hamming(Codeword(m, |received|), received) <= |received|
    ensures q == Product(m, l)
  {
    hide Add, Mul, Eval, Point, Product, Differing, Agreeing;
    var word := Codeword(m, |received|);
    var intact := Agreeing(word, received);
    Positions(word, received);
    PointsAtDistinct(intact);
    forall i | 0 <= i < |intact|
      ensures Eval(q, PointsAt(intact)[i]) == Eval(Product(m, l), PointsAt(intact)[i])
    {
      assert intact[i] in intact;
      EvalProduct(m, l, Point(intact[i]));
    }
    AgreementUnique(q, Product(m, l), PointsAt(intact));
  }

  // The locator of any solution vanishes wherever a symbol is wrong.
  lemma WrongSymbolIsRoot(m: Poly, received: seq<Byte>, l: Poly, i: nat)
    requires 0 < |l| && KeyEquation(received, Product(m, l), l)
    requires i < |received| && received[i] != Eval(m, Point(i))
    ensures Eval(l, Point(i)) == 0
  {
    hide Add, Mul, Eval, Point, Product;
    var x := Point(i);
    EvalProduct(m, l, x);
    if Eval(l, x) != 0 {
      MulCommutes(received[i], Eval(l, x));
      MulCommutes(Eval(m, x), Eval(l, x));
      MulCancels(Eval(l, x), received[i], Eval(m, x));
    }
  }

  lemma MonicCancel(p: Poly, q: Poly, x: Byte)
    requires |p| == |q| && Eval(p + [1], x) == Eval(q + [1], x)
    ensures Eval(p, x) == Eval(q, x)
  {
    hide Add, Mul, Eval, Pow;
    EvalAppend(p, 1, x);
    EvalAppend(q, 1, x);
    AddCancels(Eval(p, x), Eval(q, x), Mul(1, Pow(x, |p|)));
  }

  // A monic polynomial of degree |errors| with those roots is the locator.
  lemma MonicIsLocator(p: Poly, errors: seq<nat>)
    requires |p| == |errors| && Increasing(errors, 255)
    requires forall i :: 0 <= i < |errors| ==> Eval(p + [1], Point(errors[i])) == 0
    ensures p + [1] == Locator(errors)
  {
    hide Eval, Point, Locator;
    LocatorMonic(errors);
    var l := Locator(errors)[..|errors|];
    assert l + [1] == Locator(errors);
    PointsAtDistinct(errors);
    forall i | 0 <= i < |errors|
      ensures Eval(p, PointsAt(errors)[i]) == Eval(l, PointsAt(errors)[i])
    {
      LocatorRoot(errors, i);
      MonicCancel(p, l, Point(errors[i]));
    }
    AgreementUnique(p, l, PointsAt(errors));
  }

  lemma LocatorForced(m: Poly, received: seq<Byte>, p: Poly, errors: seq<nat>)
    requires |received| <= 255 && errors == Differing(Codeword(m, |received|), received) && |p| == |errors|
    requires KeyEquation(received, Product(m, p + [1]), p + [1])
    ensures p + [1] == Locator(errors)
  {
    hide Add, Mul, Eval, Point, Product, Differing, Agreeing, Locator, KeyEquation;
    Positions(Codeword(m, |received|), received);
    forall i | 0 <= i < |errors|
      ensures Eval(p + [1], Point(errors[i])) == 0
    {
      assert errors[i] in errors;
      WrongSymbolIsRoot(m, received, p + [1], errors[i]);
    }
    MonicIsLocator(p, errors);
  }

  // With the true number of errors the key equation has no solution but the true one.
  lemma KeyForced(m: Poly, received: seq<Byte>, q: Poly, p: Poly, errors: seq<nat>)
    requires |received| <= 255 && errors == Differing(Codeword(m, |received|), received) && |p| == |errors|
    requires |q| == |m| + |p| && |q| + |p| <= |received|
    requires KeyEquation(received, q, p + [1])
    ensures p + [1] == Locator(errors) && q == Product(m, Locator(errors))
  {
    hide Product, Differing, Locator, KeyEquation, Codeword;
    NumeratorForced(m, received, q, p + [1]);
    LocatorForced(m, received, p, errors);
  }
}
