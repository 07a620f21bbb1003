/** Newton interpolation through the first evaluation points: lagrange_interpolate of error_correction.rs. */
module Interpolation {
  import opened Results
  import opened GaloisField
  import opened FieldPowers
  import opened GfArithmetic
  import opened Polynomials

  const MAX_CODEWORD_LEN := 255

  function Point(i: nat): Byte { Pow(ALPHA, i) }

  // Divided difference of the values over the points i..j.
  function Difference(values: seq<Byte>, i: nat, j: nat): Byte
    requires i <= j < |values|
    decreases j - i
  {
    if i == j then values[i]
    else Div(Add(Difference(values, i + 1, j), Difference(values, i, j - 1)), Add(Point(j), Point(i)))
  }

  // (x - x_i) ... (x - x_{j-1}).
  function Span(i: nat, j: nat, x: Byte): Byte
    decreases j
  {
    if j <= i then 1 else Mul(Span(i, j - 1, x), Add(x, Point(j - 1)))
  }

  // Newton's form over the points i..j-1.
  function Newton(values: seq<Byte>, i: nat, j: nat, x: Byte): Byte
    requires j <= |values|
    decreases j
  {
    if j <= i then 0 else Add(Newton(values, i, j - 1, x), Mul(Difference(values, i, j - 1), Span(i, j - 1, x)))
  }

  lemma PointsApart(i: nat, j: nat)
    requires i < j < 255
    ensures Add(Point(j), Point(i)) != 0
  {
    hide Add, Pow;
    PointsDistinct(i, j);
    AddZero(Point(j), Point(i));
  }

  lemma {:induction false} SpanFirst(i: nat, j: nat, x: Byte)
    requires i < j
    ensures Span(i, j, x) == Mul(Add(x, Point(i)), Span(i + 1, j, x))
    decreases j
  {
    hide Add, Mul, Point;
    if j == i + 1 {
      MulOne(Add(x, Point(i)));
    } else {
      SpanFirst(i, j - 1, x);
      MulAssociates(Add(x, Point(i)), Span(i + 1, j - 1, x), Add(x, Point(j - 1)));
    }
  }

  // d (x + xj) from d xj' differences.
  lemma ShiftStep(d: Byte, up: Byte, down: Byte, x: Byte, xi: Byte, xj: Byte, v: Byte)
    requires Mul(Add(xj, xi), d) == Add(up, down)
    ensures Add(Add(Mul(down, v), Mul(d, Mul(Add(x, xi), v))), Mul(up, v)) == Mul(d, Mul(v, Add(x, xj)))
  {
    hide *;
    calc {
      Add(Add(Mul(down, v), Mul(d, Mul(Add(x, xi), v))), Mul(up, v));
      { AddSwap(Mul(down, v), Mul(d, Mul(Add(x, xi), v)), Mul(up, v)); }
      Add(Add(Mul(down, v), Mul(up, v)), Mul(d, Mul(Add(x, xi), v)));
      { MulDistributes(down, up, v); AddCommutes(down, up); }
      Add(Mul(Mul(Add(xj, xi), d), v), Mul(d, Mul(Add(x, xi), v)));
      { MulCommutes(Add(xj, xi), d); MulAssociates(d, Add(xj, xi), v); }
      Add(Mul(d, Mul(Add(xj, xi), v)), Mul(d, Mul(Add(x, xi), v)));
      { MulDistributes(d, Mul(Add(xj, xi), v), Mul(Add(x, xi), v)); MulDistributes(Add(xj, xi), Add(x, xi), v); }
      Mul(d, Mul(Add(Add(xj, xi), Add(x, xi)), v));
      { AddMiddle(xj, x, xi); MulCommutes(Add(x, xj), v); }
      Mul(d, Mul(v, Add(x, xj)));
    }
  }

  lemma AddCommutes(a: Byte, b: Byte)
    ensures Add(a, b) == Add(b, a)
  {}

  lemma AddMiddle(a: Byte, b: Byte, c: Byte)
    ensures Add(Add(a, c), Add(b, c)) == Add(b, a)
  {
    hide Add;
    AddInterchange(a, c, b, c);
    AddSelf(c);
    AddNothing(Add(a, b));
    AddCommutes(a, b);
  }

  // Dropping the first point changes Newton's form by the highest difference times the other factors.
  lemma {:induction false} NewtonShift(values: seq<Byte>, i: nat, j: nat, x: Byte)
    requires i <= j < |values| && j < 255
    ensures Add(Newton(values, i, j + 1, x), Newton(values, i + 1, j + 1, x))
         == Mul(Difference(values, i, j), Span(i + 1, j + 1, x))
    decreases j
  {
    hide *;
    NewtonUnfold(values, i, j, x);
    if i == j {
      SpanUnfold(i, i, x);
      SpanUnfold(i + 1, i, x);
      AddNothing(Mul(Difference(values, i, i), 1));
      AddNothing(Newton(values, i, i + 1, x));
    } else {
      NewtonUnfold(values, i + 1, j, x);
      NewtonShift(values, i, j - 1, x);
      var v := Span(i + 1, j, x);
      SpanFirst(i, j, x);
      SpanUnfold(i + 1, j, x);
      var d, up, down := Difference(values, i, j), Difference(values, i + 1, j), Difference(values, i, j - 1);
      DifferenceUnfold(values, i, j);
      PointsApart(i, j);
      DivLaw(Add(up, down), Add(Point(j), Point(i)));
      ShiftStep(d, up, down, x, Point(i), Point(j), v);
      AddPairs(Newton(values, i, j, x), Mul(d, Span(i, j, x)), Newton(values, i + 1, j, x), Mul(up, v));
    }
  }

  lemma AddPairs(a: Byte, b: Byte, c: Byte, d: Byte)
    ensures Add(Add(a, b), Add(c, d)) == Add(Add(Add(a, c), b), d)
  {
    hide Add;
    AddLaws();
    AddInterchange(a, b, c, d);
  }

  lemma NewtonUnfold(values: seq<Byte>, i: nat, j: nat, x: Byte)
    requires j < |values|
    ensures i <= j ==> Newton(values, i, j + 1, x) == Add(Newton(values, i, j, x), Mul(Difference(values, i, j), Span(i, j, x)))
    ensures j < i ==> Newton(values, i, j + 1, x) == 0
    ensures j == i ==> Newton(values, i, j, x) == 0 && Newton(values, i + 1, j + 1, x) == 0
  {}

  lemma SpanUnfold(i: nat, j: nat, x: Byte)
    ensures i <= j ==> Span(i, j + 1, x) == Mul(Span(i, j, x), Add(x, Point(j)))
    ensures j <= i ==> Span(i, j, x) == 1
    ensures j < i ==> Span(i, j + 1, x) == 1
  {}

  lemma DifferenceUnfold(values: seq<Byte>, i: nat, j: nat)
    requires i <= j < |values|
    ensures i == j ==> Difference(values, i, j) == values[i]
    ensures i < j ==> Difference(values, i, j) == Div(Add(Difference(values, i + 1, j), Difference(values, i, j - 1)), Add(Point(j), Point(i)))
  {}

  lemma {:induction false} SpanVanishes(i: nat, j: nat, m: nat)
    requires i <= m < j
    ensures Span(i, j, Point(m)) == 0
    decreases j
  {
    hide *;
    SpanUnfold(i, j - 1, Point(m));
    if m == j - 1 {
      AddSelf(Point(m));
      MulZero(Span(i, j - 1, Point(m)));
    } else {
      SpanVanishes(i, j - 1, m);
      MulZero(Add(Point(m), Point(j - 1)));
    }
  }

  lemma {:induction false} NewtonAtFirst(values: seq<Byte>, i: nat, j: nat)
    requires i < j <= |values|
    ensures Newton(values, i, j, Point(i)) == values[i]
    decreases j
  {
    hide *;
    NewtonUnfold(values, i, j - 1, Point(i));
    if j == i + 1 {
      SpanUnfold(i, i, Point(i));
      DifferenceUnfold(values, i, i);
      MulOne(values[i]);
      AddNothing(values[i]);
    } else {
      NewtonAtFirst(values, i, j - 1);
      SpanVanishes(i, j - 1, i);
      MulZero(Difference(values, i, j - 1));
      AddNothing(values[i]);
    }
  }

  // Newton's form passes through every one of its points.
  lemma {:induction false} NewtonInterpolates(values: seq<Byte>, i: nat, j: nat, m: nat)
    requires i <= m < j <= |values| && j <= 255
    ensures Newton(values, i, j, Point(m)) == values[m]
    decreases m - i
  {
    hide *;
    if i == m {
      NewtonAtFirst(values, i, j);
    } else {
      NewtonInterpolates(values, i + 1, j, m);
      NewtonShift(values, i, j - 1, Point(m));
      SpanVanishes(i + 1, j, m);
      MulZero(Difference(values, i, j - 1));
      AddZero(Newton(values, i, j, Point(m)), Newton(values, i + 1, j, Point(m)));
    }
  }

  // Newton's form of degree below k, nested from coefficient j on.
  function Nested(values: seq<Byte>, k: nat, j: nat, x: Byte): Byte
    requires j < k <= |values|
    decreases k - j
  {
    if j == k - 1 then Difference(values, 0, j)
    else Add(Mul(Add(x, Point(j)), Nested(values, k, j + 1, x)), Difference(values, 0, j))
  }

  lemma {:induction false} NestedIsNewton(values: seq<Byte>, k: nat, j: nat, x: Byte)
    requires j < k <= |values|
    ensures Add(Newton(values, 0, j, x), Mul(Span(0, j, x), Nested(values, k, j, x))) == Newton(values, 0, k, x)
    decreases k - j
  {
    hide Add, Mul, Newton, Difference, Point, Span;
    NewtonUnfold(values, 0, j, x);
    SpanUnfold(0, j, x);
    var d := Difference(values, 0, j);
    MulCommutes(d, Span(0, j, x));
    if j < k - 1 {
      NestedIsNewton(values, k, j + 1, x);
      NestedStep(Newton(values, 0, j, x), Span(0, j, x), d, Add(x, Point(j)), Nested(values, k, j + 1, x));
    }
  }

  lemma NestedStep(n: Byte, s: Byte, d: Byte, f: Byte, h: Byte)
    ensures Add(n, Mul(s, Add(Mul(f, h), d))) == Add(Add(n, Mul(s, d)), Mul(Mul(s, f), h))
  {
    hide *;
    MulDistributes(s, Mul(f, h), d);
    MulAssociates(s, f, h);
    AddRotate(n, Mul(s, Mul(f, h)), Mul(s, d));
  }

  lemma AddRotate(a: Byte, b: Byte, c: Byte)
    ensures Add(a, Add(b, c)) == Add(Add(a, c), b)
  {
    AddLaws();
    hide Add;
  }

  lemma NestedInterpolates(values: seq<Byte>, k: nat, m: nat)
    requires m < k <= |values| && k <= 255
    ensures Nested(values, k, 0, Point(m)) == values[m]
  {
    hide *;
    var x := Point(m);
    NestedIsNewton(values, k, 0, x);
    NewtonNothing(values, x);
    SpanUnfold(0, 0, x);
    MulOne(Nested(values, k, 0, x));
    AddNothing(Nested(values, k, 0, x));
    NewtonInterpolates(values, 0, k, m);
  }

  lemma NewtonNothing(values: seq<Byte>, x: Byte)
    ensures Newton(values, 0, 0, x) == 0
  {}

  // --- the in-place passes --------------------------------------------------------

  lemma PointNext(i: nat)
    ensures Point(0) == 1
    ensures Point(i + 1) == Mul(Point(i), ALPHA)
  {
    hide Mul, Pow;
    PowOnce(ALPHA, i);
    MulCommutes(ALPHA, Point(i));
  }

  method EvaluationPoints(k: nat) returns (points: array<Byte>)
    requires 0 < k <= MAX_CODEWORD_LEN
    ensures fresh(points) && points.Length == MAX_CODEWORD_LEN
    ensures forall i :: 0 <= i < k ==> points[i] == Point(i)
  {
    hide Mul, Point;
    points := new Byte[MAX_CODEWORD_LEN](i => 0);
    points[0] := 1;
    PointNext(0);
    for i := 1 to k
      invariant forall t :: 0 <= t < i ==> points[t] == Point(t)
    {
      PointNext(i - 1);
      points[i] := GfMul(points[i - 1], ALPHA);
    }
  }

  function Start(j: nat, order: nat): nat {
    if j < order then 0 else j - order
  }

  method DividedDifferences(values: seq<Byte>, k: nat, points: array<Byte>) returns (divided: array<Byte>)
    requires 0 < k <= |values| && k <= MAX_CODEWORD_LEN && points.Length == MAX_CODEWORD_LEN
    requires forall i :: 0 <= i < k ==> points[i] == Point(i)
    ensures fresh(divided) && divided.Length == MAX_CODEWORD_LEN
    ensures forall j :: 0 <= j < k ==> divided[j] == Difference(values, 0, j)
  {
    hide Add, Div, Point, Difference;
    divided := new Byte[MAX_CODEWORD_LEN](i requires 0 <= i < MAX_CODEWORD_LEN => if i < k then values[i] else 0);
    forall j | 0 <= j < k
      ensures divided[j] == Difference(values, Start(j, 0), j)
    {
      DifferenceUnfold(values, j, j);
    }
    for order := 1 to k
      invariant forall j :: 0 <= j < k ==> divided[j] == Difference(values, Start(j, order - 1), j)
    {
      for j := k downto order
        invariant forall t :: j <= t < k ==> divided[t] == Difference(values, Start(t, order), t)
        invariant forall t :: 0 <= t < j ==> divided[t] == Difference(values, Start(t, order - 1), t)
      {
        DifferenceUnfold(values, j - order, j);
        divided[j] := GfDiv(Add(divided[j], divided[j - 1]), Add(points[j], points[j - order]));
      }
    }
  }

  lemma EvalAddConstant(p: Poly, c: Byte, x: Byte)
    requires |p| > 0
    ensures Eval(p[0 := Add(p[0], c)], x) == Add(Eval(p, x), c)
  {
    hide Add, Mul;
    assert p[0 := Add(p[0], c)][1..] == p[1..];
    AddAssociates(Mul(Eval(p[1..], x), x), p[0], c);
  }

  lemma AddAssociates(a: Byte, b: Byte, c: Byte)
    ensures Add(Add(a, b), c) == Add(a, Add(b, c))
  {}

  // (X - r) p + c.
  function HornerStep(p: Poly, r: Byte, c: Byte): Poly
    requires |p| > 0
  {
    MulLinear(p, r)[0 := Add(Mul(r, p[0]), c)]
  }

  lemma EvalHornerStep(p: Poly, r: Byte, c: Byte, x: Byte)
    requires |p| > 0
    ensures Eval(HornerStep(p, r, c), x) == Add(Mul(Add(x, r), Eval(p, x)), c)
  {
    hide Add, Mul, Eval;
    AddNothing(Mul(r, p[0]));
    assert MulLinear(p, r)[0] == Mul(r, p[0]);
    EvalAddConstant(MulLinear(p, r), c, x);
    EvalMulLinear(p, r, x);
  }

  lemma MulLinearCoefficients(p: Poly, r: Byte, t: nat)
    requires |p| > 0 && t <= |p|
    ensures t == |p| ==> MulLinear(p, r)[t] == p[t - 1]
    ensures 0 < t < |p| ==> MulLinear(p, r)[t] == Add(p[t - 1], Mul(r, p[t]))
  {
    hide Add, Mul;
    AddNothing(p[|p| - 1]);
  }

  // Multiplies the first degree + 1 coefficients by (X - r) and adds c, from the top down.
  method HornerStepInPlace(result: array<Byte>, degree: nat, r: Byte, c: Byte)
    requires degree + 1 < result.Length
    modifies result
    ensures result[..degree + 2] == HornerStep(old(result[..degree + 1]), r, c)
    ensures result[degree + 2..] == old(result[degree + 2..])
  {
    hide Add, Mul, MulLinear;
    ghost var p := result[..degree + 1];
    ghost var product := MulLinear(p, r);
    MulLinearCoefficients(p, r, degree + 1);
    result[degree + 1] := result[degree];
    for i := degree + 1 downto 1
      invariant forall t :: i <= t <= degree + 1 ==> result[t] == product[t]
      invariant forall t :: 0 <= t < i ==> result[t] == p[t]
      invariant result[degree + 2..] == old(result[degree + 2..])
    {
      MulLinearCoefficients(p, r, i);
      var scaled := GfMul(r, result[i]);
      result[i] := Add(result[i - 1], scaled);
    }
    var scaled := GfMul(r, result[0]);
    result[0] := Add(scaled, c);
    assert result[..degree + 2] == product[0 := result[0]];
  }

  datatype InterpolationError = NotEnoughValues

  // The polynomial of length k through the first k points.
  method LagrangeInterpolate(values: seq<Byte>, k: nat) returns (r: Result<Poly, InterpolationError>)
    requires k <= MAX_CODEWORD_LEN
    ensures k <= |values| ==> r.Ok? && |r.value| == k && forall i :: 0 <= i < k ==> Eval(r.value, Point(i)) == values[i]
    ensures k > |values| ==> r == Err(NotEnoughValues)
  {
    hide Add, Mul, Eval, Point, Difference, Nested, HornerStep;
    if k == 0 {
      return Ok([]);
    }
    if k > |values| {
      return Err(NotEnoughValues);
    }
    var points := EvaluationPoints(k);
    var divided := DividedDifferences(values, k, points);
    var result := new Byte[k](i => 0);
    result[0] := divided[k - 1];
    assert k - (k - 1) == 1;
    assert result[..1] == [result[0]];
    forall x: Byte
      ensures Eval(result[..1], x) == Nested(values, k, k - 1, x)
    {
      EvalSingle(result[0], x);
      NestedUnfold(values, k, k - 1, x);
    }
    for j := k - 1 downto 0
      modifies result
      invariant forall x: Byte :: Eval(result[..k - j], x) == Nested(values, k, j, x)
    {
      var degree := k - 2 - j;
      ghost var p := result[..degree + 1];
      HornerStepInPlace(result, degree, points[j], divided[j]);
      forall x: Byte
        ensures Eval(result[..k - j], x) == Nested(values, k, j, x)
      {
        EvalHornerStep(p, Point(j), divided[j], x);
        NestedUnfold(values, k, j, x);
      }
    }
    forall i | 0 <= i < k
      ensures Eval(result[..], Point(i)) == values[i]
    {
      assert result[..] == result[..k];
      NestedInterpolates(values, k, i);
    }
    r := Ok(result[..]);
  }

  lemma EvalSingle(c: Byte, x: Byte)
    ensures Eval([c], x) == c
  {
    hide Add, Mul;
    MulZero(x);
    AddNothing(c);
  }

  lemma NestedUnfold(values: seq<Byte>, k: nat, j: nat, x: Byte)
    requires j < k <= |values|
    ensures j == k - 1 ==> Nested(values, k, j, x) == Difference(values, 0, j)
    ensures j < k - 1 ==>
      Nested(values, k, j, x) == Add(Mul(Add(x, Point(j)), Nested(values, k, j + 1, x)), Difference(values, 0, j))
  {}
}
