/** Exact polynomial division: polynomial_divide_exact of error_correction.rs. */
module PolynomialDivision {
  import opened Results
  import opened GaloisField
  import opened FieldPowers
  import opened GfArithmetic
  import opened Polynomials

  datatype DivisionError = InvalidLocator | InvalidDegrees | NonZeroRemainder | UnexpectedLength

  // --- coefficients of products -------------------------------------------------

  // Coefficient i of c X^at d.
  function Term(c: Byte, d: Poly, at: nat, i: nat): Byte {
    if at <= i < at + |d| then Mul(c, d[i - at]) else 0
  }

  lemma ProductCoefficient(q: Poly, d: Poly, i: nat)
    requires |d| > 0 && |q| > 0 && i < |q| + |d| - 1
    ensures Product(q, d)[i] == Add(Term(q[0], d, 0, i), if i > 0 then Product(q[1..], d)[i - 1] else 0)
  {
    hide Add, Mul;
    var tail := Product(q[1..], d);
    assert Product(q, d) == AddInto([0] + tail, Scale(q[0], d));
    AddLaws();
  }

  // Changing one coefficient of q changes the product by that multiple of d.
  lemma {:induction false} ProductUpdate(q: Poly, d: Poly, at: nat, c: Byte, i: nat)
    requires |d| > 0 && at < |q| && i < |q| + |d| - 1 && q[at] == 0
    ensures Product(q[at := c], d)[i] == Add(Product(q, d)[i], Term(c, d, at, i))
  {
    hide Add, Mul, Product;
    var p := q[at := c];
    ProductCoefficient(q, d, i);
    ProductCoefficient(p, d, i);
    if at == 0 {
      assert p[1..] == q[1..];
      if i < |d| {
        MulZero(d[i]);
      }
      AddLaws();
    } else {
      assert p[1..] == q[1..][at - 1 := c];
      if i > 0 {
        ProductUpdate(q[1..], d, at - 1, c, i - 1);
        assert Term(c, d, at, i) == Term(c, d, at - 1, i - 1);
      }
      AddLaws();
    }
  }

  lemma {:induction false} ProductZero(q: Poly, d: Poly, i: nat)
    requires |d| > 0 && i < |q| + |d| - 1 && AllZero(q)
    ensures Product(q, d)[i] == 0
  {
    hide Add, Mul, Product;
    if |q| == 0 {
      ProductEmpty(d);
    } else {
      ProductCoefficient(q, d, i);
      if i < |d| {
        MulZero(d[i]);
      }
      AddLaws();
      if i > 0 {
        ProductZero(q[1..], d, i - 1);
      }
    }
  }

  lemma ProductEmpty(d: Poly)
    requires |d| > 0
    ensures Product([], d) == Zeros(|d| - 1)
  {}

  lemma {:induction false} ProductSum(p: Poly, q: Poly, d: Poly, i: nat)
    requires |d| > 0 && |p| == |q| && i < |p| + |d| - 1
    ensures Product(Sum(p, q), d)[i] == Add(Product(p, d)[i], Product(q, d)[i])
  {
    hide Add, Mul, Product;
    if |p| == 0 {
      ProductEmpty(d);
      assert p == [] && q == [] && Sum(p, q) == [];
      AddLaws();
    } else {
      ProductCoefficient(p, d, i);
      ProductCoefficient(q, d, i);
      ProductCoefficient(Sum(p, q), d, i);
      assert Sum(p, q)[1..] == Sum(p[1..], q[1..]);
      var tp := if i > 0 then Product(p[1..], d)[i - 1] else 0;
      var tq := if i > 0 then Product(q[1..], d)[i - 1] else 0;
      if i > 0 {
        ProductSum(p[1..], q[1..], d, i - 1);
      }
      if i < |d| {
        MulDistributes(p[0], q[0], d[i]);
      }
      AddNothing(0);
      AddInterchange(Term(p[0], d, 0, i), Term(q[0], d, 0, i), tp, tq);
    }
  }

  // A multiple of d with no coefficient at deg(d) or above is zero.
  lemma {:induction false} SmallMultiple(q: Poly, d: Poly)
    requires |d| > 0 && d[|d| - 1] != 0
    requires forall i :: |d| - 1 <= i < |q| + |d| - 1 ==> Product(q, d)[i] == 0
    ensures AllZero(q)
  {
    hide Add, Mul, Product;
    if |q| > 0 {
      var m := |d| - 1;
      forall i | m <= i < |q[1..]| + |d| - 1
        ensures Product(q[1..], d)[i] == 0
      {
        ProductCoefficient(q, d, i + 1);
        AddNothing(Product(q[1..], d)[i]);
      }
      SmallMultiple(q[1..], d);
      ProductCoefficient(q, d, m);
      if m > 0 {
        ProductZero(q[1..], d, m - 1);
      }
      AddNothing(Mul(q[0], d[m]));
      NoZeroDivisors(q[0], d[m]);
      assert q == [q[0]] + q[1..];
    }
  }

  // Quotients by d are unique.
  lemma QuotientUnique(p: Poly, q: Poly, d: Poly)
    requires |d| > 0 && d[|d| - 1] != 0 && |p| == |q|
    requires forall i :: |d| - 1 <= i < |p| + |d| - 1 ==> Product(p, d)[i] == Product(q, d)[i]
    ensures p == q
  {
    hide Add, Mul, Product;
    forall i | |d| - 1 <= i < |p| + |d| - 1
      ensures Product(Sum(p, q), d)[i] == 0
    {
      ProductSum(p, q, d, i);
      AddSelf(Product(p, d)[i]);
    }
    SmallMultiple(Sum(p, q), d);
    forall i | 0 <= i < |p|
      ensures p[i] == q[i]
    {
      assert Sum(p, q)[i] == 0;
      AddZero(p[i], q[i]);
    }
  }

  // --- long division ------------------------------------------------------------

  ghost predicate ValidDivisor(d: Poly) {
    |d| > 0 && d[|d| - 1] != 0
  }

  // q is what division of p by d down to `len` coefficients must return.
  ghost predicate ExactQuotient(p: Poly, d: Poly, len: nat, q: Poly)
    requires ValidDivisor(d)
  {
    |q| == len && (p == Product(q, d) || (len == 0 && AllZero(p)))
  }

  ghost predicate DivisionInvariant(p: Poly, d: Poly, q: Poly, rem: Poly)
    requires ValidDivisor(d)
  {
    && |p| == |rem| == |q| + |d| - 1
    && forall i :: 0 <= i < |p| ==> p[i] == Add(Product(q, d)[i], rem[i])
  }

  lemma DivisionStart(p: Poly, d: Poly, q: Poly)
    requires ValidDivisor(d) && |p| == |q| + |d| - 1 && AllZero(q)
    ensures DivisionInvariant(p, d, q, p)
  {
    hide Add, Product, Mul;
    forall i | 0 <= i < |p|
      ensures p[i] == Add(Product(q, d)[i], p[i])
    {
      ProductZero(q, d, i);
      AddNothing(p[i]);
    }
  }

  lemma DivisionStep(p: Poly, d: Poly, q: Poly, rem: Poly, at: nat, c: Byte, rem': Poly)
    requires ValidDivisor(d) && DivisionInvariant(p, d, q, rem)
    requires at < |q| && q[at] == 0 && |rem'| == |rem|
    requires forall i :: 0 <= i < |rem| ==> rem'[i] == Add(rem[i], Term(c, d, at, i))
    ensures DivisionInvariant(p, d, q[at := c], rem')
  {
    hide Add, Product, Mul, Term;
    forall i | 0 <= i < |p|
      ensures p[i] == Add(Product(q[at := c], d)[i], rem'[i])
    {
      ProductUpdate(q, d, at, c, i);
      AddMove(Product(q, d)[i], Term(c, d, at, i), rem[i]);
    }
  }

  lemma AddMove(a: Byte, t: Byte, b: Byte)
    ensures Add(Add(a, t), Add(b, t)) == Add(a, b)
  {
    hide Add;
    AddInterchange(a, t, b, t);
    AddSelf(t);
    AddNothing(Add(a, b));
  }

  // One row of the long division: subtract c X^at d from the remainder.
  method SubtractMultiple(remainder: array<Byte>, d: Poly, at: nat, c: Byte)
    requires at + |d| <= remainder.Length
    modifies remainder
    ensures forall i :: 0 <= i < remainder.Length ==> remainder[i] == Add(old(remainder[i]), Term(c, d, at, i))
  {
    hide Add, Mul;
    ghost var before := remainder[..];
    forall b: Byte
      ensures Add(b, 0) == b
    {
      AddNothing(b);
    }
    for offset := 0 to |d|
      invariant forall i :: 0 <= i < remainder.Length ==>
        remainder[i] == if at <= i < at + offset then Add(before[i], Mul(c, d[i - at])) else before[i]
    {
      var product := GfMul(c, d[offset]);
      remainder[at + offset] := Add(remainder[at + offset], product);
    }
  }

  lemma LeadingTermCancels(top: Byte, lead: Byte)
    requires lead != 0
    ensures Add(top, Mul(Div(top, lead), lead)) == 0
  {
    hide Add, Mul, Div;
    DivLaw(top, lead);
    MulCommutes(lead, Div(top, lead));
    AddSelf(top);
  }

  method LongDivision(numerator: Poly, denominator: Poly) returns (quotient: array<Byte>, remainder: array<Byte>)
    requires ValidDivisor(denominator) && |numerator| >= |denominator|
    ensures DivisionInvariant(numerator, denominator, quotient[..], remainder[..])
    ensures forall i :: |denominator| - 1 <= i < |numerator| ==> remainder[i] == 0
  {
    hide Add, Mul, Product, Div, DivisionInvariant;
    var m := |denominator| - 1;
    remainder := new Byte[|numerator|](i requires 0 <= i < |numerator| => numerator[i]);
    quotient := new Byte[|numerator| - m](i => 0);
    assert remainder[..] == numerator;
    DivisionStart(numerator, denominator, quotient[..]);
    for degree := |numerator| downto m
      invariant DivisionInvariant(numerator, denominator, quotient[..], remainder[..])
      invariant forall i :: degree <= i < |numerator| ==> remainder[i] == 0
      invariant forall j :: 0 <= j < degree - m ==> quotient[j] == 0
    {
      var coefficient := GfDiv(remainder[degree], denominator[m]);
      LeadingTermCancels(remainder[degree], denominator[m]);
      var at := degree - m;
      ghost var q, rem := quotient[..], remainder[..];
      quotient[at] := coefficient;
      SubtractMultiple(remainder, denominator, at, coefficient);
      assert quotient[..] == q[at := coefficient];
      DivisionStep(numerator, denominator, q, rem, at, coefficient, remainder[..]);
      AddNothing(0);
    }
  }

  lemma ZeroRemainderIsProduct(p: Poly, d: Poly, q: Poly, rem: Poly)
    requires ValidDivisor(d) && DivisionInvariant(p, d, q, rem) && AllZero(rem)
    ensures p == Product(q, d)
  {
    hide Add, Product;
    forall i | 0 <= i < |p|
      ensures p[i] == Product(q, d)[i]
    {
      AddNothing(Product(q, d)[i]);
    }
  }

  // The quotient computed by long division is the only one there can be.
  lemma QuotientForced(p: Poly, d: Poly, q: Poly, rem: Poly, t: Poly)
    requires ValidDivisor(d) && DivisionInvariant(p, d, q, rem)
    requires forall i :: |d| - 1 <= i < |p| ==> rem[i] == 0
    requires p == Product(t, d)
    ensures t == q && AllZero(rem)
  {
    hide Add, Product;
    forall i | |d| - 1 <= i < |p|
      ensures Product(q, d)[i] == Product(t, d)[i]
    {
      AddNothing(Product(q, d)[i]);
    }
    QuotientUnique(q, t, d);
    forall i | 0 <= i < |rem|
      ensures rem[i] == 0
    {
      AddCancelsLeft(Product(q, d)[i], rem[i]);
    }
  }

  lemma AddCancelsLeft(a: Byte, b: Byte)
    ensures a == Add(a, b) ==> b == 0
  {}

  // Exact division returns the quotient exactly when there is one of the expected length.
  method PolynomialDivideExact(numerator: Poly, denominator: Poly, expectedLen: nat)
    returns (r: Result<Poly, DivisionError>)
    ensures !ValidDivisor(denominator) ==> r == Err(InvalidLocator)
    ensures ValidDivisor(denominator) ==>
      forall q :: r == Ok(q) <==> ExactQuotient(numerator, denominator, expectedLen, q)
  {
    hide Product;
    if |denominator| == 0 || denominator[|denominator| - 1] == 0 {
      return Err(InvalidLocator);
    }
    if expectedLen == 0 && forall i :: 0 <= i < |numerator| ==> numerator[i] == 0 {
      return Ok([]);
    }
    if |numerator| < |denominator| {
      ProductEmpty(denominator);
      assert forall q: Poly :: |q| == 0 ==> q == [];
      return Err(InvalidDegrees);
    }
    var quotient, remainder := LongDivision(numerator, denominator);
    ghost var q, rem := quotient[..], remainder[..];
    forall t | numerator == Product(t, denominator)
      ensures t == q && AllZero(rem)
    {
      QuotientForced(numerator, denominator, q, rem, t);
    }
    if exists i :: 0 <= i < |denominator| - 1 && remainder[i] != 0 {
      return Err(NonZeroRemainder);
    }
    assert AllZero(rem);
    ZeroRemainderIsProduct(numerator, denominator, q, rem);
    if quotient.Length != expectedLen {
      return Err(UnexpectedLength);
    }
    r := Ok(quotient[..]);
  }
}
