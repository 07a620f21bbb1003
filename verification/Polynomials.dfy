/** Polynomials over GF(2^8) as coefficient lists in ascending degree order. */
module Polynomials {
  import opened GaloisField
  import opened FieldPowers

  type Poly = seq<Byte>

  function Eval(p: Poly, x: Byte): Byte {
    if |p| == 0 then 0 else Add(Mul(Eval(p[1..], x), x), p[0])
  }

  ghost predicate AllZero(p: Poly) {
    forall i :: 0 <= i < |p| ==> p[i] == 0
  }

  ghost predicate Distinct(xs: seq<Byte>) {
    forall i, j :: 0 <= i < j < |xs| ==> xs[i] != xs[j]
  }

  // --- root counting ----------------------------------------------------------

  // The quotient of p by (X - r).
  function Deflate(p: Poly, r: Byte): (q: Poly)
    ensures |q| == if |p| == 0 then 0 else |p| - 1
  {
    if |p| <= 1 then [] else [Eval(p[1..], r)] + Deflate(p[1..], r)
  }

  // (u + v) = (x + r) w carries over to (u x + c) + (v r + c) = (x + r) (w x + v).
  lemma DeflateStep(u: Byte, v: Byte, w: Byte, x: Byte, r: Byte, c: Byte)
    requires Add(u, v) == Mul(Add(x, r), w)
    ensures Add(Add(Mul(u, x), c), Add(Mul(v, r), c)) == Mul(Add(x, r), Add(Mul(w, x), v))
  {
    hide *;
    calc {
      Mul(Add(x, r), Add(Mul(w, x), v));
      { MulDistributes(Add(x, r), Mul(w, x), v); MulAssociates(Add(x, r), w, x); }
      Add(Mul(Add(u, v), x), Mul(Add(x, r), v));
      { MulDistributes(u, v, x); MulDistributes(x, r, v); MulCommutes(v, x); MulCommutes(v, r); }
      Add(Add(Mul(u, x), Mul(v, x)), Add(Mul(v, x), Mul(v, r)));
      { SumThrough(Mul(u, x), Mul(v, x), Mul(v, r), c); }
      Add(Add(Mul(u, x), c), Add(Mul(v, r), c));
    }
  }

  lemma {:induction false} DeflateEval(p: Poly, r: Byte, x: Byte)
    ensures Add(Eval(p, x), Eval(p, r)) == Mul(Add(x, r), Eval(Deflate(p, r), x))
  {
    hide Add, Mul;
    if |p| > 1 {
      DeflateEval(p[1..], r, x);
      assert Deflate(p, r)[1..] == Deflate(p[1..], r);
      DeflateStep(Eval(p[1..], x), Eval(p[1..], r), Eval(Deflate(p[1..], r), x), x, r, p[0]);
    } else {
      MulZero(Add(x, r));
      MulZero(x);
      MulZero(r);
      AddSelf(Eval(p, x));
    }
  }

  lemma AddSelf(a: Byte)
    ensures Add(a, a) == 0
  {}

  lemma SumThrough(a: Byte, b: Byte, c: Byte, d: Byte)
    ensures Add(Add(a, b), Add(b, c)) == Add(Add(a, d), Add(c, d))
  {
    hide Add;
    AddLaws();
    AddInterchange(a, d, c, d);
    AddInterchange(a, b, c, b);
  }

  lemma {:induction false} DeflateZero(p: Poly, r: Byte)
    requires AllZero(Deflate(p, r)) && Eval(p, r) == 0
    ensures AllZero(p)
  {
    hide Add, Mul;
    AddLaws();
    MulZero(r);
    if |p| > 1 {
      var q := Deflate(p, r);
      assert q[0] == 0;
      assert AllZero(Deflate(p[1..], r)) by {
        assert forall i :: 0 <= i < |p| - 2 ==> Deflate(p[1..], r)[i] == q[i + 1];
      }
      DeflateZero(p[1..], r);
      assert p == [p[0]] + p[1..];
    }
  }

  // A polynomial with as many distinct roots as coefficients is zero.
  lemma {:induction false} RootCount(p: Poly, xs: seq<Byte>)
    requires |xs| >= |p| && Distinct(xs)
    requires forall i :: 0 <= i < |xs| ==> Eval(p, xs[i]) == 0
    ensures AllZero(p)
    decreases |p|
  {
    hide Add, Mul, Eval;
    if |p| > 0 {
      var r := xs[0];
      var q := Deflate(p, r);
      forall i | 0 <= i < |xs[1..]|
        ensures Eval(q, xs[1..][i]) == 0
      {
        var x := xs[i + 1];
        assert x != r;
        DeflateEval(p, r, x);
        AddLaws();
        AddZero(x, r);
        NoZeroDivisors(Add(x, r), Eval(q, x));
      }
      RootCount(q, xs[1..]);
      DeflateZero(p, r);
    }
  }

  function Sum(p: Poly, q: Poly): (s: Poly)
    requires |p| == |q|
  {
    seq(|p|, i requires 0 <= i < |p| => Add(p[i], q[i]))
  }

  lemma {:induction false} EvalSum(p: Poly, q: Poly, x: Byte)
    requires |p| == |q|
    ensures Eval(Sum(p, q), x) == Add(Eval(p, x), Eval(q, x))
  {
    hide Add, Mul;
    AddLaws();
    if |p| > 0 {
      EvalSum(p[1..], q[1..], x);
      assert Sum(p, q)[1..] == Sum(p[1..], q[1..]);
      MulDistributes(Eval(p[1..], x), Eval(q[1..], x), x);
      AddInterchange(Mul(Eval(p[1..], x), x), Mul(Eval(q[1..], x), x), p[0], q[0]);
    }
  }

  // Polynomials of one length that agree on that many distinct points are equal.
  lemma AgreementUnique(p: Poly, q: Poly, xs: seq<Byte>)
    requires |p| == |q| <= |xs| && Distinct(xs)
    requires forall i :: 0 <= i < |xs| ==> Eval(p, xs[i]) == Eval(q, xs[i])
    ensures p == q
  {
    hide Add, Mul, Eval;
    AddLaws();
    forall i | 0 <= i < |xs|
      ensures Eval(Sum(p, q), xs[i]) == 0
    {
      EvalSum(p, q, xs[i]);
    }
    RootCount(Sum(p, q), xs);
    forall i | 0 <= i < |p|
      ensures p[i] == q[i]
    {
      assert Sum(p, q)[i] == 0;
      AddZero(p[i], q[i]);
    }
  }

  // --- products ---------------------------------------------------------------

  function Scale(c: Byte, p: Poly): Poly {
    seq(|p|, i requires 0 <= i < |p| => Mul(c, p[i]))
  }

  // The longer p plus the shorter q.
  function AddInto(p: Poly, q: Poly): Poly
    requires |q| <= |p|
  {
    seq(|p|, i requires 0 <= i < |p| => if i < |q| then Add(p[i], q[i]) else p[i])
  }

  function Product(q: Poly, d: Poly): (r: Poly)
    requires |d| > 0
    ensures |r| == |q| + |d| - 1
  {
    if |q| == 0 then Zeros(|d| - 1)
    else AddInto([0] + Product(q[1..], d), Scale(q[0], d))
  }

  lemma {:induction false} EvalZero(p: Poly, x: Byte)
    requires AllZero(p)
    ensures Eval(p, x) == 0
  {
    hide Add, Mul;
    MulZero(x);
    AddLaws();
    if |p| > 0 {
      EvalZero(p[1..], x);
    }
  }

  lemma {:induction false} EvalScale(c: Byte, p: Poly, x: Byte)
    ensures Eval(Scale(c, p), x) == Mul(c, Eval(p, x))
  {
    hide Add, Mul;
    if |p| == 0 {
      MulZero(c);
    } else {
      assert Scale(c, p)[1..] == Scale(c, p[1..]);
      EvalScale(c, p[1..], x);
      MulAssociates(c, Eval(p[1..], x), x);
      MulDistributes(c, Mul(Eval(p[1..], x), x), p[0]);
    }
  }

  lemma {:induction false} EvalAddInto(p: Poly, q: Poly, x: Byte)
    requires |q| <= |p|
    ensures Eval(AddInto(p, q), x) == Add(Eval(p, x), Eval(q, x))
  {
    hide Add, Mul;
    if |q| == 0 {
      assert AddInto(p, q) == p;
      AddNothing(Eval(p, x));
    } else {
      assert AddInto(p, q)[1..] == AddInto(p[1..], q[1..]);
      EvalAddInto(p[1..], q[1..], x);
      MulDistributes(Eval(p[1..], x), Eval(q[1..], x), x);
      AddInterchange(Mul(Eval(p[1..], x), x), Mul(Eval(q[1..], x), x), p[0], q[0]);
    }
  }

  lemma EvalShift(p: Poly, x: Byte)
    ensures Eval([0] + p, x) == Mul(Eval(p, x), x)
  {
    hide Add, Mul;
    assert ([0] + p)[1..] == p;
    AddNothing(Mul(Eval(p, x), x));
  }

  // Evaluation is multiplicative.
  lemma {:induction false} EvalProduct(q: Poly, d: Poly, x: Byte)
    requires |d| > 0
    ensures Eval(Product(q, d), x) == Mul(Eval(q, x), Eval(d, x))
  {
    hide Add, Mul;
    if |q| == 0 {
      EvalZero(Zeros(|d| - 1), x);
      MulZero(Eval(d, x));
    } else {
      var tail := Product(q[1..], d);
      EvalProduct(q[1..], d, x);
      EvalShift(tail, x);
      EvalScale(q[0], d, x);
      EvalAddInto([0] + tail, Scale(q[0], d), x);
      ProductStep(Eval(q[1..], x), Eval(d, x), x, q[0]);
    }
  }

  lemma ProductStep(q: Byte, d: Byte, x: Byte, c: Byte)
    ensures Add(Mul(Mul(q, d), x), Mul(c, d)) == Mul(Add(Mul(q, x), c), d)
  {
    hide *;
    MulAssociates(q, d, x);
    MulCommutes(d, x);
    MulAssociates(q, x, d);
    MulDistributes(Mul(q, x), c, d);
  }

  // (X - r) p.
  function MulLinear(p: Poly, r: Byte): (s: Poly)
    ensures |s| == |p| + 1
  {
    seq(|p| + 1, i requires 0 <= i <= |p| =>
      Add(if i > 0 then p[i - 1] else 0, if i < |p| then Mul(r, p[i]) else 0))
  }

  lemma EvalMulLinear(p: Poly, r: Byte, x: Byte)
    ensures Eval(MulLinear(p, r), x) == Mul(Add(x, r), Eval(p, x))
  {
    hide Add, Mul, Eval;
    var shifted, scaled := [0] + p, Scale(r, p);
    forall i | 0 <= i <= |p|
      ensures MulLinear(p, r)[i] == AddInto(shifted, scaled)[i]
    {
      AddNothing(shifted[i]);
    }
    assert MulLinear(p, r) == AddInto(shifted, scaled);
    EvalAddInto(shifted, scaled, x);
    EvalShift(p, x);
    EvalScale(r, p, x);
    MulCommutes(Eval(p, x), x);
    MulDistributes(x, r, Eval(p, x));
  }

  lemma {:induction false} EvalAppend(p: Poly, c: Byte, x: Byte)
    ensures Eval(p + [c], x) == Add(Eval(p, x), Mul(c, Pow(x, |p|)))
  {
    hide Add, Mul, Pow;
    PowOnce(x, 0);
    if |p| == 0 {
      MulOne(c);
      MulZero(x);
      AddNothing(c);
    } else {
      assert (p + [c])[1..] == p[1..] + [c];
      EvalAppend(p[1..], c, x);
      PowOnce(x, |p| - 1);
      AppendStep(Eval(p[1..], x), c, Pow(x, |p| - 1), x, p[0]);
    }
  }

  lemma AppendStep(p: Byte, c: Byte, w: Byte, x: Byte, p0: Byte)
    ensures Add(Mul(Add(p, Mul(c, w)), x), p0) == Add(Add(Mul(p, x), p0), Mul(c, Mul(x, w)))
  {
    hide *;
    MulDistributes(p, Mul(c, w), x);
    MulAssociates(c, w, x);
    MulCommutes(w, x);
    AddSwap(Mul(p, x), Mul(c, Mul(x, w)), p0);
  }

  lemma AddSwap(a: Byte, b: Byte, c: Byte)
    ensures Add(Add(a, b), c) == Add(Add(a, c), b)
  {
    AddLaws();
    hide Add;
  }
}
