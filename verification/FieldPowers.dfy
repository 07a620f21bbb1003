/** Powers, inverses and the order of the evaluation generator. */
module FieldPowers {
  import opened GaloisField

  function Pow(a: Byte, n: nat): Byte
    decreases n
  {
    if n == 0 then 1 else Mul(a, Pow(a, n - 1))
  }

  function Inv(a: Byte): Byte {
    if a == 0 then 0 else Pow(a, 254)
  }

  function Div(a: Byte, b: Byte): Byte {
    if b == 0 then 0 else Mul(a, Inv(b))
  }

  lemma PowOnce(a: Byte, n: nat)
    ensures Pow(a, 0) == 1
    ensures Pow(a, n + 1) == Mul(a, Pow(a, n))
  {}

  lemma {:induction false} PowAdd(a: Byte, m: nat, n: nat)
    ensures Pow(a, m + n) == Mul(Pow(a, m), Pow(a, n))
    decreases m
  {
    hide *;
    PowOnce(a, 0);
    if m == 0 {
      MulOne(Pow(a, n));
    } else {
      PowAdd(a, m - 1, n);
      PowOnce(a, m - 1);
      PowOnce(a, m - 1 + n);
      assert m - 1 + n + 1 == m + n;
      MulAssociates(a, Pow(a, m - 1), Pow(a, n));
    }
  }

  lemma {:induction false} PowPow(a: Byte, m: nat, n: nat)
    ensures Pow(Pow(a, m), n) == Pow(a, m * n)
    decreases n
  {
    hide *;
    PowOnce(a, 0);
    PowOnce(Pow(a, m), 0);
    if n > 0 {
      PowPow(a, m, n - 1);
      PowOnce(Pow(a, m), n - 1);
      PowAdd(a, m, m * (n - 1));
      assert m * n == m + m * (n - 1);
    }
  }

  lemma {:induction false} PowOfOne(n: nat)
    ensures Pow(1, n) == 1
    decreases n
  {
    hide *;
    PowOnce(1, 0);
    if n > 0 {
      PowOfOne(n - 1);
      PowOnce(1, n - 1);
      MulOne(1);
    }
  }

  // --- inverses -------------------------------------------------------------

  // The same product written without branches, so that it can be decided bit by bit.
  function XTimeFlat(a: Byte): Byte { (a << 1) ^ (0x1B & (0 - (a >> 7))) }

  function GateFlat(a: Byte, b: Byte): Byte { a & (0 - (b & 1)) }

  function MulFlat(a: Byte, b: Byte): Byte {
    var a1 := XTimeFlat(a);
    var a2 := XTimeFlat(a1);
    var a3 := XTimeFlat(a2);
    var a4 := XTimeFlat(a3);
    var a5 := XTimeFlat(a4);
    var a6 := XTimeFlat(a5);
    var a7 := XTimeFlat(a6);
    GateFlat(a, b) ^ (GateFlat(a1, b >> 1) ^ (GateFlat(a2, b >> 2) ^ (GateFlat(a3, b >> 3) ^
    (GateFlat(a4, b >> 4) ^ (GateFlat(a5, b >> 5) ^ (GateFlat(a6, b >> 6) ^ GateFlat(a7, b >> 7)))))))
  }

  lemma FlatSteps()
    ensures forall a {:trigger XTime(a)} :: XTime(a) == XTimeFlat(a)
    ensures forall a, b {:trigger Gate(a, b)} :: Gate(a, b) == GateFlat(a, b)
  {}

  lemma MulIsFlat(a: Byte, b: Byte)
    ensures Mul(a, b) == MulFlat(a, b)
  {
    FlatSteps();
    hide XTime, Gate, XTimeFlat, GateFlat;
    assert Half(b) == b >> 1;
    assert Half(b >> 1) == b >> 2;
    assert Half(b >> 2) == b >> 3;
    assert Half(b >> 3) == b >> 4;
    assert Half(b >> 4) == b >> 5;
    assert Half(b >> 5) == b >> 6;
    assert Half(b >> 6) == b >> 7;
  }

  // a * a^2 * a^4 * ... * a^128.
  function AllSquares(a: Byte): Byte {
    var a2 := MulFlat(a, a);
    var a4 := MulFlat(a2, a2);
    var a8 := MulFlat(a4, a4);
    var a16 := MulFlat(a8, a8);
    var a32 := MulFlat(a16, a16);
    var a64 := MulFlat(a32, a32);
    MulFlat(a, MulFlat(a2, MulFlat(a4, MulFlat(a8, MulFlat(a16, MulFlat(a32, MulFlat(a64, MulFlat(a64, a64))))))))
  }

  lemma AllSquares0(a: Byte)
    requires a != 0 && a & 3 == 0
    ensures AllSquares(a) == 1
  {}

  lemma AllSquares1(a: Byte)
    requires a & 3 == 1
    ensures AllSquares(a) == 1
  {}

  lemma AllSquares2(a: Byte)
    requires a & 3 == 2
    ensures AllSquares(a) == 1
  {}

  lemma AllSquares3(a: Byte)
    requires a & 3 == 3
    ensures AllSquares(a) == 1
  {}

  lemma AllSquaresOne(a: Byte)
    requires a != 0
    ensures AllSquares(a) == 1
  {
    hide AllSquares;
    if a & 3 == 0 {
      AllSquares0(a);
    } else if a & 3 == 1 {
      AllSquares1(a);
    } else if a & 3 == 2 {
      AllSquares2(a);
    } else {
      AllSquares3(a);
    }
  }

  lemma PowDouble(a: Byte, n: nat)
    ensures Pow(a, 2 * n) == MulFlat(Pow(a, n), Pow(a, n))
  {
    hide *;
    PowAdd(a, n, n);
    assert n + n == 2 * n;
    MulIsFlat(Pow(a, n), Pow(a, n));
  }

  lemma PowSum(a: Byte, m: nat, n: nat)
    ensures Pow(a, m + n) == MulFlat(Pow(a, m), Pow(a, n))
  {
    hide *;
    PowAdd(a, m, n);
    MulIsFlat(Pow(a, m), Pow(a, n));
  }

  lemma PowFirst(a: Byte)
    ensures Pow(a, 1) == a
  {
    hide *;
    PowOnce(a, 0);
    MulOne(a);
  }

  lemma Pow255(a: Byte)
    ensures Pow(a, 255) == AllSquares(a)
  {
    hide Pow, MulFlat;
    PowFirst(a);
    PowDouble(a, 1);
    PowDouble(a, 2);
    PowDouble(a, 4);
    PowDouble(a, 8);
    PowDouble(a, 16);
    PowDouble(a, 32);
    PowDouble(a, 64);
    PowSum(a, 64, 128);
    PowSum(a, 32, 192);
    PowSum(a, 16, 224);
    PowSum(a, 8, 240);
    PowSum(a, 4, 248);
    PowSum(a, 2, 252);
    PowSum(a, 1, 254);
  }

  // Every nonzero element has its inverse.
  lemma InverseLaw(a: Byte)
    requires a != 0
    ensures Mul(a, Inv(a)) == 1 && Inv(a) != 0
  {
    hide Mul, AllSquares, Pow;
    Pow255(a);
    AllSquaresOne(a);
    PowOnce(a, 254);
    MulZero(a);
  }

  lemma NoZeroDivisors(a: Byte, b: Byte)
    requires Mul(a, b) == 0
    ensures a == 0 || b == 0
  {
    hide *;
    if a != 0 {
      calc {
        b;
        { MulOne(b); InverseLaw(a); }
        Mul(Mul(a, Inv(a)), b);
        { MulCommutes(a, Inv(a)); MulAssociates(Inv(a), a, b); }
        Mul(Inv(a), Mul(a, b));
        { MulZero(Inv(a)); }
        0;
      }
    }
  }

  lemma MulCancels(a: Byte, b: Byte, c: Byte)
    requires a != 0 && Mul(a, b) == Mul(a, c)
    ensures b == c
  {
    hide *;
    AddLaws();
    MulDistributes(a, b, c);
    NoZeroDivisors(a, Add(b, c));
    AddZero(b, c);
  }

  lemma AddZero(a: Byte, b: Byte)
    ensures Add(a, b) == 0 <==> a == b
  {}

  // Division undoes multiplication.
  lemma DivLaw(a: Byte, b: Byte)
    requires b != 0
    ensures Mul(b, Div(a, b)) == a
    ensures forall q {:trigger Mul(b, q)} :: Mul(b, q) == a ==> q == Div(a, b)
  {
    hide Mul, Inv;
    calc {
      Mul(b, Mul(a, Inv(b)));
      { MulCommutes(a, Inv(b)); MulAssociates(b, Inv(b), a); }
      Mul(Mul(b, Inv(b)), a);
      { InverseLaw(b); MulOne(a); }
      a;
    }
    forall q | Mul(b, q) == a
      ensures q == Div(a, b)
    {
      MulCancels(b, q, Div(a, b));
    }
  }

  // --- the generator 3 ------------------------------------------------------

  const ALPHA: Byte := 3

  lemma {:induction false} PowNonzero(n: nat)
    ensures Pow(ALPHA, n) != 0
    decreases n
  {
    hide Mul, Pow;
    PowOnce(ALPHA, 0);
    if n > 0 {
      PowNonzero(n - 1);
      PowOnce(ALPHA, n - 1);
      if Pow(ALPHA, n) == 0 {
        NoZeroDivisors(ALPHA, Pow(ALPHA, n - 1));
      }
    }
  }

  lemma SmallPowers()
    ensures Pow(ALPHA, 15) != 1 && Pow(ALPHA, 51) != 1 && Pow(ALPHA, 85) != 1
  {
    hide Pow;
    PowFirst(3);
    PowDouble(3, 1);
    PowDouble(3, 2);
    PowDouble(3, 4);
    PowDouble(3, 8);
    PowDouble(3, 16);
    PowDouble(3, 32);
    PowSum(3, 1, 2);
    PowSum(3, 3, 4);
    PowSum(3, 7, 8);
    PowSum(3, 3, 16);
    PowSum(3, 19, 32);
    PowSum(3, 1, 4);
    PowSum(3, 5, 16);
    PowSum(3, 21, 64);
  }

  // The factors of 255 up to 15.
  lemma SmallFactor(a: nat, b: nat)
    requires a * b == 255 && a <= 15
    ensures a == 1 || a == 3 || a == 5 || a == 15
  {
    if a == 2 {
    } else if a == 4 {
    } else if a == 6 {
    } else if a == 7 {
    } else if a == 8 {
    } else if a == 9 {
    } else if a == 10 {
    } else if a == 11 {
    } else if a == 12 {
    } else if a == 13 {
    } else if a == 14 {
    }
  }

  lemma ProductGrows(a: nat, b: nat)
    requires a >= 16 && b >= 16
    ensures a * b >= 256
  {}

  // Proper divisors of 255 = 3 * 5 * 17 divide 15, 51 or 85.
  lemma ProperDivisor(d: nat, q: nat)
    requires d * q == 255 && q > 1
    ensures exists e {:trigger d * e} :: 0 <= e && (d * e == 15 || d * e == 51 || d * e == 85)
  {
    if d >= 16 && q >= 16 {
      ProductGrows(d, q);
    } else if d <= 15 {
      SmallFactor(d, q);
      assert d * (15 / d) == 15;
    } else {
      SmallFactor(q, d);
      assert d * (if q == 15 then 3 else 1) == (if q == 3 then 85 else 51);
    }
  }

  lemma PowMultiple(a: Byte, d: nat, e: nat)
    requires Pow(a, d) == 1
    ensures Pow(a, d * e) == 1
  {
    hide *;
    PowPow(a, d, e);
    PowOfOne(e);
  }

  lemma PowReduce(a: Byte, d: nat, n: nat)
    requires d > 0 && Pow(a, d) == 1 && Pow(a, n) == 1
    ensures Pow(a, n % d) == 1
  {
    hide *;
    PowMultiple(a, d, n / d);
    PowAdd(a, d * (n / d), n % d);
    assert d * (n / d) + n % d == n;
    MulOne(Pow(a, n % d));
  }

  lemma AlphaPow255()
    ensures Pow(ALPHA, 255) == 1
  {
    hide Pow, AllSquares;
    Pow255(ALPHA);
    AllSquaresOne(ALPHA);
  }

  // No power of 3 below the 255th returns to 1.
  lemma {:induction false} NoSmallPeriod(k: nat)
    requires 0 < k < 255
    ensures Pow(ALPHA, k) != 1
    decreases k
  {
    hide *;
    if Pow(ALPHA, k) == 1 {
      AlphaPow255();
      PowReduce(ALPHA, k, 255);
      var r := 255 % k;
      if r > 0 {
        NoSmallPeriod(r);
      } else {
        var q := 255 / k;
        ProperDivisor(k, q);
        var e: nat :| k * e == 15 || k * e == 51 || k * e == 85;
        PowMultiple(ALPHA, k, e);
        SmallPowers();
      }
    }
  }

  // The evaluation points of any codeword of at most 255 symbols are distinct.
  lemma PointsDistinct(i: nat, j: nat)
    requires i < j < 255
    ensures Pow(ALPHA, i) != Pow(ALPHA, j)
  {
    hide *;
    if Pow(ALPHA, i) == Pow(ALPHA, j) {
      PowAdd(ALPHA, i, j - i);
      MulOne(Pow(ALPHA, i));
      PowNonzero(i);
      MulCancels(Pow(ALPHA, i), Pow(ALPHA, j - i), 1);
      NoSmallPeriod(j - i);
    }
  }

  // 3 is primitive: its order is exactly 255.
  lemma AlphaIsPrimitive(n: nat)
    ensures Pow(ALPHA, n) == 1 <==> n % 255 == 0
  {
    hide *;
    AlphaPow255();
    if Pow(ALPHA, n) == 1 {
      PowReduce(ALPHA, 255, n);
      if n % 255 > 0 {
        NoSmallPeriod(n % 255);
      }
    } else if n % 255 == 0 {
      PowMultiple(ALPHA, 255, n / 255);
    }
  }
}
