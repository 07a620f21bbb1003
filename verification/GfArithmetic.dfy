module GfArithmetic {
  import opened GaloisField
  import opened FieldPowers

  // --- 16-bit intermediate values -------------------------------------------

  type Wide = bv16

  function Low(v: Wide): Byte { (v & 0xFF) as Byte }

  function High(v: Wide): Byte { (v >> 8) as Byte }

  function TestBit(v: Wide, i: nat): bool
    requires i < 16
  {
    (v >> i) & 1 == 1
  }

  function ShiftLeft(v: Wide, i: nat): Wide
    requires i < 16
  {
    v << i
  }

  // No bit at position i or above is set.
  predicate Below(v: Wide, i: nat)
    requires i <= 16
  {
    v >> i == 0
  }

  // The field element that a carry-less product stands for: x^8 is replaced by 0x1B.
  function Fold(v: Wide): Byte {
    Add(Low(v), Mul(0x1B, High(v)))
  }

  lemma SplitXor(v: Wide, w: Wide)
    ensures Low(v ^ w) == Add(Low(v), Low(w))
    ensures High(v ^ w) == Add(High(v), High(w))
  {}

  lemma FoldLinear(v: Wide, w: Wide)
    ensures Fold(v ^ w) == Add(Fold(v), Fold(w))
  {
    hide Add, Mul, Low, High;
    SplitXor(v, w);
    MulDistributes(0x1B, High(v), High(w));
    AddInterchange(Low(v), Low(w), Mul(0x1B, High(v)), Mul(0x1B, High(w)));
  }

  lemma NarrowParts(v: Wide)
    requires Below(v, 8)
    ensures Low(v) == v as Byte && High(v) == 0
  {}

  lemma FoldNarrow(v: Wide)
    requires Below(v, 8)
    ensures Fold(v) == v as Byte
  {
    hide Mul, Below, Low, High, Add;
    NarrowParts(v);
    MulZero(0x1B);
    AddLaws();
  }

  // --- shifting -------------------------------------------------------------

  lemma SplitDouble(v: Wide)
    requires Below(v, 15)
    ensures Low(v << 1) == Low(v) << 1
    ensures High(v << 1) == Add(XTime(High(v)), Low(v) >> 7)
  {}

  lemma SplitXTime(b: Byte)
    ensures XTime(b) == Add(b << 1, Gate(0x1B, b >> 7))
    ensures b >> 7 == 0 || b >> 7 == 1
  {}

  lemma GateCases(a: Byte)
    ensures Gate(a, 0) == 0 && Gate(a, 1) == a
  {}

  lemma MulTopBit(b: Byte)
    ensures Mul(0x1B, b >> 7) == Gate(0x1B, b >> 7)
  {
    hide Mul, Gate, XTime;
    SplitXTime(b);
    GateCases(0x1B);
    MulOne(0x1B);
    MulZero(0x1B);
  }

  lemma MulXTimeRight(a: Byte, b: Byte)
    ensures Mul(a, XTime(b)) == XTime(Mul(a, b))
  {
    hide MulSteps, XTime;
    MulStepsXTimeRight(a, b);
  }

  lemma FoldDouble(v: Wide)
    requires Below(v, 15)
    ensures Fold(v << 1) == XTime(Fold(v))
  {
    hide Mul, Add, XTime, Gate, Low, High, Below;
    var lo, hi := Low(v), High(v);
    SplitDouble(v);
    calc {
      Fold(v << 1);
      Add(lo << 1, Mul(0x1B, Add(XTime(hi), lo >> 7)));
      { MulDistributes(0x1B, XTime(hi), lo >> 7); }
      Add(lo << 1, Add(Mul(0x1B, XTime(hi)), Mul(0x1B, lo >> 7)));
      { MulXTimeRight(0x1B, hi); MulTopBit(lo); }
      Add(lo << 1, Add(XTime(Mul(0x1B, hi)), Gate(0x1B, lo >> 7)));
      { AddLaws(); }
      Add(Add(lo << 1, Gate(0x1B, lo >> 7)), XTime(Mul(0x1B, hi)));
      { SplitXTime(lo); XTimeLinear(lo, Mul(0x1B, hi)); }
      XTime(Add(lo, Mul(0x1B, hi)));
      XTime(Fold(v));
    }
  }

  lemma ShiftOnce(a: Byte, i: nat)
    requires i < 7
    ensures Below(ShiftLeft(a as Wide, i), 15)
    ensures ShiftLeft(a as Wide, i + 1) == ShiftLeft(a as Wide, i) << 1
  {
    if i == 0 {
    } else if i == 1 {
    } else if i == 2 {
    } else if i == 3 {
    } else if i == 4 {
    } else if i == 5 {
    } else {
    }
  }

  lemma ShiftZero(a: Byte)
    ensures ShiftLeft(a as Wide, 0) == a as Wide && Below(a as Wide, 8) && (a as Wide) as Byte == a
  {}

  lemma {:induction false} XTimesOnce(n: nat, a: Byte)
    ensures XTimes(0, a) == a
    ensures XTimes(n + 1, a) == XTime(XTimes(n, a))
    decreases n
  {
    hide XTime;
    if n > 0 {
      XTimesOnce(n - 1, XTime(a));
    }
  }

  lemma {:induction false} HalvesOnce(n: nat, b: Byte)
    ensures Halves(0, b) == b
    ensures Halves(n + 1, b) == Half(Halves(n, b))
    decreases n
  {
    hide Half;
    if n > 0 {
      HalvesOnce(n - 1, Half(b));
    }
  }

  lemma {:induction false} FoldShift(a: Byte, i: nat)
    requires i < 8
    ensures Fold(ShiftLeft(a as Wide, i)) == XTimes(i, a)
    decreases i
  {
    hide *;
    if i == 0 {
      ShiftZero(a);
      FoldNarrow(a as Wide);
      XTimesOnce(0, a);
    } else {
      FoldShift(a, i - 1);
      ShiftOnce(a, i - 1);
      FoldDouble(ShiftLeft(a as Wide, i - 1));
      XTimesOnce(i - 1, a);
    }
  }

  // --- the carry-less product -----------------------------------------------

  lemma GateBit(a: Byte, b: Byte, i: nat)
    requires i < 8
    ensures Gate(a, Halves(i, b)) == if TestBit(b as Wide, i) then a else 0
  {
  }

  // One round: what is still to be added loses its first term.
  lemma CarrylessRound(a: Byte, b: Byte, i: nat, result: Wide)
    requires i < 8
    ensures var next := if TestBit(b as Wide, i) then Fold(result ^ ShiftLeft(a as Wide, i)) else Fold(result);
            Add(Fold(result), MulSteps(8 - i, XTimes(i, a), Halves(i, b)))
            == Add(next, MulSteps(7 - i, XTimes(i + 1, a), Halves(i + 1, b)))
  {
    hide *;
    var x, h := XTimes(i, a), Halves(i, b);
    GateBit(x, b, i);
    FoldShift(a, i);
    FoldLinear(result, ShiftLeft(a as Wide, i));
    MulStepsOnce(7 - i, x, h);
    XTimesOnce(i, a);
    HalvesOnce(i, b);
    AddLaws();
  }

  lemma CarrylessBound(a: Byte, i: nat, result: Wide)
    requires i < 8 && Below(result, 15)
    ensures Below(result ^ ShiftLeft(a as Wide, i), 15)
  {
    if i == 0 {
    } else if i == 1 {
    } else if i == 2 {
    } else if i == 3 {
    } else if i == 4 {
    } else if i == 5 {
    } else if i == 6 {
    } else {
    }
  }

  lemma MulIsSteps(a: Byte, b: Byte)
    ensures Mul(a, b) == MulSteps(8, a, b)
  {
    hide MulSteps;
  }

  lemma CarrylessStart(a: Byte, b: Byte)
    ensures Below(0, 15)
    ensures Add(Fold(0), MulSteps(8, XTimes(0, a), Halves(0, b))) == Mul(a, b)
  {
    assert Below(0, 15) && Below(0, 8);
    hide *;
    FoldNarrow(0);
    XTimesOnce(0, a);
    HalvesOnce(0, b);
    AddLaws();
    MulIsSteps(a, b);
  }

  lemma CarrylessEnd(result: Wide, a: Byte, b: Byte)
    ensures Add(Fold(result), MulSteps(0, a, b)) == Fold(result)
  {
    hide *;
    MulStepsBase(a, b);
    AddLaws();
  }

  // --- the reduction --------------------------------------------------------

  // Every shifted copy of the modulus folds to zero.
  lemma FoldModulus(j: nat)
    requires j <= 6
    ensures Fold(ShiftLeft(0x11B, j)) == 0
  {
    if j == 0 {
    } else if j == 1 {
    } else if j == 2 {
    } else if j == 3 {
    } else if j == 4 {
    } else if j == 5 {
    } else {
    }
  }

  // Clearing bit i of a value that has no higher bit.
  lemma ReductionClears(result: Wide, i: nat)
    requires 8 <= i <= 14 && Below(result, i + 1)
    ensures if result & ShiftLeft(1, i) != 0 then Below(result ^ ShiftLeft(0x11B, i - 8), i) else Below(result, i)
  {
    if i == 8 {
    } else if i == 9 {
    } else if i == 10 {
    } else if i == 11 {
    } else if i == 12 {
    } else if i == 13 {
    } else {
    }
  }

  lemma ReductionKeeps(result: Wide, i: nat)
    requires 8 <= i <= 14
    ensures Fold(result ^ ShiftLeft(0x11B, i - 8)) == Fold(result)
  {
    hide *;
    FoldModulus(i - 8);
    FoldLinear(result, ShiftLeft(0x11B, i - 8));
    AddLaws();
  }

  // After i rounds the product so far and the rounds left make up a * b.
  ghost predicate AfterRounds(a: Byte, b: Byte, i: nat, result: Wide)
    requires i <= 8
  {
    Below(result, 15) && Add(Fold(result), MulSteps(8 - i, XTimes(i, a), Halves(i, b))) == Mul(a, b)
  }

  lemma RoundsStart(a: Byte, b: Byte)
    ensures AfterRounds(a, b, 0, 0)
  {
    CarrylessStart(a, b);
    hide Below, Add, Fold, MulSteps, Mul, XTimes, Halves;
  }

  lemma RoundsStep(a: Byte, b: Byte, i: nat, result: Wide)
    requires i < 8 && AfterRounds(a, b, i, result)
    ensures AfterRounds(a, b, i + 1, if TestBit(b as Wide, i) then result ^ ShiftLeft(a as Wide, i) else result)
  {
    hide Below, Add, Fold, MulSteps, Mul, XTimes, Halves, TestBit, ShiftLeft;
    CarrylessRound(a, b, i, result);
    CarrylessBound(a, i, result);
  }

  lemma RoundsEnd(a: Byte, b: Byte, result: Wide)
    requires AfterRounds(a, b, 8, result)
    ensures Below(result, 15) && Fold(result) == Mul(a, b)
  {
    hide Below, Add, Fold, MulSteps, Mul, XTimes, Halves;
    CarrylessEnd(result, XTimes(8, a), Halves(8, b));
  }

  method CarrylessMul(a: Byte, b: Byte) returns (result: Wide)
    ensures Below(result, 15)
    ensures Fold(result) == Mul(a, b)
  {
    hide *;
    var wideA, wideB := a as Wide, b as Wide;
    result := 0;
    RoundsStart(a, b);
    for i := 0 to 8
      invariant AfterRounds(a, b, i, result)
    {
      RoundsStep(a, b, i, result);
      if TestBit(wideB, i) {
        result := result ^ ShiftLeft(wideA, i);
      }
    }
    RoundsEnd(a, b, result);
  }

  method Reduce(wide: Wide) returns (product: Byte)
    requires Below(wide, 15)
    ensures product == Fold(wide)
  {
    hide *;
    var result := wide;
    for i := 15 downto 8
      invariant Below(result, i)
      invariant Fold(result) == Fold(wide)
    {
      ReductionClears(result, i);
      ReductionKeeps(result, i);
      if result & ShiftLeft(1, i) != 0 {
        result := result ^ ShiftLeft(0x11B, i - 8);
      }
    }
    FoldNarrow(result);
    NarrowParts(result);
    product := Low(result);
  }

  method GfMul(a: Byte, b: Byte) returns (product: Byte)
    ensures product == Mul(a, b)
  {
    hide *;
    var result := CarrylessMul(a, b);
    product := Reduce(result);
  }

  // --- powers ---------------------------------------------------------------

  lemma SquareHalf(b: Byte, h: nat)
    ensures Pow(Mul(b, b), h) == Pow(b, 2 * h)
  {
    hide *;
    PowFirst(b);
    PowOnce(b, 1);
    PowPow(b, 2, h);
  }

  lemma SquareRound(b: Byte, e: nat, result: Byte)
    requires e > 0
    ensures Mul(if e % 2 == 1 then Mul(result, b) else result, Pow(Mul(b, b), e / 2)) == Mul(result, Pow(b, e))
  {
    hide *;
    var h := e / 2;
    SquareHalf(b, h);
    if e % 2 == 1 {
      assert e == 2 * h + 1;
      PowOnce(b, 2 * h);
      MulAssociates(result, b, Pow(b, 2 * h));
    } else {
      assert e == 2 * h;
    }
  }

  method GfPow(base: Byte, exponent: nat) returns (result: Byte)
    ensures result == Pow(base, exponent)
  {
    hide *;
    result := 1;
    var b, e := base, exponent;
    MulOne(Pow(base, exponent));
    while e != 0
      invariant Mul(result, Pow(b, e)) == Pow(base, exponent)
    {
      SquareRound(b, e, result);
      if e % 2 == 1 {
        result := GfMul(result, b);
      }
      b := GfMul(b, b);
      e := e / 2;
    }
    PowOnce(b, 0);
    MulOne(result);
  }

  // The table that gf_inv looks up, one entry for every byte.
  method InverseTable() returns (inverses: array<Byte>)
    ensures fresh(inverses) && inverses.Length == 256
    ensures forall v: Byte {:trigger Inv(v)} :: inverses[v as int] == Inv(v)
  {
    hide Pow;
    inverses := new Byte[256];
    for i := 0 to 256
      invariant forall v: Byte {:trigger Inv(v)} :: v as int < i ==> inverses[v as int] == Inv(v)
    {
      if i == 0 {
        inverses[i] := 0;
      } else {
        inverses[i] := GfPow(i as Byte, 254);
      }
    }
  }

  method GfInv(value: Byte) returns (inverse: Byte)
    ensures inverse == Inv(value) && (value == 0 ==> inverse == 0)
  {
    var inverses := InverseTable();
    inverse := inverses[value as int];
  }

  method GfDiv(numerator: Byte, denominator: Byte) returns (quotient: Byte)
    ensures quotient == Div(numerator, denominator) && (denominator == 0 ==> quotient == 0)
  {
    hide Inv, Mul;
    if denominator == 0 {
      return 0;
    }
    var inverse := GfInv(denominator);
    quotient := GfMul(numerator, inverse);
  }
}
