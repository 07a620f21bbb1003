/** GF(2^8) under the polynomial x^8 + x^4 + x^3 + x + 1 (section 4.2 of FIPS 197). */
module GaloisField {
  type Byte = bv8

  // Field addition is exclusive or.
  function Add(a: Byte, b: Byte): Byte { a ^ b }

  // Multiplication by the polynomial x.
  function XTime(a: Byte): Byte { if a & 0x80 != 0 then (a << 1) ^ 0x1B else a << 1 }

  function XTimes(n: nat, a: Byte): Byte
    decreases n
  {
    if n == 0 then a else XTimes(n - 1, XTime(a))
  }

  // a when the lowest coefficient of b is set, zero otherwise.
  function Gate(a: Byte, b: Byte): Byte { if b & 1 == 1 then a else 0 }

  function Half(b: Byte): Byte { b >> 1 }

  function Halves(n: nat, b: Byte): Byte
    decreases n
  {
    if n == 0 then b else Halves(n - 1, Half(b))
  }

  // Product of a with the n lowest coefficients of b.
  function MulSteps(n: nat, a: Byte, b: Byte): Byte
    decreases n
  {
    if n == 0 then 0 else Add(Gate(a, b), MulSteps(n - 1, XTime(a), Half(b)))
  }

  function Mul(a: Byte, b: Byte): Byte { MulSteps(8, a, b) }

  lemma SameByte(a: Byte, b: Byte)
    requires a as nat == b as nat
    ensures a == b
  {}

  // The products that section 4.2 of FIPS 197 works out.
  lemma StandardProducts()
    ensures Mul(0x57, 0x83) == 0xC1 && Mul(0x57, 0x13) == 0xFE
  {}

  // --- the additive group -------------------------------------------------

  // A string of n zero bytes.
  function Zeros(n: nat): (r: seq<Byte>)
    ensures |r| == n
  {
    seq(n, i => 0)
  }

  lemma AddLaws()
    ensures forall a, b {:trigger Add(a, b)} :: Add(a, b) == Add(b, a)
    ensures forall a, b, c {:trigger Add(Add(a, b), c)} :: Add(Add(a, b), c) == Add(a, Add(b, c))
    ensures forall a {:trigger Add(a, a)} :: Add(a, a) == 0
    ensures forall a {:trigger Add(a, 0)} :: Add(a, 0) == a
  {}

  lemma AddNothing(a: Byte)
    ensures Add(a, 0) == a && Add(0, a) == a
  {}

  lemma AddInterchange(a: Byte, b: Byte, c: Byte, d: Byte)
    ensures Add(Add(a, b), Add(c, d)) == Add(Add(a, c), Add(b, d))
  {
    hide Add;
    AddLaws();
    assert Add(b, Add(c, d)) == Add(c, Add(b, d));
  }

  // --- linearity of one step ----------------------------------------------

  lemma XTimeLinear(a: Byte, b: Byte)
    ensures XTime(Add(a, b)) == Add(XTime(a), XTime(b))
  {
    assert (a ^ b) << 1 == (a << 1) ^ (b << 1);
    if a & 0x80 != 0 {
      if b & 0x80 != 0 {
        assert (a ^ b) & 0x80 == 0;
      } else {
        assert (a ^ b) & 0x80 != 0;
      }
    } else if b & 0x80 != 0 {
      assert (a ^ b) & 0x80 != 0;
    } else {
      assert (a ^ b) & 0x80 == 0;
    }
  }

  lemma GateLinear(a: Byte, a': Byte, b: Byte, b': Byte)
    ensures Gate(Add(a, a'), b) == Add(Gate(a, b), Gate(a', b))
    ensures Gate(a, Add(b, b')) == Add(Gate(a, b), Gate(a, b'))
  {
    assert ((b ^ b') & 1 == 1) <==> ((b & 1 == 1) != (b' & 1 == 1));
  }

  lemma XTimeGate(a: Byte, b: Byte)
    ensures XTime(0) == 0
    ensures XTime(Gate(a, b)) == Gate(XTime(a), b)
  {}

  lemma HalfLinear(a: Byte, b: Byte)
    ensures Half(Add(a, b)) == Add(Half(a), Half(b))
  {}

  // --- bilinearity of the product -----------------------------------------

  lemma {:induction false} MulStepsLinearLeft(n: nat, a: Byte, a': Byte, b: Byte)
    ensures MulSteps(n, Add(a, a'), b) == Add(MulSteps(n, a, b), MulSteps(n, a', b))
    decreases n
  {
    hide XTime, Gate, Half, Add;
    if n == 0 {
      AddLaws();
    } else {
      XTimeLinear(a, a');
      GateLinear(a, a', b, b);
      MulStepsLinearLeft(n - 1, XTime(a), XTime(a'), Half(b));
      AddInterchange(Gate(a, b), Gate(a', b), MulSteps(n - 1, XTime(a), Half(b)), MulSteps(n - 1, XTime(a'), Half(b)));
    }
  }

  lemma {:induction false} MulStepsLinearRight(n: nat, a: Byte, b: Byte, b': Byte)
    ensures MulSteps(n, a, Add(b, b')) == Add(MulSteps(n, a, b), MulSteps(n, a, b'))
    decreases n
  {
    hide XTime, Gate, Half, Add;
    if n == 0 {
      AddLaws();
    } else {
      HalfLinear(b, b');
      GateLinear(a, a, b, b');
      MulStepsLinearRight(n - 1, XTime(a), Half(b), Half(b'));
      AddInterchange(Gate(a, b), Gate(a, b'), MulSteps(n - 1, XTime(a), Half(b)), MulSteps(n - 1, XTime(a), Half(b')));
    }
  }

  lemma {:induction false} MulStepsXTimeLeft(n: nat, a: Byte, b: Byte)
    ensures MulSteps(n, XTime(a), b) == XTime(MulSteps(n, a, b))
    decreases n
  {
    hide XTime, Gate, Half, Add;
    XTimeGate(a, b);
    if n > 0 {
      XTimeLinear(Gate(a, b), MulSteps(n - 1, XTime(a), Half(b)));
      MulStepsXTimeLeft(n - 1, XTime(a), Half(b));
    }
  }

  // Reducing x^8: eight doublings multiply by x^4 + x^3 + x + 1.
  lemma XTimes8(a: Byte)
    ensures XTimes(8, a) == MulSteps(8, a, 0x1B)
  {
  }

  lemma {:induction false} MulStepsLast(n: nat, a: Byte, b: Byte)
    ensures MulSteps(n + 1, a, b) == Add(MulSteps(n, a, b), Gate(XTimes(n, a), Halves(n, b)))
    decreases n
  {
    hide XTime, Gate, Half, Add;
    AddLaws();
    if n > 0 {
      MulStepsLast(n - 1, XTime(a), Half(b));
      assert XTimes(n, a) == XTimes(n - 1, XTime(a));
      assert Halves(n, b) == Halves(n - 1, Half(b));
    }
  }

  lemma {:induction false} MulStepsZero(n: nat, a: Byte)
    ensures MulSteps(n, a, 0) == 0 && MulSteps(n, 0, a) == 0
    decreases n
  {
    hide Add;
    AddLaws();
    MulStepsLinearLeft(n, 0, 0, a);
    MulStepsLinearRight(n, a, 0, 0);
    hide *;
    assert Add(0, 0) == 0;
  }

  lemma MulStepsGate(n: nat, a: Byte, b: Byte, c: Byte)
    ensures MulSteps(n, a, Gate(b, c)) == Gate(MulSteps(n, a, b), c)
  {
    hide MulSteps;
    MulStepsZero(n, a);
  }

  lemma DoubleCarry(b: Byte)
    ensures XTime(b) == Add(b << 1, Gate(0x1B, Halves(7, b)))
    ensures Half(b << 1) == b & 0x7F
    ensures Gate(b, b << 1) == 0
  {}


  // The n lowest coefficients of b are zero.
  predicate LowClear(n: nat, b: Byte)
    decreases n
  {
    n == 0 || (b & 1 == 0 && LowClear(n - 1, Half(b)))
  }

  lemma {:induction false} MulStepsLowClear(n: nat, a: Byte, b: Byte)
    requires LowClear(n, b)
    ensures MulSteps(n, a, b) == 0
    decreases n
  {
    hide XTime, Half, Add;
    if n > 0 {
      MulStepsLowClear(n - 1, XTime(a), Half(b));
      AddLaws();
    }
  }

  lemma HighBit(b: Byte)
    ensures b == Add(b & 0x7F, b & 0x80)
    ensures LowClear(7, b & 0x80)
  {}

  // Only the 7 lowest coefficients of b matter to 7 steps.
  lemma MulSteps7(a: Byte, b: Byte)
    ensures MulSteps(7, a, b & 0x7F) == MulSteps(7, a, b)
  {
    hide *;
    HighBit(b);
    MulStepsLinearRight(7, a, b & 0x7F, b & 0x80);
    MulStepsLowClear(7, a, b & 0x80);
    AddLaws();
  }


  lemma MulStepsOnce(n: nat, a: Byte, b: Byte)
    ensures MulSteps(n + 1, a, b) == Add(Gate(a, b), MulSteps(n, XTime(a), Half(b)))
  {}

  lemma MulDouble(a: Byte, b: Byte)
    ensures MulSteps(8, a, b << 1) == MulSteps(7, XTime(a), b)
  {
    hide *;
    DoubleCarry(b);
    DoubleGate(a, b);
    MulSteps7(XTime(a), b);
    AddLaws();
    MulStepsOnce(7, a, b << 1);
  }

  lemma DoubleGate(a: Byte, b: Byte)
    ensures Gate(a, b << 1) == 0
  {}

  lemma {:induction false} XTimesLast(n: nat, a: Byte)
    ensures XTimes(n + 1, a) == XTimes(n, XTime(a))
  {}

  lemma MulStepsXTimeRight(a: Byte, b: Byte)
    ensures MulSteps(8, a, XTime(b)) == XTime(MulSteps(8, a, b))
  {
    hide *;
    var t := Halves(7, b);
    calc {
      MulSteps(8, a, XTime(b));
      { DoubleCarry(b); MulStepsLinearRight(8, a, b << 1, Gate(0x1B, t)); }
      Add(MulSteps(8, a, b << 1), MulSteps(8, a, Gate(0x1B, t)));
      { MulDouble(a, b); MulStepsGate(8, a, 0x1B, t); }
      Add(MulSteps(7, XTime(a), b), Gate(MulSteps(8, a, 0x1B), t));
      { XTimes8(a); XTimesLast(7, a); }
      Add(MulSteps(7, XTime(a), b), Gate(XTimes(7, XTime(a)), t));
      { MulStepsLast(7, XTime(a), b); }
      MulSteps(8, XTime(a), b);
      { MulStepsXTimeLeft(8, a, b); }
      XTime(MulSteps(8, a, b));
    }
  }

  // --- field laws -----------------------------------------------------------

  lemma MulDistributes(a: Byte, b: Byte, c: Byte)
    ensures Mul(a, Add(b, c)) == Add(Mul(a, b), Mul(a, c))
    ensures Mul(Add(a, b), c) == Add(Mul(a, c), Mul(b, c))
  {
    hide MulSteps, Add;
    MulStepsLinearRight(8, a, b, c);
    MulStepsLinearLeft(8, a, b, c);
  }

  lemma MulZero(a: Byte)
    ensures Mul(a, 0) == 0 && Mul(0, a) == 0
  {
    hide MulSteps;
    MulStepsZero(8, a);
  }

  // Running the steps on a product runs them on its right factor.
  lemma {:induction false} MulStepsAssociative(n: nat, a: Byte, b: Byte, c: Byte)
    ensures MulSteps(n, MulSteps(8, a, b), c) == MulSteps(8, a, MulSteps(n, b, c))
    decreases n
  {
    hide *;
    if n == 0 {
      MulStepsBase(MulSteps(8, a, b), c);
      MulStepsBase(b, c);
      MulStepsZero(8, a);
    } else {
      calc {
        MulSteps(8, a, MulSteps(n, b, c));
        { MulStepsOnce(n - 1, b, c); }
        MulSteps(8, a, Add(Gate(b, c), MulSteps(n - 1, XTime(b), Half(c))));
        { MulStepsLinearRight(8, a, Gate(b, c), MulSteps(n - 1, XTime(b), Half(c))); MulStepsGate(8, a, b, c); }
        Add(Gate(MulSteps(8, a, b), c), MulSteps(8, a, MulSteps(n - 1, XTime(b), Half(c))));
        { MulStepsAssociative(n - 1, a, XTime(b), Half(c)); MulStepsXTimeRight(a, b); }
        Add(Gate(MulSteps(8, a, b), c), MulSteps(n - 1, XTime(MulSteps(8, a, b)), Half(c)));
        { MulStepsOnce(n - 1, MulSteps(8, a, b), c); }
        MulSteps(n, MulSteps(8, a, b), c);
      }
    }
  }

  lemma MulStepsBase(a: Byte, b: Byte)
    ensures MulSteps(0, a, b) == 0
  {}

  // Exchanging the factors: the steps that build b from c multiply c * a by b.
  lemma {:induction false} MulStepsCommute(n: nat, a: Byte, b: Byte, c: Byte)
    ensures MulSteps(8, MulSteps(n, c, b), a) == MulSteps(n, MulSteps(8, c, a), b)
    decreases n
  {
    hide *;
    if n == 0 {
      MulStepsBase(c, b);
      MulStepsBase(MulSteps(8, c, a), b);
      MulStepsZero(8, a);
    } else {
      calc {
        MulSteps(8, MulSteps(n, c, b), a);
        { MulStepsOnce(n - 1, c, b); }
        MulSteps(8, Add(Gate(c, b), MulSteps(n - 1, XTime(c), Half(b))), a);
        { MulStepsLinearLeft(8, Gate(c, b), MulSteps(n - 1, XTime(c), Half(b)), a); MulGateLeft(c, b, a); }
        Add(Gate(MulSteps(8, c, a), b), MulSteps(8, MulSteps(n - 1, XTime(c), Half(b)), a));
        { MulStepsCommute(n - 1, a, Half(b), XTime(c)); MulStepsXTimeLeft(8, c, a); }
        Add(Gate(MulSteps(8, c, a), b), MulSteps(n - 1, XTime(MulSteps(8, c, a)), Half(b)));
        { MulStepsOnce(n - 1, MulSteps(8, c, a), b); }
        MulSteps(n, MulSteps(8, c, a), b);
      }
    }
  }

  lemma MulGateLeft(a: Byte, b: Byte, c: Byte)
    ensures MulSteps(8, Gate(a, b), c) == Gate(MulSteps(8, a, c), b)
  {
    hide MulSteps;
    MulStepsZero(8, c);
  }


  // The steps left after i of them rebuild the coefficients of a from i up.
  lemma OneStep(a: Byte, i: Byte)
    requires i < 8
    ensures Half(a >> i) == a >> (i + 1)
    ensures i < 7 ==> XTime(1 << i) == 1 << (i + 1)
    ensures Add(Gate(1 << i, a >> i), (a >> (i + 1)) << (i + 1)) == (a >> i) << i
  {}

  lemma {:induction false} OneTail(n: nat, a: Byte, i: Byte)
    requires i < 8 && n as int + i as int == 8
    ensures MulSteps(n, 1 << i, a >> i) == (a >> i) << i
    decreases n
  {
    hide *;
    OneStep(a, i);
    MulStepsOnce(n - 1, 1 << i, a >> i);
    if i == 7 {
      MulStepsBase(XTime(1 << i), Half(a >> i));
    } else {
      OneTail(n - 1, a, i + 1);
    }
  }

  lemma OneSteps(a: Byte)
    ensures MulSteps(8, 1, a) == a
  {
    hide *;
    OneTail(8, a, 0);
  }

  lemma MulOne(a: Byte)
    ensures Mul(1, a) == a && Mul(a, 1) == a
  {
    hide MulSteps;
    OneSteps(a);
    MulCommutes(1, a);
  }

  lemma MulAssociates(a: Byte, b: Byte, c: Byte)
    ensures Mul(Mul(a, b), c) == Mul(a, Mul(b, c))
  {
    hide MulSteps;
    MulStepsAssociative(8, a, b, c);
  }

  lemma MulCommutes(a: Byte, b: Byte)
    ensures Mul(a, b) == Mul(b, a)
  {
    hide MulSteps;
    MulStepsCommute(8, a, b, 1);
    OneSteps(a);
    OneSteps(b);
  }
}
