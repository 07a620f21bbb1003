/** The length-prefixed bit stream shared by the raw LSB coders and the LSB kernels. */
module LengthPrefix {
  import opened Arithmetic
  import opened GaloisField
  import opened UnitBits
  import opened BitStreams

  const HEADER_BITS := 32

  // Bit i of the 32-bit big-endian length.
  function HeaderBit(length: nat, i: nat): bool
    requires i < HEADER_BITS
  {
    length / Pow2(HEADER_BITS - 1 - i) % 2 == 1
  }

  function HeaderBits(length: nat): (stream: seq<bool>)
    ensures |stream| == HEADER_BITS
  {
    seq(HEADER_BITS, i requires 0 <= i < HEADER_BITS => HeaderBit(length, i))
  }

  // The bit count in 32 bits, then the bytes, all most significant bit first.
  function Prefixed(payload: seq<Byte>): (stream: seq<bool>)
    ensures |stream| == HEADER_BITS + 8 * |payload|
  {
    HeaderBits(8 * |payload|) + BytesToBits(payload)
  }

  // The number whose binary digits are the first n bits of f.
  function Number(f: nat -> bool, n: nat): nat {
    if n == 0 then 0 else 2 * Number(f, n - 1) + (if f(n - 1) then 1 else 0)
  }

  lemma Halved(v: nat, p: nat)
    requires p > 0
    ensures v / p == 2 * (v / (2 * p)) + v / p % 2
    ensures v / p % 2 == 0 || v / p % 2 == 1
  {
    var q := v / p;
    DivMod(v, p);
    var h := q / 2;
    MulMonotone(0, 1, p);
    DivModUnique(v, 2 * p, h, (q % 2) * p + v % p) by {
      assert q == 2 * h + q % 2;
      assert v == (2 * h + q % 2) * p + v % p;
      assert (2 * h + q % 2) * p == h * (2 * p) + (q % 2) * p;
      if q % 2 == 1 {
        assert (q % 2) * p == p;
      } else {
        assert (q % 2) * p == 0;
      }
    }
  }

  lemma {:induction false} NumberOfHeader(f: nat -> bool, length: nat, n: nat)
    requires length < Pow2(HEADER_BITS) && n <= HEADER_BITS
    requires forall i: nat :: i < n ==> f(i) == HeaderBit(length, i)
    ensures Number(f, n) == length / Pow2(HEADER_BITS - n)
  {
    hide Pow2;
    if n == 0 {
      SmallMod(length, Pow2(HEADER_BITS));
    } else {
      NumberOfHeader(f, length, n - 1);
      Pow2Once(HEADER_BITS - n);
      Halved(length, Pow2(HEADER_BITS - n));
      assert f(n - 1) == HeaderBit(length, n - 1);
    }
  }

  lemma HeaderRead(f: nat -> bool, length: nat)
    requires length < Pow2(HEADER_BITS)
    requires forall i: nat :: i < HEADER_BITS ==> f(i) == HeaderBit(length, i)
    ensures Number(f, HEADER_BITS) == length
  {
    hide Number, HeaderBit;
    NumberOfHeader(f, length, HEADER_BITS);
    assert Pow2(0) == 1;
  }

  lemma Pow2Header()
    ensures Pow2(HEADER_BITS) == 0x1_0000_0000
  {
    hide Pow2;
    assert Pow2(0) == 1 by {
      PowNone();
    }
    Pow2Once(0);
    Pow2Once(1);
    Pow2Sum(2, 2);
    Pow2Sum(4, 4);
    Pow2Sum(8, 8);
    Pow2Sum(16, 16);
  }

  // A stream of which f lists the bits gives back its length and its bytes.
  lemma PrefixedRead(f: nat -> bool, payload: seq<Byte>)
    requires 8 * |payload| < Pow2(HEADER_BITS)
    requires forall i: nat :: i < |Prefixed(payload)| ==> f(i) == Prefixed(payload)[i]
    ensures Number(f, HEADER_BITS) == 8 * |payload|
    ensures BytesOf(f, HEADER_BITS, |payload|) == payload
  {
    hide Pow2, HeaderBit, PacketBit, Number, BytesOf;
    forall i: nat | i < HEADER_BITS
      ensures f(i) == HeaderBit(8 * |payload|, i)
    {
      assert f(i) == Prefixed(payload)[i];
    }
    HeaderRead(f, 8 * |payload|);
    forall i | 0 <= i < 8 * |payload|
      ensures f(HEADER_BITS + i) == PacketBit(payload, i)
    {
      assert f(HEADER_BITS + i) == Prefixed(payload)[HEADER_BITS + i];
    }
    BytesOfStream(f, HEADER_BITS, payload);
  }

  lemma NumberNone(f: nat -> bool)
    ensures Number(f, 0) == 0
  {}

  lemma NumberOnce(f: nat -> bool, n: nat)
    ensures Number(f, n + 1) == 2 * Number(f, n) + (if f(n) then 1 else 0)
  {}

  lemma {:induction false} NumberCongruent(f: nat -> bool, g: nat -> bool, n: nat)
    requires forall i: nat :: i < n ==> f(i) == g(i)
    ensures Number(f, n) == Number(g, n)
  {
    if n > 0 {
      NumberCongruent(f, g, n - 1);
    }
  }

  // A number determines the bits that spell it.
  lemma {:induction false} NumberDetermines(f: nat -> bool, g: nat -> bool, n: nat)
    requires Number(f, n) == Number(g, n)
    ensures forall i: nat :: i < n ==> f(i) == g(i)
  {
    if n > 0 {
      LastDigit(f, n);
      LastDigit(g, n);
      NumberDetermines(f, g, n - 1);
    }
  }

  lemma LastDigit(f: nat -> bool, n: nat)
    requires n > 0
    ensures Number(f, n) / 2 == Number(f, n - 1) && (f(n - 1) <==> Number(f, n) % 2 == 1)
  {}

  // f lists the prefixed payload exactly when its first 32 bits spell the bit count and the bytes behind are the payload.
  lemma PrefixedExactly(f: nat -> bool, payload: seq<Byte>)
    requires 8 * |payload| < Pow2(HEADER_BITS)
    ensures (forall i: nat :: i < |Prefixed(payload)| ==> f(i) == Prefixed(payload)[i])
            <==> Number(f, HEADER_BITS) == 8 * |payload| && BytesOf(f, HEADER_BITS, |payload|) == payload
  {
    hide Pow2, HeaderBit, PacketBit, Number, BytesOf;
    var stream := Prefixed(payload);
    if forall i: nat :: i < |stream| ==> f(i) == stream[i] {
      PrefixedRead(f, payload);
    }
    if Number(f, HEADER_BITS) == 8 * |payload| && BytesOf(f, HEADER_BITS, |payload|) == payload {
      var g := (i: nat) => i < HEADER_BITS && HeaderBit(8 * |payload|, i);
      HeaderRead(g, 8 * |payload|);
      NumberDetermines(f, g, HEADER_BITS);
      forall i: nat | i < |stream|
        ensures f(i) == stream[i]
      {
        if i < HEADER_BITS {
          assert f(i) == g(i);
        } else {
          BytesOfBit(f, HEADER_BITS, |payload|, i - HEADER_BITS);
        }
      }
    }
  }

  // --- what the bits of a byte mean -----------------------------------------------------------

  function ShiftedDown(b: Byte, k: nat): Byte
    requires k <= 8
  {
    b >> k
  }

  lemma Peel(b: Byte)
    ensures b as nat == 2 * ((b >> 1) as nat) + ((b & 1) as nat)
  {}

  lemma ShiftedDownOnce(b: Byte, k: nat)
    requires k < 8
    ensures ShiftedDown(b, k) >> 1 == ShiftedDown(b, k + 1)
    ensures ShiftedDown(b, k) & 1 == if BitAt(b, k) then 1 else 0
    ensures ShiftedDown(b, 8) == 0 && ShiftedDown(b, 0) == b
  {
    if k == 0 {
    } else if k == 1 {
    } else if k == 2 {
    } else if k == 3 {
    } else if k == 4 {
    } else if k == 5 {
    } else if k == 6 {
    } else {
    }
  }

  lemma PeelShifted(b: Byte, k: nat)
    requires k < 8
    ensures ShiftedDown(b, k) as nat == 2 * (ShiftedDown(b, k + 1) as nat) + (if BitAt(b, k) then 1 else 0)
  {
    hide BitAt, ShiftedDown;
    ShiftedDownOnce(b, k);
    Peel(ShiftedDown(b, k));
  }

  lemma {:induction false} Spelled(b: Byte, f: nat -> bool, n: nat)
    requires n <= 8 && forall i: nat :: i < 8 ==> f(i) == BitAt(b, 7 - i)
    ensures Number(f, n) == ShiftedDown(b, 8 - n) as nat
    decreases n
  {
    hide BitAt, ShiftedDown, Number;
    if n == 0 {
      NumberNone(f);
      ShiftedDownOnce(b, 0);
    } else {
      Spelled(b, f, n - 1);
      NumberOnce(f, n - 1);
      PeelShifted(b, 8 - n);
    }
  }

  // The eight stream bits of a byte spell its value: bytes go out most significant bit first.
  lemma MostSignificantFirst(bytes: seq<Byte>, f: nat -> bool, j: nat)
    requires j < |bytes| && forall i: nat :: i < 8 ==> f(i) == PacketBit(bytes, 8 * j + i)
    ensures Number(f, 8) == bytes[j] as nat
  {
    hide BitAt, ShiftedDown, Number;
    Spelled(bytes[j], f, 8);
    ShiftedDownOnce(bytes[j], 0);
  }

  // --- prefixed payloads in a carrier ---------------------------------------------------------

  // Unit u of a carrier lies at byte slot(u): at byte u of a video, at the low byte of a permuted audio sample.
  ghost predicate ValidSlots(slot: nat -> nat, units: nat, size: nat) {
    InBounds(slot, units, size) && Injective(slot, units)
  }

  // The payload and its length prefix fit.
  predicate PrefixFits(units: nat, payload: seq<Byte>, bits: nat) {
    |Prefixed(payload)| <= units * bits
  }

  // The carrier after the prefixed payload was written.
  ghost function PrefixEmbedded(data: seq<Byte>, slot: nat -> nat, units: nat, payload: seq<Byte>,
                                bits: nat): (r: seq<Byte>)
    requires 1 <= bits <= 4 && InBounds(slot, units, |data|) && PrefixFits(units, payload, bits)
    ensures |r| == |data|
  {
    UnitsEnd(units, |Prefixed(payload)|, bits);
    Embedded(data, slot, Prefixed(payload), bits, UnitsNeeded(|Prefixed(payload)|, bits))
  }

  // The bits seen in slot order.
  function SlotBit(data: seq<Byte>, slot: nat -> nat, bits: nat): nat -> bool
    requires 1 <= bits <= 4
  {
    (i: nat) => ReadBit(data, slot, bits, i)
  }

  lemma SlotBitIs(data: seq<Byte>, slot: nat -> nat, bits: nat, i: nat)
    requires 1 <= bits <= 4
    ensures SlotBit(data, slot, bits)(i) == ReadBit(data, slot, bits, i)
  {}

  // The bytes in the place of an embedded payload of n bytes.
  function Region(data: seq<Byte>, slot: nat -> nat, bits: nat, n: nat): (bytes: seq<Byte>)
    requires 1 <= bits <= 4
    ensures |bytes| == n
  {
    BytesOf(SlotBit(data, slot, bits), HEADER_BITS, n)
  }

  lemma EmbeddedRead(data: seq<Byte>, slot: nat -> nat, units: nat, payload: seq<Byte>, bits: nat)
    requires 1 <= bits <= 4 && ValidSlots(slot, units, |data|) && PrefixFits(units, payload, bits) && 8 * |payload| < Pow2(32)
    ensures var after := PrefixEmbedded(data, slot, units, payload, bits);
            Number(SlotBit(after, slot, bits), HEADER_BITS) == 8 * |payload| && Region(after, slot, bits, |payload|) == payload
  {
    hide Embedded, UnitsNeeded, Prefixed, Number, BytesOf, ReadBit, SlotBit, Pow2;
    var stream := Prefixed(payload);
    var after := PrefixEmbedded(data, slot, units, payload, bits);
    UnitsEnd(units, |stream|, bits);
    forall i: nat | i < |stream|
      ensures SlotBit(after, slot, bits)(i) == stream[i]
    {
      ReadBack(data, slot, stream, bits, i);
      SlotBitIs(after, slot, bits, i);
    }
    PrefixedRead(SlotBit(after, slot, bits), payload);
  }

  ghost predicate SameHeader(a: seq<Byte>, b: seq<Byte>, slot: nat -> nat, bits: nat)
    requires 1 <= bits <= 4
  {
    forall i: nat :: i < HEADER_BITS ==> SlotBit(a, slot, bits)(i) == SlotBit(b, slot, bits)(i)
  }

  // The units hold the bit count and the bytes, bit by bit.
  ghost predicate PrefixHeld(data: seq<Byte>, slot: nat -> nat, units: nat, payload: seq<Byte>, bits: nat)
    requires 1 <= bits <= 4
  {
    && 32 + 8 * |payload| <= units * bits
    && forall i: nat :: i < 32 + 8 * |payload| ==> ReadBit(data, slot, bits, i) == Prefixed(payload)[i]
  }

  lemma HeldExactly(data: seq<Byte>, slot: nat -> nat, units: nat, payload: seq<Byte>, bits: nat)
    requires 1 <= bits <= 4 && 8 * |payload| < Pow2(HEADER_BITS)
    ensures PrefixHeld(data, slot, units, payload, bits)
            <==> 32 + 8 * |payload| <= units * bits
                 && Number(SlotBit(data, slot, bits), HEADER_BITS) == 8 * |payload|
                 && Region(data, slot, bits, |payload|) == payload
  {
    hide Pow2, Prefixed, ReadBit, Number, BytesOf;
    PrefixedExactly(SlotBit(data, slot, bits), payload);
  }
}
