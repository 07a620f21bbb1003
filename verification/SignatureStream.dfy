/** The fixed-length signature stream of the LSB kernels. */
module SignatureStream {
  import opened Results
  import opened Arithmetic
  import opened GaloisField
  import opened UnitBits
  import opened BitStreams
  import opened LengthPrefix
  import opened SignaturePayloads

  const PAYLOAD_BITS := 8 * SERIALIZED_SIZE
  const STREAM_BITS := HEADER_BITS + PAYLOAD_BITS

  // The 904 bits that the kernel writes: the fixed length 872 and the payload.
  method PayloadToBits(payload: SignaturePayload) returns (bits: seq<bool>)
    requires payload.Valid()
    ensures bits == Prefixed(ToBytes(payload)) && |ToBytes(payload)| == SERIALIZED_SIZE && |bits| == STREAM_BITS
  {
    hide HeaderBit, PacketBit;
    PayloadRoundTrip(payload);
    var bytes := ToBytes(payload);
    bits := seq(STREAM_BITS, i => false);
    for i := 0 to HEADER_BITS
      invariant |bits| == STREAM_BITS
      invariant forall t :: 0 <= t < i ==> bits[t] == HeaderBit(PAYLOAD_BITS, t)
    {
      bits := bits[i := HeaderBit(PAYLOAD_BITS, i)];
    }
    for i := 0 to PAYLOAD_BITS
      invariant |bits| == STREAM_BITS
      invariant forall t :: 0 <= t < HEADER_BITS ==> bits[t] == HeaderBit(PAYLOAD_BITS, t)
      invariant forall t :: 0 <= t < i ==> bits[HEADER_BITS + t] == PacketBit(bytes, t)
    {
      bits := bits[HEADER_BITS + i := PacketBit(bytes, i)];
    }
    assert bits[..HEADER_BITS] == HeaderBits(PAYLOAD_BITS);
    assert bits[HEADER_BITS..] == BytesToBits(bytes);
  }

  // What a kernel extracts from the units of a carrier.
  function SignatureExtraction(data: seq<Byte>, slot: nat -> nat, units: nat,
                               bits: nat): Result<Option<SignaturePayload>, PayloadError>
    requires 1 <= bits <= 4
  {
    if units < UnitsNeeded(STREAM_BITS, bits) then Ok(None)
    else if Number(SlotBit(data, slot, bits), HEADER_BITS) != PAYLOAD_BITS then Ok(None)
    else
      var parsed := FromBytes(Region(data, slot, bits, SERIALIZED_SIZE));
      if parsed.Ok? then Ok(Some(parsed.value)) else Err(parsed.error)
  }

  // What was embedded is extracted, for every carrier with room for it.
  lemma SignatureRoundTrip(data: seq<Byte>, slot: nat -> nat, units: nat, payload: SignaturePayload, bits: nat)
    requires 1 <= bits <= 4 && payload.Valid() && ValidSlots(slot, units, |data|) && PrefixFits(units, ToBytes(payload), bits)
    ensures SignatureExtraction(PrefixEmbedded(data, slot, units, ToBytes(payload), bits), slot, units, bits) == Ok(Some(payload))
  {
    hide PrefixEmbedded, Number, FromBytes, ToBytes, SlotBit, UnitsNeeded, Pow2;
    PayloadRoundTrip(payload);
    Pow2Header();
    UnitsEnd(units, STREAM_BITS, bits);
    EmbeddedRead(data, slot, units, ToBytes(payload), bits);
  }

  // --- bytes collected by shifting bits in from the right -----------------------------------

  function ShiftedIn(f: nat -> bool, start: nat, count: nat): Byte {
    if count == 0 then 0 else (ShiftedIn(f, start, count - 1) << 1) | BitValue(f(start + count - 1))
  }

  lemma ShiftedOnce(f: nat -> bool, start: nat, count: nat)
    ensures ShiftedIn(f, start, 0) == 0
    ensures ShiftedIn(f, start, count + 1) == (ShiftedIn(f, start, count) << 1) | BitValue(f(start + count))
  {}

  lemma ShiftInBit(v: Byte, b: bool, s: nat)
    requires s < 8
    ensures BitAt((v << 1) | BitValue(b), s) == if s == 0 then b else BitAt(v, s - 1)
  {
    if s == 0 {
    } else if s == 1 {
    } else if s == 2 {
    } else if s == 3 {
    } else if s == 4 {
    } else if s == 5 {
    } else if s == 6 {
    } else {
    }
  }

  lemma {:induction false} ShiftedBits(f: nat -> bool, start: nat, count: nat, s: nat)
    requires count <= 8 && s < 8
    ensures BitAt(ShiftedIn(f, start, count), s) == (s < count && f(start + count - 1 - s))
    decreases count
  {
    hide BitAt, BitValue;
    if count == 0 {
      ZeroBits(s);
    } else {
      ShiftInBit(ShiftedIn(f, start, count - 1), f(start + count - 1), s);
      if s > 0 {
        ShiftedBits(f, start, count - 1, s - 1);
      }
    }
  }

  lemma ShiftedIsAssembled(f: nat -> bool, start: nat)
    ensures ShiftedIn(f, start, 8) == Assemble(f, start, 8)
  {
    hide ShiftedIn, Assemble, BitAt;
    forall s {:trigger BitAt(ShiftedIn(f, start, 8), s)} | 0 <= s < 8
      ensures BitAt(ShiftedIn(f, start, 8), s) == BitAt(Assemble(f, start, 8), s)
    {
      ShiftedBits(f, start, 8, s);
      AssembleBits(f, start, 8, s);
    }
    ByteExtensional(ShiftedIn(f, start, 8), Assemble(f, start, 8));
  }

  lemma ShiftedBytes(f: nat -> bool, start: nat, payload: seq<Byte>)
    requires forall j :: 0 <= j < |payload| ==> payload[j] == ShiftedIn(f, start + 8 * j, Progress(8 * |payload|, j))
    ensures payload == BytesOf(f, start, |payload|)
  {
    hide ShiftedIn, Assemble;
    forall j | 0 <= j < |payload|
      ensures payload[j] == Assemble(f, start + 8 * j, 8)
    {
      ShiftedIsAssembled(f, start + 8 * j);
    }
  }

  lemma UnitsOrdered(bits: nat)
    requires 1 <= bits <= 4
    ensures UnitsNeeded(HEADER_BITS, bits) <= UnitsNeeded(STREAM_BITS, bits)
  {}

  // A signature is found exactly where the units hold its 872 bits behind their count, nothing is found exactly where
  // there is no room or another count, and everything else is a parse error of the bytes that are there.
  lemma SignatureExtractsExactly(data: seq<Byte>, slot: nat -> nat, units: nat, bits: nat, p: SignaturePayload)
    requires 1 <= bits <= 4
    ensures var r := SignatureExtraction(data, slot, units, bits);
            && (r == Ok(Some(p)) <==> p.Valid() && PrefixHeld(data, slot, units, ToBytes(p), bits))
            && (r == Ok(None) <==> units * bits < 904 || Number(SlotBit(data, slot, bits), 32) != 872)
            && (forall e :: r == Err(e) ==> FromBytes(Region(data, slot, bits, 109)) == Err(e))
  {
    hide Number, FromBytes, ToBytes, SlotBit, UnitsNeeded, Pow2, PrefixHeld, Region;
    UnitsEnd(units, STREAM_BITS, bits);
    Pow2Header();
    var found := Region(data, slot, bits, SERIALIZED_SIZE);
    ParsedPayload(found);
    if p.Valid() {
      PayloadRoundTrip(p);
      HeldExactly(data, slot, units, ToBytes(p), bits);
    }
    if FromBytes(found) == Ok(p) {
      assert p.Valid() && ToBytes(p) == found;
    }
  }
}
