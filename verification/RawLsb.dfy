/** The variable-length raw LSB coders of cmd_encode.rs and cmd_verify.rs. */
module RawLsb {
  import opened Results
  import opened Arithmetic
  import opened GaloisField
  import opened UnitBits
  import opened BitStreams
  import opened LengthPrefix
  import opened Samples
  import opened PacketCarrier
  import opened Placement
  import opened SignaturePayloads
  import LsbAudio

  const MAX_RAW_BITS := 800_000

  datatype RawError = LengthOverflow | EmptyCarrier | NotEnoughCapacity

  method EmbedRaw(data: array<Byte>, payload: seq<Byte>, bits: nat) returns (r: Result<(), RawError>)
    requires 1 <= bits <= 4
    modifies data
    ensures 8 * |payload| >= Pow2(32) ==> r == Err(LengthOverflow)
    ensures 8 * |payload| < Pow2(32) ==>
      r == if PrefixFits(data.Length, payload, bits) then Ok(()) else Err(NotEnoughCapacity)
    ensures r.Err? ==> data[..] == old(data[..])
    ensures r.Ok? ==> data[..] == PrefixEmbedded(old(data[..]), InOrder(), data.Length, payload, bits)
  {
    hide Put, Pack, Embedded, UnitsNeeded, Prefixed, Pow2;
    Pow2Header();
    if 8 * |payload| >= 0x1_0000_0000 {
      return Err(LengthOverflow);
    }
    var allBits := Prefixed(payload);
    if |allBits| > data.Length * bits {
      return Err(NotEnoughCapacity);
    }
    ghost var before := data[..];
    EmbeddedNone(before, InOrder(), allBits, bits);
    UnitsEnd(data.Length, |allBits|, bits);
    var bitIndex := 0;
    var unit := 0;
    while unit < data.Length && bitIndex < |allBits|
      invariant unit <= UnitsNeeded(|allBits|, bits)
      invariant bitIndex == Min(unit * bits, |allBits|)
      invariant data[..] == Embedded(before, InOrder(), allBits, bits, unit)
    {
      UnitsEnd(unit, |allBits|, bits);
      UnitsStep(unit, |allBits|, bits);
      EmbeddedOnce(before, InOrder(), allBits, bits, unit);
      var low: Byte;
      low, bitIndex := PackStream(allBits, bits, bitIndex);
      data[unit] := Put(data[unit], low, bits);
      unit := unit + 1;
    }
    UnitsEnd(unit, |allBits|, bits);
    r := Ok(());
  }

  // What a raw extractor finds, as a function of the carrier.
  function RawExtraction(data: seq<Byte>, slot: nat -> nat, units: nat, bits: nat): Option<seq<Byte>>
    requires 1 <= bits <= 4
  {
    if units * bits < HEADER_BITS then None
    else
      var length := Number(SlotBit(data, slot, bits), HEADER_BITS);
      if length == 0 || length > MAX_RAW_BITS || length % 8 != 0 then None
      else if units * bits < HEADER_BITS + length then None
      else Some(BytesOf(SlotBit(data, slot, bits), HEADER_BITS, length / 8))
  }

  // All low bits of the carrier, in carrier order.
  method LowBits(data: seq<Byte>, bits: nat) returns (allBits: seq<bool>)
    requires 1 <= bits <= 4
    ensures |allBits| == |data| * bits
    ensures forall i: nat :: i < |allBits| ==> allBits[i] == SlotBit(data, InOrder(), bits)(i)
  {
    hide BitAt, ReadBit;
    allBits := [];
    for unit := 0 to |data|
      invariant |allBits| == unit * bits
      invariant forall i: nat :: i < |allBits| ==> allBits[i] == SlotBit(data, InOrder(), bits)(i)
    {
      for shift := bits downto 0
        invariant |allBits| == unit * bits + (bits - shift)
        invariant forall i: nat :: i < |allBits| ==> allBits[i] == SlotBit(data, InOrder(), bits)(i)
      {
        ReadOne(data, InOrder(), bits, unit, bits - 1 - shift, |allBits|);
        allBits := allBits + [BitAt(data[unit], shift)];
      }
    }
  }

  // The number that a list of bits spells, most significant bit first.
  method LengthOf(allBits: seq<bool>, ghost f: nat -> bool) returns (length: nat)
    requires |allBits| >= HEADER_BITS && forall i: nat :: i < HEADER_BITS ==> allBits[i] == f(i)
    ensures length == Number(f, HEADER_BITS)
  {
    hide Number;
    length := 0;
    NumberNone(f);
    for i := 0 to HEADER_BITS
      invariant length == Number(f, i)
    {
      NumberOnce(f, i);
      length := 2 * length + (if allBits[i] then 1 else 0);
    }
  }

  // The bytes that the bits behind the length spell.
  method BytesBehindLength(allBits: seq<bool>, count: nat, ghost f: nat -> bool) returns (result: seq<Byte>)
    requires |allBits| >= HEADER_BITS + 8 * count && forall i: nat :: i < HEADER_BITS + 8 * count ==> allBits[i] == f(i)
    ensures result == BytesOf(f, HEADER_BITS, count)
  {
    hide ShiftBit, Assemble;
    result := seq(count, j => 0);
    for i := 0 to count
      invariant |result| == count
      invariant forall t :: 0 <= t < i ==> result[t] == Assemble(f, HEADER_BITS + 8 * t, 8)
    {
      var byte: Byte := 0;
      AssembleOnce(f, HEADER_BITS + 8 * i, 0);
      for j := 0 to 8
        invariant byte == Assemble(f, HEADER_BITS + 8 * i, j)
      {
        AssembleOnce(f, HEADER_BITS + 8 * i, j);
        byte := byte | ShiftBit(allBits[HEADER_BITS + 8 * i + j], 7 - j);
      }
      result := result[i := byte];
    }
  }

  method ExtractRaw(data: seq<Byte>, bits: nat) returns (r: Option<seq<Byte>>)
    requires 1 <= bits <= 4
    ensures r == RawExtraction(data, InOrder(), |data|, bits)
  {
    hide Number, UnitsNeeded, BytesOf, SlotBit;
    UnitsEnd(|data|, HEADER_BITS, bits);
    if |data| < UnitsNeeded(HEADER_BITS, bits) {
      return None;
    }
    var allBits := LowBits(data, bits);
    ghost var f := SlotBit(data, InOrder(), bits);
    var length := LengthOf(allBits, f);
    if length == 0 || length > MAX_RAW_BITS || length % 8 != 0 {
      return None;
    }
    if |allBits| < HEADER_BITS + length {
      return None;
    }
    var result := BytesBehindLength(allBits, length / 8, f);
    r := Some(result);
  }

  // --- audio --------------------------------------------------------------------------------

  // The raw coder places samples under the key itself.
  ghost function RawAudioSlots(rounds: LsbAudio.RoundFamily, key: seq<Byte>, len: nat): nat -> nat {
    Strided(2, 0, PermutationSlots(rounds(key), len))
  }

  lemma RawAudioSlotsFirst(rounds: LsbAudio.RoundFamily, key: seq<Byte>, len: nat)
    ensures RawAudioSlots(rounds, key, len) == LsbAudio.AudioSlots(rounds, key, 0, len)
  {
    hide PermutationSlots, Strided;
    LsbAudio.FirstFrameSeed(key);
  }

  // The seed loop of the raw coders: a fresh array is filled from key and frame index.
  method RawSeed(key: seq<Byte>, frameIndex: nat) returns (seed: seq<Byte>)
    requires |key| == 32
    ensures seed == LsbAudio.FrameSeed(key, frameIndex)
  {
    hide Add, LittleEndian;
    seed := Zeros(32);
    var frameBytes := LittleEndian(frameIndex, 8);
    for i := 0 to |key|
      invariant |seed| == 32
      invariant forall t :: 0 <= t < i ==> seed[t] == Add(key[t], frameBytes[t % 8])
    {
      seed := seed[i := Add(key[i], frameBytes[i % 8])];
    }
  }

  method EmbedRawAudio(samples: array<Sample>, payload: seq<Byte>, bits: nat, key: seq<Byte>,
                       rounds: LsbAudio.RoundFamily)
    returns (r: Result<(), RawError>)
    requires 1 <= bits <= 4 && |key| == 32
    modifies samples
    ensures 8 * |payload| >= Pow2(32) ==> r == Err(LengthOverflow)
    ensures 8 * |payload| < Pow2(32) && samples.Length == 0 ==> r == Err(EmptyCarrier)
    ensures 8 * |payload| < Pow2(32) && samples.Length > 0 ==>
      r == if PrefixFits(samples.Length, payload, bits) then Ok(()) else Err(NotEnoughCapacity)
    ensures r.Err? ==> samples[..] == old(samples[..])
    ensures r.Ok? ==>
      var slot := RawAudioSlots(rounds, key, samples.Length);
      InBounds(slot, samples.Length, 2 * samples.Length)
      && LeBytes(samples[..]) == PrefixEmbedded(LeBytes(old(samples[..])), slot, samples.Length, payload, bits)
  {
    hide Put, Pack, Embedded, UnitsNeeded, Prefixed, Pow2, LeBytes, PermutedIndex;
    Pow2Header();
    if 8 * |payload| >= 0x1_0000_0000 {
      return Err(LengthOverflow);
    }
    var allBits := Prefixed(payload);
    if samples.Length == 0 {
      return Err(EmptyCarrier);
    }
    var seed := RawSeed(key, 0);
    LsbAudio.FirstFrameSeed(key);
    var indices := new KeyedPermutation(samples.Length, rounds(seed));
    if |allBits| > indices.len * bits {
      return Err(NotEnoughCapacity);
    }
    LsbAudio.SlotsOfValid(indices);
    UnitsEnd(samples.Length, |allBits|, bits);
    ghost var before := LeBytes(samples[..]);
    ghost var at := LsbAudio.SlotsOf(indices);
    EmbeddedNone(before, at, allBits, bits);
    var bitIdx := 0;
    for logical := 0 to UnitsNeeded(|allBits|, bits)
      invariant bitIdx == Min(logical * bits, |allBits|)
      invariant LeBytes(samples[..]) == Embedded(before, at, allBits, bits, logical)
    {
      UnitsEnd(logical, |allBits|, bits);
      UnitsStep(logical, |allBits|, bits);
      EmbeddedOnce(before, at, allBits, bits, logical);
      var physical := indices.Permute(logical);
      var low: Byte;
      low, bitIdx := PackStream(allBits, bits, bitIdx);
      LsbAudio.WriteSample(samples, physical, low, bits);
    }
    r := Ok(());
  }

  method ExtractRawAudio(samples: seq<Sample>, bits: nat, key: seq<Byte>, frameIndex: nat, rounds: LsbAudio.RoundFamily)
    returns (r: Option<seq<Byte>>)
    requires 1 <= bits <= 4 && |key| == 32
    ensures r == RawExtraction(LeBytes(samples), LsbAudio.AudioSlots(rounds, key, frameIndex, |samples|), |samples|, bits)
  {
    hide Number, UnitsNeeded, SlotBit, LeBytes, BytesOf, PermutationSlots;
    UnitsEnd(|samples|, HEADER_BITS, bits);
    UnitsEnd(0, HEADER_BITS, bits);
    if |samples| < UnitsNeeded(HEADER_BITS, bits) {
      return None;
    }
    var seed := RawSeed(key, frameIndex);
    var indices := new KeyedPermutation(|samples|, rounds(seed));
    ghost var f := SlotBit(LeBytes(samples), LsbAudio.SlotsOf(indices), bits);
    var allBits := LsbAudio.ReadBits(samples, indices, HEADER_BITS, bits);
    var length := LengthOf(allBits, f);
    if length == 0 || length > MAX_RAW_BITS || length % 8 != 0 {
      return None;
    }
    var totalBits := HEADER_BITS + length;
    allBits := LsbAudio.ReadBits(samples, indices, totalBits, bits);
    if |allBits| < totalBits {
      return None;
    }
    var result := BytesBehindLength(allBits, length / 8, f);
    r := Some(result);
  }

  // --- round trips ----------------------------------------------------------------------------

  // Raw extraction undoes raw embedding exactly for the lengths that the extractor admits.
  lemma RawRoundTrip(data: seq<Byte>, slot: nat -> nat, units: nat, payload: seq<Byte>, bits: nat)
    requires 1 <= bits <= 4 && ValidSlots(slot, units, |data|) && PrefixFits(units, payload, bits) && 8 * |payload| < Pow2(32)
    ensures RawExtraction(PrefixEmbedded(data, slot, units, payload, bits), slot, units, bits) == Some(payload)
            <==> 0 < 8 * |payload| <= MAX_RAW_BITS
  {
    hide Embedded, UnitsNeeded, Prefixed, Number, BytesOf, SlotBit, Pow2, PrefixEmbedded;
    EmbeddedRead(data, slot, units, payload, bits);
  }

  // Damage behind the length prefix damages the extracted bytes in their place and nothing else.
  lemma DamagedExtraction(data: seq<Byte>, received: seq<Byte>, slot: nat -> nat, units: nat, payload: seq<Byte>,
                          bits: nat)
    requires 1 <= bits <= 4 && ValidSlots(slot, units, |data|) && PrefixFits(units, payload, bits)
    requires 0 < 8 * |payload| <= MAX_RAW_BITS
    requires SameHeader(PrefixEmbedded(data, slot, units, payload, bits), received, slot, bits)
    ensures RawExtraction(received, slot, units, bits) == Some(Region(received, slot, bits, |payload|))
  {
    hide Embedded, UnitsNeeded, Prefixed, Number, BytesOf, SlotBit, Pow2, PrefixEmbedded;
    Pow2Header();
    EmbeddedRead(data, slot, units, payload, bits);
    NumberCongruent(SlotBit(PrefixEmbedded(data, slot, units, payload, bits), slot, bits), SlotBit(received, slot, bits), HEADER_BITS);
  }

  // A payload is found exactly where the units hold it behind its bit count, and only from 1 to 100,000 bytes.
  lemma RawExtractsExactly(data: seq<Byte>, slot: nat -> nat, units: nat, bits: nat, payload: seq<Byte>)
    requires 1 <= bits <= 4
    ensures RawExtraction(data, slot, units, bits) == Some(payload)
            <==> 1 <= |payload| <= 100_000 && PrefixHeld(data, slot, units, payload, bits)
  {
    hide Number, BytesOf, SlotBit, Pow2, PrefixHeld;
    Pow2Header();
    if |payload| <= 100_000 {
      HeldExactly(data, slot, units, payload, bits);
    }
  }
}
