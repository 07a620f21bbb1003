/** The keyed audio LSB kernel of lsb_audio.rs. */
module LsbAudio {
  import opened Results
  import opened Arithmetic
  import opened GaloisField
  import opened UnitBits
  import opened BitStreams
  import opened Samples
  import opened LengthPrefix
  import opened SignaturePayloads
  import opened SignatureStream
  import opened PacketCarrier
  import opened Placement

  datatype AudioError =
    | InvalidGeometry
    | NotEnoughCapacity
    | InvalidPayload(error: PayloadError)

  // The round functions of the label "legacy-audio-v4", one for every seed.
  type RoundFamily = seq<Byte> -> ((nat, nat) -> nat)

  // --- the schedule of a frame ------------------------------------------------------------

  // The key with the frame index mixed into every eighth byte.
  function FrameSeed(key: seq<Byte>, frameIndex: nat): (seed: seq<Byte>)
    ensures |seed| == |key|
  {
    seq(|key|, i requires 0 <= i < |key| => Add(key[i], LittleEndian(frameIndex, 8)[i % 8]))
  }

  method DeriveSeed(key: seq<Byte>, frameIndex: nat) returns (seed: seq<Byte>)
    ensures seed == FrameSeed(key, frameIndex)
  {
    hide Add, LittleEndian;
    seed := key;
    var frameBytes := LittleEndian(frameIndex, 8);
    for i := 0 to |key|
      invariant |seed| == |key|
      invariant forall t :: 0 <= t < i ==> seed[t] == Add(key[t], frameBytes[t % 8])
      invariant forall t :: i <= t < |key| ==> seed[t] == key[t]
    {
      seed := seed[i := Add(seed[i], frameBytes[i % 8])];
    }
  }

  // Byte t is the key's byte xor byte t mod 8 of the frame index, lowest first.
  lemma SeedByte(key: seq<Byte>, frameIndex: nat, t: nat, digit: Byte)
    requires t < |key| && digit as nat == frameIndex / Pow256(t % 8) % 256
    ensures FrameSeed(key, frameIndex)[t] == key[t] ^ digit
  {
    hide LittleEndian, Pow256;
    LittleEndianDigit(frameIndex, 8, t % 8);
    SameByte(LittleEndian(frameIndex, 8)[t % 8], digit);
  }

  lemma {:induction false} ZeroBytes(size: nat)
    ensures forall i :: 0 <= i < size ==> LittleEndian(0, size)[i] == 0
    decreases size
  {
    if size > 0 {
      ZeroBytes(size - 1);
    }
  }

  // Frame 0 uses the key itself.
  lemma FirstFrameSeed(key: seq<Byte>)
    ensures FrameSeed(key, 0) == key
  {
    hide Add, LittleEndian;
    ZeroBytes(8);
    forall i | 0 <= i < |key|
      ensures FrameSeed(key, 0)[i] == key[i]
    {
      AddNothing(key[i]);
    }
  }

  // Different frames use different seeds.
  lemma FrameSeedsDiffer(key: seq<Byte>, i: nat, j: nat)
    requires |key| == 32 && i < Pow256(8) && j < Pow256(8) && FrameSeed(key, i) == FrameSeed(key, j)
    ensures i == j
  {
    hide Add, LittleEndian, Pow256;
    var a, b := LittleEndian(i, 8), LittleEndian(j, 8);
    forall k | 0 <= k < 8
      ensures a[k] == b[k]
    {
      assert FrameSeed(key, i)[k] == Add(key[k], a[k]);
      assert FrameSeed(key, j)[k] == Add(key[k], b[k]);
      AddInjective(key[k], a[k], b[k]);
    }
    LittleEndianInjective(i, j);
  }

  lemma AddInjective(k: Byte, a: Byte, b: Byte)
    requires Add(k, a) == Add(k, b)
    ensures a == b
  {}

  // Unit u is the low byte of the u-th sample of the frame's permutation.
  ghost function AudioSlots(rounds: RoundFamily, key: seq<Byte>, frameIndex: nat, len: nat): nat -> nat {
    Strided(2, 0, PermutationSlots(rounds(FrameSeed(key, frameIndex)), len))
  }

  lemma AudioSlotsValid(rounds: RoundFamily, key: seq<Byte>, frameIndex: nat, len: nat)
    ensures ValidSlots(AudioSlots(rounds, key, frameIndex, len), len, 2 * len)
  {
    hide PermutationSlots;
    var roundFn := rounds(FrameSeed(key, frameIndex));
    PermutationIsSchedule(roundFn, len);
    StridedBounds(2, 0, PermutationSlots(roundFn, len), len, len, 2 * len);
  }

  // Only low bytes are written.
  lemma AudioSlotsEven(rounds: RoundFamily, key: seq<Byte>, frameIndex: nat, len: nat, u: nat)
    ensures AudioSlots(rounds, key, frameIndex, len)(u) % 2 == 0
  {
    hide PermutationSlots;
  }

  // The permutation object of a frame.
  method Indices(rounds: RoundFamily, key: seq<Byte>, frameIndex: nat, len: nat) returns (indices: KeyedPermutation)
    requires len > 0
    ensures indices.Valid() && indices.len == len && indices.roundFn == rounds(FrameSeed(key, frameIndex))
  {
    var seed := DeriveSeed(key, frameIndex);
    indices := new KeyedPermutation(len, rounds(seed));
  }

  ghost function SlotsOf(indices: KeyedPermutation): nat -> nat {
    Strided(2, 0, PermutationSlots(indices.roundFn, indices.len))
  }

  lemma SlotsOfValid(indices: KeyedPermutation)
    ensures ValidSlots(SlotsOf(indices), indices.len, 2 * indices.len)
    ensures forall u: nat {:trigger SlotsOf(indices)(u)} :: u < indices.len ==>
      SlotsOf(indices)(u) == 2 * PermutedIndex(indices.roundFn, indices.len, u)
  {
    hide PermutedIndex;
    PermutationIsSchedule(indices.roundFn, indices.len);
    StridedBounds(2, 0, PermutationSlots(indices.roundFn, indices.len), indices.len, indices.len, 2 * indices.len);
  }

  // --- writing and reading samples --------------------------------------------------------

  // Writes `low` over the low bits of one sample.
  method WriteSample(samples: array<Sample>, physical: nat, low: Byte, bits: nat)
    requires bits <= 4 && physical < samples.Length
    modifies samples
    ensures var before := LeBytes(old(samples[..]));
            LeBytes(samples[..]) == before[2 * physical := Put(before[2 * physical], low, bits)]
  {
    hide Put, PutSample, LeBytes;
    ghost var before := samples[..];
    PutInBytes(before, physical, low, bits);
    samples[physical] := PutSample(samples[physical], low, bits);
    assert samples[..] == before[physical := PutSample(before[physical], low, bits)];
  }

  method WriteBits(samples: array<Sample>, indices: KeyedPermutation, stream: seq<bool>, bits: nat)
    returns (r: Result<(), AudioError>)
    requires 1 <= bits <= 4 && indices.Valid() && indices.len == samples.Length
    modifies samples
    ensures r == if indices.len >= UnitsNeeded(|stream|, bits) then Ok(()) else Err(NotEnoughCapacity)
    ensures r.Err? ==> samples[..] == old(samples[..])
    ensures InBounds(SlotsOf(indices), indices.len, 2 * samples.Length)
    ensures r.Ok? ==>
      LeBytes(samples[..]) == Embedded(LeBytes(old(samples[..])), SlotsOf(indices), stream, bits, UnitsNeeded(|stream|, bits))
  {
    hide Put, Pack, Embedded, UnitsNeeded, LeBytes, PermutedIndex, SlotsOf;
    SlotsOfValid(indices);
    if indices.len < UnitsNeeded(|stream|, bits) {
      return Err(NotEnoughCapacity);
    }
    ghost var before := LeBytes(samples[..]);
    ghost var at := SlotsOf(indices);
    EmbeddedNone(before, at, stream, bits);
    var bitIdx := 0;
    var logical := 0;
    while logical < indices.len && bitIdx < |stream|
      invariant logical <= UnitsNeeded(|stream|, bits)
      invariant bitIdx == Min(logical * bits, |stream|)
      invariant LeBytes(samples[..]) == Embedded(before, at, stream, bits, logical)
    {
      UnitsEnd(logical, |stream|, bits);
      UnitsStep(logical, |stream|, bits);
      EmbeddedOnce(before, at, stream, bits, logical);
      var physical := indices.Permute(logical);
      var low: Byte;
      low, bitIdx := PackStream(stream, bits, bitIdx);
      WriteSample(samples, physical, low, bits);
      logical := logical + 1;
    }
    UnitsEnd(logical, |stream|, bits);
    r := Ok(());
  }

  lemma SampleRead(samples: seq<Sample>, at: nat -> nat, bits: nat, logical: nat, physical: nat, k: nat, i: nat)
    requires 1 <= bits <= 4 && k < bits && i == logical * bits + k
    requires physical < |samples| && at(logical) == 2 * physical
    ensures SlotBit(LeBytes(samples), at, bits)(i) == SampleBit(samples[physical], bits - 1 - k)
  {
    hide LeBytes, BitAt, LowByte, SampleBit, ReadBit;
    ReadOne(LeBytes(samples), at, bits, logical, k, i);
    SlotBitIs(LeBytes(samples), at, bits, i);
    LowByteAt(samples, physical);
    SampleBitIs(samples[physical], bits - 1 - k);
  }

  lemma LowByteAt(samples: seq<Sample>, i: nat)
    requires i < |samples|
    ensures LeBytes(samples)[2 * i] == LowByte(samples[i])
  {
    hide LowByte, HighByte;
  }

  lemma NextUnit(logical: nat, bits: nat)
    ensures (logical + 1) * bits == logical * bits + bits
  {}

  // The first totalBits bits in permuted order, fewer when the samples end first.
  method ReadBits(samples: seq<Sample>, indices: KeyedPermutation, totalBits: nat, bits: nat) returns (found: seq<bool>)
    requires 1 <= bits <= 4 && indices.Valid() && indices.len == |samples|
    ensures |found| == Min(totalBits, |samples| * bits)
    ensures forall i: nat :: i < |found| ==> found[i] == SlotBit(LeBytes(samples), SlotsOf(indices), bits)(i)
  {
    hide LeBytes, SampleBit, UnitsNeeded, SlotBit, PermutedIndex, SlotsOf;
    SlotsOfValid(indices);
    ghost var f := SlotBit(LeBytes(samples), SlotsOf(indices), bits);
    UnitsEnd(|samples|, totalBits, bits);
    found := [];
    var logical := 0;
    while logical < indices.len && |found| < totalBits
      invariant logical <= indices.len && |found| == Min(totalBits, logical * bits)
      invariant forall i: nat :: i < |found| ==> found[i] == f(i)
    {
      ghost var base := logical * bits;
      NextUnit(logical, bits);
      var physical := indices.Permute(logical);
      var shift := bits;
      while shift > 0 && |found| < totalBits
        invariant shift <= bits && |found| == Min(totalBits, base + (bits - shift))
        invariant forall i: nat :: i < |found| ==> found[i] == f(i)
      {
        shift := shift - 1;
        SampleRead(samples, SlotsOf(indices), bits, logical, physical, bits - 1 - shift, |found|);
        found := found + [SampleBit(samples[physical], shift)];
      }
      logical := logical + 1;
    }
    MulMonotone(logical, |samples|, bits);
  }

  // --- the kernel -------------------------------------------------------------------------

  datatype AudioBuffer = AudioBuffer(channels: nat, sampleRate: nat, samples: array<Sample>, frameIndex: nat)

  predicate ValidGeometry(channels: nat, sampleRate: nat, count: nat) {
    channels > 0 && sampleRate > 0 && count % channels == 0
  }

  class Kernel {
    const bits: nat
    const key: seq<Byte>
    const rounds: RoundFamily

    ghost predicate Valid() {
      1 <= bits <= 4 && |key| == 32
    }

    constructor (bits: nat, key: seq<Byte>, rounds: RoundFamily)
      requires 1 <= bits <= 4 && |key| == 32
      ensures Valid() && this.bits == bits && this.key == key && this.rounds == rounds
    {
      this.bits := bits;
      this.key := key;
      this.rounds := rounds;
    }

    method Embed(buf: AudioBuffer, sig: Option<SignaturePayload>) returns (r: Result<(), AudioError>)
      requires Valid() && (sig.Some? ==> sig.value.Valid())
      modifies buf.samples
      ensures sig.None? ==> r == Ok(())
      ensures sig.Some? ==>
        (r == Err(InvalidGeometry) <==> buf.channels == 0 || buf.sampleRate == 0 || buf.samples.Length % buf.channels != 0)
      ensures sig.Some? && ValidGeometry(buf.channels, buf.sampleRate, buf.samples.Length) ==>
        r == if PrefixFits(buf.samples.Length, ToBytes(sig.value), bits) then Ok(()) else Err(NotEnoughCapacity)
      ensures sig.None? || r.Err? ==> buf.samples[..] == old(buf.samples[..])
      ensures sig.Some? && r.Ok? ==>
        var slot := AudioSlots(rounds, key, buf.frameIndex, buf.samples.Length);
        InBounds(slot, buf.samples.Length, 2 * buf.samples.Length)
        && LeBytes(buf.samples[..])
           == PrefixEmbedded(LeBytes(old(buf.samples[..])), slot, buf.samples.Length, ToBytes(sig.value), bits)
    {
      hide Embedded, UnitsNeeded, LeBytes, Prefixed, ToBytes, PermutationSlots;
      if sig.None? {
        return Ok(());
      }
      if !ValidGeometry(buf.channels, buf.sampleRate, buf.samples.Length) {
        return Err(InvalidGeometry);
      }
      var stream := PayloadToBits(sig.value);
      UnitsEnd(buf.samples.Length, |stream|, bits);
      if buf.samples.Length < UnitsNeeded(|stream|, bits) {
        return Err(NotEnoughCapacity);
      }
      UnitsEnd(0, |stream|, bits);
      var indices := Indices(rounds, key, buf.frameIndex, buf.samples.Length);
      r := WriteBits(buf.samples, indices, stream, bits);
    }

    // What extraction finds, as a function of the sample bytes.
    ghost function Extraction(channels: nat, sampleRate: nat, samples: seq<Sample>,
                              frameIndex: nat): Result<Option<SignaturePayload>, AudioError>
      requires Valid()
    {
      if !ValidGeometry(channels, sampleRate, |samples|) then Err(InvalidGeometry)
      else
        var found := SignatureExtraction(LeBytes(samples), AudioSlots(rounds, key, frameIndex, |samples|), |samples|, bits);
        if found.Ok? then Ok(found.value) else Err(InvalidPayload(found.error))
    }

    method Extract(buf: AudioBuffer) returns (r: Result<Option<SignaturePayload>, AudioError>)
      requires Valid()
      ensures r == Extraction(buf.channels, buf.sampleRate, buf.samples[..], buf.frameIndex)
    {
      hide BitAt, FromBytes, UnitsNeeded, ShiftedIn, SlotBit, Number, BytesOf, LeBytes, PermutationSlots;
      if !ValidGeometry(buf.channels, buf.sampleRate, buf.samples.Length) {
        return Err(InvalidGeometry);
      }
      ghost var units := buf.samples.Length;
      UnitsOrdered(bits);
      UnitsEnd(units, STREAM_BITS, bits);
      UnitsEnd(units, HEADER_BITS, bits);
      UnitsEnd(0, HEADER_BITS, bits);
      if buf.samples.Length < UnitsNeeded(HEADER_BITS, bits) {
        return Ok(None);
      }
      var indices := Indices(rounds, key, buf.frameIndex, buf.samples.Length);
      ghost var f := SlotBit(LeBytes(buf.samples[..]), SlotsOf(indices), bits);
      var prefixBits := ReadBits(buf.samples[..], indices, HEADER_BITS, bits);
      var count := 0;
      NumberNone(f);
      for bit := 0 to HEADER_BITS
        invariant count == Number(f, bit)
      {
        NumberOnce(f, bit);
        count := 2 * count + (if prefixBits[bit] then 1 else 0);
      }
      if count != PAYLOAD_BITS {
        return Ok(None);
      }
      var allBits := ReadBits(buf.samples[..], indices, STREAM_BITS, bits);
      if indices.len < UnitsNeeded(STREAM_BITS, bits) {
        return Ok(None);
      }
      var payload: seq<Byte> := [];
      for i := 0 to SERIALIZED_SIZE
        invariant |payload| == i
        invariant forall t :: 0 <= t < i ==> payload[t] == ShiftedIn(f, HEADER_BITS + 8 * t, 8)
      {
        var byte: Byte := 0;
        ShiftedOnce(f, HEADER_BITS + 8 * i, 0);
        for j := 0 to 8
          invariant byte == ShiftedIn(f, HEADER_BITS + 8 * i, j)
        {
          ShiftedOnce(f, HEADER_BITS + 8 * i, j);
          byte := (byte << 1) | BitValue(allBits[HEADER_BITS + 8 * i + j]);
        }
        payload := payload + [byte];
      }
      ShiftedBytes(f, HEADER_BITS, payload);
      var parsed := FromBytes(payload);
      r := if parsed.Ok? then Ok(Some(parsed.value)) else Err(InvalidPayload(parsed.error));
    }

    // What was embedded is extracted, for every buffer with room and every frame index.
    lemma RoundTrip(samples: seq<Sample>, after: seq<Sample>, payload: SignaturePayload, channels: nat,
                    sampleRate: nat, frameIndex: nat)
      requires Valid() && payload.Valid() && ValidGeometry(channels, sampleRate, |samples|) && |after| == |samples|
      requires PrefixFits(|samples|, ToBytes(payload), bits)
      requires InBounds(AudioSlots(rounds, key, frameIndex, |samples|), |samples|, 2 * |samples|)
      requires LeBytes(after)
            == PrefixEmbedded(LeBytes(samples), AudioSlots(rounds, key, frameIndex, |samples|), |samples|, ToBytes(payload), bits)
      ensures Extraction(channels, sampleRate, after, frameIndex) == Ok(Some(payload))
    {
      hide PrefixEmbedded, ToBytes, SignatureExtraction, LeBytes, PermutationSlots;
      AudioSlotsValid(rounds, key, frameIndex, |samples|);
      SignatureRoundTrip(LeBytes(samples), AudioSlots(rounds, key, frameIndex, |samples|), |samples|, payload, bits);
    }
  }

  // A payload is found exactly in a buffer of whole frames whose permuted samples hold it behind its bit count.
  lemma ExtractsExactly(kernel: Kernel, channels: nat, sampleRate: nat, samples: seq<Sample>, frameIndex: nat,
                        p: SignaturePayload)
    requires kernel.Valid()
    ensures var r := kernel.Extraction(channels, sampleRate, samples, frameIndex);
            var slot := AudioSlots(kernel.rounds, kernel.key, frameIndex, |samples|);
            && (r == Err(InvalidGeometry) <==> channels == 0 || sampleRate == 0 || |samples| % channels != 0)
            && (r == Ok(Some(p)) <==>
                 && channels > 0 && sampleRate > 0 && |samples| % channels == 0 && p.Valid()
                 && PrefixHeld(LeBytes(samples), slot, |samples|, ToBytes(p), kernel.bits))
  {
    hide PrefixHeld, SignatureExtraction, ToBytes, LeBytes, PermutationSlots;
    SignatureExtractsExactly(LeBytes(samples), AudioSlots(kernel.rounds, kernel.key, frameIndex, |samples|), |samples|,
                             kernel.bits, p);
  }

  // Unit u is the low byte of the sample where the permutation of the frame's seed sends u.
  lemma AudioPlaces(rounds: RoundFamily, key: seq<Byte>, frameIndex: nat, len: nat, u: nat)
    requires u < len
    ensures AudioSlots(rounds, key, frameIndex, len)(u) == 2 * PermutedIndex(rounds(FrameSeed(key, frameIndex)), len, u)
  {
    hide PermutedIndex, FrameSeed;
  }
}
