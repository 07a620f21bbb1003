/** Little-endian 16-bit samples and the bytes they are stored in. */
module Samples {
  import opened GaloisField
  import opened UnitBits

  // A little-endian 16-bit sample.
  type Sample = bv16

  function SampleOf(low: Byte, high: Byte): Sample {
    (low as Sample) | ((high as Sample) << 8)
  }

  function LowByte(sample: Sample): Byte { (sample & 0xFF) as Byte }

  function HighByte(sample: Sample): Byte { (sample >> 8) as Byte }

  function SampleMask(bits: nat): Sample
    requires bits <= 4
  {
    !((1 << bits) - 1)
  }

  function AndSample(sample: Sample, mask: Sample): Sample { sample & mask }

  function AndByte(u: Byte, mask: Byte): Byte { u & mask }

  function MaskedSample(sample: Sample, bits: nat): Sample
    requires bits <= 4
  {
    AndSample(sample, SampleMask(bits))
  }

  lemma SampleBytes(low: Byte, high: Byte)
    ensures LowByte(SampleOf(low, high)) == low && HighByte(SampleOf(low, high)) == high
  {}

  lemma AndBytes(sample: Sample, mask: Sample)
    ensures LowByte(AndSample(sample, mask)) == AndByte(LowByte(sample), LowByte(mask))
    ensures HighByte(AndSample(sample, mask)) == AndByte(HighByte(sample), HighByte(mask))
  {}

  lemma MaskValues(bits: nat)
    requires bits <= 4
    ensures LowByte(SampleMask(bits)) == ClearMask(bits) && HighByte(SampleMask(bits)) == 0xFF
  {
    if bits == 0 {
    } else if bits == 1 {
    } else if bits == 2 {
    } else if bits == 3 {
    } else {
    }
  }

  lemma AndIsMasked(u: Byte, bits: nat)
    requires bits <= 4
    ensures AndByte(u, ClearMask(bits)) == Masked(u, bits) && AndByte(u, 0xFF) == u
  {
    hide ClearMask;
  }

  lemma MaskedSampleBytes(sample: Sample, bits: nat)
    requires bits <= 4
    ensures LowByte(MaskedSample(sample, bits)) == Masked(LowByte(sample), bits)
    ensures HighByte(MaskedSample(sample, bits)) == HighByte(sample)
  {
    hide LowByte, HighByte, SampleMask, ClearMask, Masked, AndSample, AndByte;
    AndBytes(sample, SampleMask(bits));
    MaskValues(bits);
    AndIsMasked(LowByte(sample), bits);
    AndIsMasked(HighByte(sample), bits);
  }

  // --- writing one sample -----------------------------------------------------------------

  function WithLow(sample: Sample, low: Byte): Sample {
    sample | (low as Sample)
  }

  function ByteWithLow(u: Byte, low: Byte): Byte {
    u | low
  }

  // Replace the low `bits` bits of a sample.
  function PutSample(sample: Sample, low: Byte, bits: nat): Sample
    requires bits <= 4
  {
    WithLow(MaskedSample(sample, bits), low)
  }

  lemma WithLowBytes(sample: Sample, low: Byte)
    ensures LowByte(WithLow(sample, low)) == ByteWithLow(LowByte(sample), low)
    ensures HighByte(WithLow(sample, low)) == HighByte(sample)
  {}

  lemma PutIsMasked(u: Byte, low: Byte, bits: nat)
    requires bits <= 4
    ensures Put(u, low, bits) == ByteWithLow(Masked(u, bits), low)
  {
    hide ClearMask;
  }

  // Writing a sample writes its low byte and leaves its high byte.
  lemma PutSampleBytes(sample: Sample, low: Byte, bits: nat)
    requires bits <= 4
    ensures LowByte(PutSample(sample, low, bits)) == Put(LowByte(sample), low, bits)
    ensures HighByte(PutSample(sample, low, bits)) == HighByte(sample)
  {
    hide LowByte, HighByte, MaskedSample, Put, Masked, WithLow, ByteWithLow;
    WithLowBytes(MaskedSample(sample, bits), low);
    MaskedSampleBytes(sample, bits);
    PutIsMasked(LowByte(sample), low, bits);
  }

  function SampleBit(sample: Sample, s: nat): bool
    requires s < 4
  {
    (sample >> s) & 1 == 1
  }

  lemma SampleBitIs(sample: Sample, s: nat)
    requires s < 4
    ensures SampleBit(sample, s) == BitAt(LowByte(sample), s)
  {
    if s == 0 {
    } else if s == 1 {
    } else if s == 2 {
    } else {
    }
  }

  // --- samples as bytes -------------------------------------------------------------------

  function LeBytes(samples: seq<Sample>): (bytes: seq<Byte>)
    ensures |bytes| == 2 * |samples|
  {
    seq(2 * |samples|, p requires 0 <= p < 2 * |samples| =>
      if p % 2 == 0 then LowByte(samples[p / 2]) else HighByte(samples[p / 2]))
  }

  // The whole samples of a byte string; an odd last byte belongs to none.
  function FromLe(bytes: seq<Byte>): (samples: seq<Sample>)
    ensures |samples| == |bytes| / 2
  {
    seq(|bytes| / 2, i requires 0 <= i < |bytes| / 2 => SampleOf(bytes[2 * i], bytes[2 * i + 1]))
  }

  lemma LeRoundTrip(bytes: seq<Byte>)
    requires |bytes| % 2 == 0
    ensures LeBytes(FromLe(bytes)) == bytes
  {
    hide LowByte, HighByte, SampleOf;
    forall p | 0 <= p < |bytes|
      ensures LeBytes(FromLe(bytes))[p] == bytes[p]
    {
      var i := p / 2;
      SampleBytes(bytes[2 * i], bytes[2 * i + 1]);
    }
  }

  // Writing sample i is writing byte 2 i.
  lemma PutInBytes(samples: seq<Sample>, i: nat, low: Byte, bits: nat)
    requires bits <= 4 && i < |samples|
    ensures LeBytes(samples[i := PutSample(samples[i], low, bits)])
         == LeBytes(samples)[2 * i := Put(LowByte(samples[i]), low, bits)]
    ensures LeBytes(samples)[2 * i] == LowByte(samples[i])
  {
    hide LowByte, HighByte, PutSample, Put;
    PutSampleBytes(samples[i], low, bits);
    var after := samples[i := PutSample(samples[i], low, bits)];
    forall p | 0 <= p < 2 * |samples|
      ensures LeBytes(after)[p] == LeBytes(samples)[2 * i := Put(LowByte(samples[i]), low, bits)][p]
    {
      if p / 2 != i {
        assert after[p / 2] == samples[p / 2];
      }
    }
  }

  lemma SameSample(a: Sample, b: Sample)
    requires LowByte(a) == LowByte(b) && HighByte(a) == HighByte(b)
    ensures a == b
  {}

  // Samples that are stored in the same bytes are the same.
  lemma LeInjective(a: seq<Sample>, b: seq<Sample>)
    requires |a| == |b| && LeBytes(a) == LeBytes(b)
    ensures a == b
  {
    hide LowByte, HighByte;
    forall i | 0 <= i < |a|
      ensures a[i] == b[i]
    {
      assert LeBytes(a)[2 * i] == LeBytes(b)[2 * i] && LeBytes(a)[2 * i + 1] == LeBytes(b)[2 * i + 1];
      SameSample(a[i], b[i]);
    }
  }

  // A sample is stored low byte first, and read back as its two bytes.
  lemma StoredLowFirst(samples: seq<Sample>, i: nat)
    requires i < |samples|
    ensures LeBytes(samples)[2 * i] == (samples[i] & 0xFF) as Byte && LeBytes(samples)[2 * i + 1] == (samples[i] >> 8) as Byte
    ensures FromLe(LeBytes(samples))[i] == samples[i]
  {
    hide SampleOf;
    Rejoined(samples[i]);
  }

  lemma Rejoined(sample: Sample)
    ensures SampleOf(LowByte(sample), HighByte(sample)) == sample
  {}
}
