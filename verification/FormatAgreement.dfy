/** The core LSB kernels and the raw coders of the command line read and write one format. */
module FormatAgreement {
  import opened Results
  import opened Arithmetic
  import opened GaloisField
  import opened BitStreams
  import opened Samples
  import opened LengthPrefix
  import opened SignaturePayloads
  import opened SignatureStream
  import opened LsbVideo
  import opened RawLsb
  import LsbAudio

  // On packed RGB the colour bytes are all bytes, in order.
  lemma PackedRgbInOrder(layout: Layout, size: nat, u: nat)
    requires layout.ValidPacked(size) && layout.format == Rgb8 && layout.stride == layout.RowBytes() && u < layout.Units()
    ensures ByteOffset(layout)(u) == u
  {
    hide Row, Column;
    RowColumn(layout, size, u);
    assert ColumnOffset(layout, Column(layout, u)) == Column(layout, u);
  }

  // A carrier that one side wrote is read by the other.
  lemma CrossRead(data: seq<Byte>, slot: nat -> nat, units: nat, payload: SignaturePayload, bits: nat)
    requires 1 <= bits <= 4 && payload.Valid() && ValidSlots(slot, units, |data|) && PrefixFits(units, ToBytes(payload), bits)
    ensures var after := PrefixEmbedded(data, slot, units, ToBytes(payload), bits);
            SignatureExtraction(after, slot, units, bits) == Ok(Some(payload))
            && RawExtraction(after, slot, units, bits) == Some(ToBytes(payload))
  {
    hide PrefixEmbedded, ToBytes, SignatureExtraction, RawExtraction, Pow2;
    Pow2Header();
    PayloadRoundTrip(payload);
    SignatureRoundTrip(data, slot, units, payload, bits);
    RawRoundTrip(data, slot, units, ToBytes(payload), bits);
  }

  // Video: kernel and raw coder leave the same bytes in a packed RGB frame.
  lemma VideoAgrees(kernel: Kernel, layout: Layout, data: seq<Byte>, payload: SignaturePayload)
    requires kernel.Valid() && payload.Valid() && layout.ValidPacked(|data|)
    requires layout.format == Rgb8 && layout.stride == layout.RowBytes() && |data| == layout.Units()
    requires PrefixFits(|data|, ToBytes(payload), kernel.bits)
    ensures InBounds(ByteOffset(layout), layout.Units(), |data|)
    ensures var written := PrefixEmbedded(data, ByteOffset(layout), layout.Units(), ToBytes(payload), kernel.bits);
            written == PrefixEmbedded(data, InOrder(), |data|, ToBytes(payload), kernel.bits)
            && RawExtraction(written, InOrder(), |data|, kernel.bits) == Some(ToBytes(payload))
            && kernel.Extraction(layout, written) == Ok(Some(payload))
  {
    hide ToBytes, SignatureExtraction, RawExtraction, ByteOffset, Embedded, UnitsNeeded, Prefixed;
    var bits, stream := kernel.bits, Prefixed(ToBytes(payload));
    OffsetsValid(layout, |data|, layout.Units());
    forall u: nat | u < layout.Units()
      ensures ByteOffset(layout)(u) == InOrder()(u)
    {
      PackedRgbInOrder(layout, |data|, u);
    }
    UnitsEnd(|data|, |stream|, bits);
    EmbeddedCongruent(data, ByteOffset(layout), InOrder(), stream, bits, UnitsNeeded(|stream|, bits));
    CrossRead(data, InOrder(), |data|, payload, bits);
    kernel.RoundTrip(layout, data, payload);
  }

  // Audio: under one key the raw coder and the kernel at frame index 0 leave the same samples, and each reads
  // the other.
  lemma AudioAgrees(kernel: LsbAudio.Kernel, before: seq<Sample>, byKernel: seq<Sample>, byRaw: seq<Sample>,
                    payload: SignaturePayload, channels: nat, rate: nat)
    requires kernel.Valid() && payload.Valid() && LsbAudio.ValidGeometry(channels, rate, |before|)
    requires |byKernel| == |byRaw| == |before| && PrefixFits(|before|, ToBytes(payload), kernel.bits)
    requires var slot := LsbAudio.AudioSlots(kernel.rounds, kernel.key, 0, |before|);
             InBounds(slot, |before|, 2 * |before|)
             && LeBytes(byKernel) == PrefixEmbedded(LeBytes(before), slot, |before|, ToBytes(payload), kernel.bits)
    requires var slot := RawAudioSlots(kernel.rounds, kernel.key, |before|);
             InBounds(slot, |before|, 2 * |before|)
             && LeBytes(byRaw) == PrefixEmbedded(LeBytes(before), slot, |before|, ToBytes(payload), kernel.bits)
    ensures byKernel == byRaw
    ensures kernel.Extraction(channels, rate, byRaw, 0) == Ok(Some(payload))
    ensures RawExtraction(LeBytes(byKernel), RawAudioSlots(kernel.rounds, kernel.key, |before|), |before|, kernel.bits)
         == Some(ToBytes(payload))
  {
    hide PrefixEmbedded, ToBytes, SignatureExtraction, RawExtraction, LeBytes, LsbAudio.AudioSlots, RawAudioSlots;
    var slot := LsbAudio.AudioSlots(kernel.rounds, kernel.key, 0, |before|);
    RawAudioSlotsFirst(kernel.rounds, kernel.key, |before|);
    LeInjective(byKernel, byRaw);
    LsbAudio.AudioSlotsValid(kernel.rounds, kernel.key, 0, |before|);
    CrossRead(LeBytes(before), slot, |before|, payload, kernel.bits);
    kernel.RoundTrip(before, byKernel, payload, channels, rate, 0);
  }
}
