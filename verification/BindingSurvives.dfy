/** Embedding does not change what is bound: every LSB writer changes owned bits only. */
module BindingSurvives {
  import opened Arithmetic
  import opened GaloisField
  import opened UnitBits
  import opened BitStreams
  import opened LengthPrefix
  import opened CarrierBinding
  import LsbVideo

  // Whoever writes at owned units only agrees with the original everywhere else.
  lemma WritesOwnedOnly(owned: Ownership, data: seq<Byte>, slot: nat -> nat, stream: seq<bool>, bits: nat, count: nat)
    requires bits <= 4 && InBounds(slot, count, |data|)
    requires forall u: nat, s: nat :: u < count && s < bits ==> owned(slot(u), s)
    ensures AgreeOutside(owned, data, Embedded(data, slot, stream, bits, count))
  {
    hide BitAt, Embedded;
    var after := Embedded(data, slot, stream, bits, count);
    forall p: nat, s: nat | p < |data| && s < 8 && !owned(p, s)
      ensures BitAt(data[p], s) == BitAt(after[p], s)
    {
      if s >= bits {
        EmbeddedHighBits(data, slot, stream, bits, count, p, s);
      } else {
        EmbeddedElsewhere(data, slot, stream, bits, count, p);
      }
    }
  }

  lemma PrefixWritesOwnedOnly(owned: Ownership, data: seq<Byte>, slot: nat -> nat, units: nat, payload: seq<Byte>,
                              bits: nat)
    requires 1 <= bits <= 4 && InBounds(slot, units, |data|) && PrefixFits(units, payload, bits)
    requires forall u: nat, s: nat :: u < units && s < bits ==> owned(slot(u), s)
    ensures AgreeOutside(owned, data, PrefixEmbedded(data, slot, units, payload, bits))
  {
    hide Embedded, AgreeOutside, Prefixed, UnitsNeeded;
    UnitsEnd(units, |Prefixed(payload)|, bits);
    WritesOwnedOnly(owned, data, slot, Prefixed(payload), bits, UnitsNeeded(|Prefixed(payload)|, bits));
  }

  // The video kernel, on packed RGB and on packed BGRA.
  lemma VideoEmbedSurvives(layout: LsbVideo.Layout, data: seq<Byte>, payload: seq<Byte>, bits: nat, embeddedLen: nat,
                           c: seq<Byte>)
    requires 1 <= bits <= 4 && layout.ValidPacked(|data|) && layout.stride == layout.RowBytes()
    requires |data| == layout.width * layout.height * layout.BytesPerPixel() && PrefixFits(layout.Units(), payload, bits)
    requires IsCanonical(Owned(LsbVideo, |data|, bits, layout.width, layout.height, embeddedLen), data, c)
    ensures InBounds(LsbVideo.ByteOffset(layout), layout.Units(), |data|)
    ensures IsCanonical(Owned(LsbVideo, |data|, bits, layout.width, layout.height, embeddedLen),
                        PrefixEmbedded(data, LsbVideo.ByteOffset(layout), layout.Units(), payload, bits), c)
  {
    hide IsCanonical, AgreeOutside, LsbVideo.ByteOffset, PrefixEmbedded;
    var owned := Owned(LsbVideo, |data|, bits, layout.width, layout.height, embeddedLen);
    LsbVideo.OffsetsValid(layout, |data|, layout.Units());
    forall u: nat, s: nat | u < layout.Units() && s < bits
      ensures owned(LsbVideo.ByteOffset(layout)(u), s)
    {
      if layout.format == LsbVideo.Bgra8 {
        LsbVideo.UnownedIsNoOffset(layout, |data|, u);
        ModOfMod(LsbVideo.ByteOffset(layout)(u), layout.stride, layout.width);
      } else {
        assert layout.BytesPerPixel() == 3;
        assert layout.width * layout.height * 3 == |data|;
        assert VideoBytesPerPixel(|data|, layout.width, layout.height) == 3;
      }
    }
    PrefixWritesOwnedOnly(owned, data, LsbVideo.ByteOffset(layout), layout.Units(), payload, bits);
    CanonicalSurvives(owned, data, PrefixEmbedded(data, LsbVideo.ByteOffset(layout), layout.Units(), payload, bits), c);
  }

  lemma ModOfMod(p: nat, d: nat, width: nat)
    requires d == width * 4 && d > 0
    ensures p % d % 4 == p % 4
  {
    var q, r := Quotient(p, d), p % d;
    DivMod(p, d);
    var n := q * width;
    assert q * d == n * 4 by {
      ScaleOut(q, width);
    }
    MultipleOfFour(n, r);
  }

  lemma ScaleOut(q: nat, width: nat)
    ensures q * (width * 4) == (q * width) * 4
  {}

  lemma MultipleOfFour(n: nat, r: nat)
    ensures (n * 4 + r) % 4 == r % 4
  {}

  // The audio kernel, under any key and frame index.
  lemma AudioEmbedSurvives(slot: nat -> nat, data: seq<Byte>, payload: seq<Byte>, bits: nat, width: nat, height: nat,
                           embeddedLen: nat, c: seq<Byte>)
    requires 1 <= bits <= 4 && |data| % 2 == 0 && PrefixFits(|data| / 2, payload, bits)
    requires InBounds(slot, |data| / 2, |data|) && forall u: nat :: u < |data| / 2 ==> slot(u) % 2 == 0
    requires IsCanonical(Owned(LsbAudio, |data|, bits, width, height, embeddedLen), data, c)
    ensures IsCanonical(Owned(LsbAudio, |data|, bits, width, height, embeddedLen),
                        PrefixEmbedded(data, slot, |data| / 2, payload, bits), c)
  {
    hide IsCanonical, AgreeOutside, PrefixEmbedded;
    var owned := Owned(LsbAudio, |data|, bits, width, height, embeddedLen);
    PrefixWritesOwnedOnly(owned, data, slot, |data| / 2, payload, bits);
    CanonicalSurvives(owned, data, PrefixEmbedded(data, slot, |data| / 2, payload, bits), c);
  }
}
