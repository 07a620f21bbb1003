/** The direct DCT path: a signed payload in the blocks of its own canonical carrier, embedded, found and verified. */
module DirectDct {
  import opened Results
  import opened Arithmetic
  import opened GaloisField
  import opened SignaturePayloads
  import opened SignatureStream
  import opened CarrierBinding
  import opened EndToEnd
  import LsbVideo
  import DctVideo

  datatype DirectError =
    | DirectOnly
    | BitsUnsupported
    | Preparing(encode: EncodeError)
    | Unparsable
    | Stamping(dct: DctVideo.DctError)
    | NotAuthentic

  datatype DirectVerdict = Unextractable(dct: DctVideo.DctError) | Found(verdict: Verdict)

  // The payload is embedded as it is: no encryption, no error correction, no choice of strength.
  predicate Direct(o: Options) {
    !o.encrypt && !o.ecc && o.bits == 1
  }

  // The default kernel works on the green channel; its transform is any.
  ghost predicate DefaultKernel(kernel: DctVideo.Kernel) {
    kernel.Valid() && kernel.quantStep == 16 && kernel.channel == 1
  }

  function PackedRgb(width: nat, height: nat): LsbVideo.Layout {
    LsbVideo.Layout(width, height, 3 * width, LsbVideo.Rgb8)
  }

  ghost function OwnedBlocks(size: nat, width: nat, height: nat): Ownership {
    Owned(StegoType.DctVideo, size, 1, width, height, SERIALIZED_SIZE)
  }

  // What one successful run relates.
  ghost predicate SignedBlocks(kernel: DctVideo.Kernel, width: nat, height: nat, k: Secrets, before: seq<Byte>,
                               canonical: seq<Byte>, after: seq<Byte>) {
    var layout := PackedRgb(width, height);
    var bytes := ToBytes(SignFrame(k.scheme, 0, canonical, None));
    && IsCanonical(OwnedBlocks(|before|, width, height), before, canonical)
    && Refusal(StegoType.DctVideo, |before|, 1, width, height, SERIALIZED_SIZE).None?
    && kernel.Embeddable(layout, before, bytes)
    && kernel.Marked(layout, before, bytes, after)
  }

  lemma SignedSize(k: Secrets, canonical: seq<Byte>)
    requires ValidSecrets(k)
    ensures SignFrame(k.scheme, 0, canonical, None).Valid()
    ensures |ToBytes(SignFrame(k.scheme, 0, canonical, None))| == SERIALIZED_SIZE
  {
    hide ToBytes, Preimage;
    SignedValid(k.scheme, 0, canonical);
    PayloadRoundTrip(SignFrame(k.scheme, 0, canonical, None));
  }

  // --- verifying ----------------------------------------------------------------------------

  // The verdict on a frame: what its blocks decide is judged against its own canonical bytes.
  ghost predicate IsDirectVerdict(kernel: DctVideo.Kernel, width: nat, height: nat, o: Options, k: Secrets,
                                  data: seq<Byte>, v: DirectVerdict) {
    var found := kernel.Extraction(PackedRgb(width, height), data);
    if found.Err? then v == Unextractable(found.error)
    else if found.value.None? then v == Found(NoSignature)
    else
      && v.Found?
      && Judged(data, ToBytes(found.value.value), StegoType.DctVideo, width, height, o, k, v.verdict)
  }

  method VerifyDirect(data: seq<Byte>, width: nat, height: nat, kernel: DctVideo.Kernel, o: Options, k: Secrets)
    returns (v: DirectVerdict)
    requires kernel.Valid()
    ensures IsDirectVerdict(kernel, width, height, o, k, data, v)
  {
    hide Judged, ToBytes;
    var owned := new Byte[|data|](i requires 0 <= i < |data| => data[i]);
    assert owned[..] == data;
    var frame := new LsbVideo.VideoFrame(PackedRgb(width, height), owned);
    var found := kernel.Extract(frame);
    if found.Err? {
      return Unextractable(found.error);
    }
    if found.value.None? {
      return Found(NoSignature);
    }
    var verdict := Judge(data, ToBytes(found.value.value), StegoType.DctVideo, width, height, o, k);
    v := Found(verdict);
  }

  // --- the theorems -------------------------------------------------------------------------

  // Every payload block of two frames decides the same bit.
  ghost predicate SameDecisions(kernel: DctVideo.Kernel, layout: LsbVideo.Layout, a: seq<Byte>, b: seq<Byte>)
    requires kernel.GridOf(layout).blocksX > 0
  {
    var g := kernel.GridOf(layout);
    forall i: nat :: i < PAYLOAD_BITS ==> kernel.Decisions(g, a)(i) == kernel.Decisions(g, b)(i)
  }

  lemma SameExtraction(kernel: DctVideo.Kernel, layout: LsbVideo.Layout, a: seq<Byte>, b: seq<Byte>)
    requires kernel.GridOf(layout).blocksX > 0 && |a| == |b| && SameDecisions(kernel, layout, a, b)
    ensures kernel.Extraction(layout, a) == kernel.Extraction(layout, b)
  {
    hide DctVideo.Collect, FromBytes;
    var g := kernel.GridOf(layout);
    forall j | 0 <= j < SERIALIZED_SIZE
      ensures kernel.DecodedBytes(g, a)[j] == kernel.DecodedBytes(g, b)[j]
    {
      DctVideo.CollectCongruent(kernel.Decisions(g, a), kernel.Decisions(g, b), 8 * j, 8);
    }
    assert kernel.DecodedBytes(g, a) == kernel.DecodedBytes(g, b);
  }

  // Resilience: whatever happens to the pixels of the payload blocks, as long as every block still decides its bit
  // and no other byte changes, the frame verifies as it was signed.
  lemma DirectResilience(kernel: DctVideo.Kernel, width: nat, height: nat, o: Options, k: Secrets, before: seq<Byte>,
                         canonical: seq<Byte>, sent: seq<Byte>, received: seq<Byte>, v: DirectVerdict)
    requires DefaultKernel(kernel) && ValidSecrets(k) && Direct(o)
    requires SignedBlocks(kernel, width, height, k, before, canonical, sent)
    requires AgreeOutside(OwnedBlocks(|before|, width, height), sent, received)
    requires SameDecisions(kernel, PackedRgb(width, height), sent, received)
    requires IsDirectVerdict(kernel, width, height, o, k, received, v)
    ensures IsCanonical(OwnedBlocks(|before|, width, height), received, canonical)
    ensures v == Found(Checked(SignFrame(k.scheme, 0, canonical, None), true))
  {
    hide IsCanonical, AgreeOutside, ToBytes, Preimage, SameDecisions, Judged, Opened, DctVideo.Stamped;
    var layout, payload := PackedRgb(width, height), SignFrame(k.scheme, 0, canonical, None);
    SignedSize(k, canonical);
    kernel.EmbedSurvives(layout, before, ToBytes(payload), sent, 1, SERIALIZED_SIZE, canonical);
    CanonicalSurvives(OwnedBlocks(|before|, width, height), sent, received, canonical);
    kernel.RoundTrip(layout, before, payload, sent);
    assert |received| == |sent| == |before| by {
      SameSizes(OwnedBlocks(|before|, width, height), kernel, layout, before, ToBytes(payload), sent, received);
    }
    SameExtraction(kernel, layout, sent, received);
    OpensDirect(o, k, payload);
    AcceptedAsSigned(received, ToBytes(payload), StegoType.DctVideo, width, height, o, k, canonical, v.verdict);
  }

  lemma SameSizes(owned: Ownership, kernel: DctVideo.Kernel, layout: LsbVideo.Layout, before: seq<Byte>,
                  payload: seq<Byte>, sent: seq<Byte>, received: seq<Byte>)
    requires kernel.GridOf(layout).blocksX > 0 && kernel.Marked(layout, before, payload, sent)
    requires AgreeOutside(owned, sent, received)
    ensures |received| == |sent| == |before|
  {}

  lemma OpensDirect(o: Options, k: Secrets, payload: SignaturePayload)
    requires Direct(o) && payload.Valid()
    ensures Opened(o, k, ToBytes(payload)) == Ok(payload)
  {
    hide ToBytes, FromBytes;
    PayloadRoundTrip(payload);
  }

  // A received frame that shows the signed payload verifies exactly when nothing but payload blocks changed, or the two
  // canonical forms collide.
  lemma DirectVerdictBinds(kernel: DctVideo.Kernel, width: nat, height: nat, o: Options, k: Secrets, before: seq<Byte>,
                           canonical: seq<Byte>, received: seq<Byte>, v: DirectVerdict)
    returns (seen: seq<Byte>)
    requires kernel.Valid() && ValidSecrets(k) && Direct(o) && |received| == |before| < Pow256(8)
    requires IsCanonical(OwnedBlocks(|before|, width, height), before, canonical)
    requires Refusal(StegoType.DctVideo, |before|, 1, width, height, SERIALIZED_SIZE).None?
    requires kernel.Extraction(PackedRgb(width, height), received) == Ok(Some(SignFrame(k.scheme, 0, canonical, None)))
    requires IsDirectVerdict(kernel, width, height, o, k, received, v)
    ensures IsCanonical(OwnedBlocks(|before|, width, height), received, seen)
    ensures v.Found? && v.verdict.Checked? && v.verdict.payload == SignFrame(k.scheme, 0, canonical, None)
    ensures v.verdict.valid <==> AgreeOutside(OwnedBlocks(|before|, width, height), before, received)
                                 || Collision(k.scheme.hash, Preimage(0, canonical, None), Preimage(0, seen, None))
  {
    hide IsCanonical, AgreeOutside, ToBytes, Preimage, Pow256, SignFrame, Judged, Opened, DctVideo.Kernel.Extraction;
    SignedSize(k, canonical);
    OpensDirect(o, k, SignFrame(k.scheme, 0, canonical, None));
    seen := JudgedBinds(received, ToBytes(SignFrame(k.scheme, 0, canonical, None)), StegoType.DctVideo, width, height, o, k,
                        before, canonical, v.verdict);
  }

  // One changed byte that is not the green byte of a pixel in the first 872 blocks makes the verdict invalid, unless the
  // hash collides.
  lemma ChangedByteInvalid(kernel: DctVideo.Kernel, width: nat, height: nat, o: Options, k: Secrets, before: seq<Byte>,
                           canonical: seq<Byte>, sent: seq<Byte>, received: seq<Byte>, p: nat, v: DirectVerdict)
    returns (seen: seq<Byte>)
    requires DefaultKernel(kernel) && ValidSecrets(k) && Direct(o) && |received| == |sent| == |before| < Pow256(8)
    requires SignedBlocks(kernel, width, height, k, before, canonical, sent) && width >= 8
    requires kernel.Extraction(PackedRgb(width, height), received) == Ok(Some(SignFrame(k.scheme, 0, canonical, None)))
    requires IsDirectVerdict(kernel, width, height, o, k, received, v)
    requires p < |sent| && received[p] != sent[p]
    requires var x, y := Quotient(p, 3) % width, Quotient(Quotient(p, 3), width);
             p % 3 != 1 || x >= 8 * (width / 8) || (y / 8) * (width / 8) + x / 8 >= 872
    ensures v == Found(Checked(SignFrame(k.scheme, 0, canonical, None), false))
            || Collision(k.scheme.hash, Preimage(0, canonical, None), Preimage(0, seen, None))
  {
    hide IsCanonical, AgreeOutside, ToBytes, Preimage, Pow256, SignFrame, IsDirectVerdict, DctVideo.Stamped,
         DctVideo.Kernel.Extraction;
    SignedSize(k, canonical);
    kernel.EmbedSurvives(PackedRgb(width, height), before, ToBytes(SignFrame(k.scheme, 0, canonical, None)), sent, 1,
                         SERIALIZED_SIZE, canonical);
    seen := DirectVerdictBinds(kernel, width, height, o, k, before, canonical, received, v);
    DctFormExactly(sent, 1, width, height, SERIALIZED_SIZE, canonical);
    DctFormExactly(received, 1, width, height, SERIALIZED_SIZE, seen);
    assert canonical[p] == sent[p];
    assert seen[p] == received[p];
    if AgreeOutside(OwnedBlocks(|before|, width, height), before, received) {
      CanonicalSeparates(OwnedBlocks(|before|, width, height), before, received, canonical, seen);
    }
  }

  // --- the run ------------------------------------------------------------------------------

  // Prepare, embed, read back, check: the run fails only where the canonical form or the embedder refuses.
  method RunDirect(media: array<Byte>, width: nat, height: nat, kernel: DctVideo.Kernel, o: Options, k: Secrets)
    returns (r: Result<SignaturePayload, DirectError>, ghost canonical: seq<Byte>)
    requires DefaultKernel(kernel) && ValidSecrets(k)
    modifies media
    ensures r.Err? ==> media[..] == old(media[..])
    ensures o.bits != 1 ==> r == Err(BitsUnsupported)
    ensures o.bits == 1 && (o.encrypt || o.ecc) ==> r == Err(DirectOnly)
    ensures Direct(o) && Refusal(StegoType.DctVideo, media.Length, 1, width, height, SERIALIZED_SIZE).Some? ==>
      r == Err(Preparing(Binding(Refusal(StegoType.DctVideo, media.Length, 1, width, height, SERIALIZED_SIZE).value)))
    ensures r.Ok? <==>
      && o.bits == 1 && !o.encrypt && !o.ecc && Refusal(StegoType.DctVideo, media.Length, 1, width, height, SERIALIZED_SIZE).None?
      && old(kernel.Embeddable(PackedRgb(width, height), media[..], ToBytes(SignFrame(k.scheme, 0, canonical, None))))
    ensures Direct(o) && Refusal(StegoType.DctVideo, media.Length, 1, width, height, SERIALIZED_SIZE).None? ==>
      IsCanonical(OwnedBlocks(media.Length, width, height), old(media[..]), canonical)
    ensures r.Ok? ==>
      && r.value == SignFrame(k.scheme, 0, canonical, None)
      && SignedBlocks(kernel, width, height, k, old(media[..]), canonical, media[..])
  {
    hide IsCanonical, ToBytes, FromBytes, Preimage, DctVideo.Stamped, IsDirectVerdict;
    canonical := [];
    if o.bits != 1 {
      return Err(BitsUnsupported), canonical;
    }
    if o.encrypt || o.ecc {
      return Err(DirectOnly), canonical;
    }
    ghost var before := media[..];
    var prepared;
    prepared, canonical := Prepare(media[..], StegoType.DctVideo, width, height, o, k);
    if prepared.Err? {
      return Err(Preparing(prepared.error)), canonical;
    }
    SignedSize(k, canonical);
    PayloadRoundTrip(prepared.value.payload);
    var parsed := FromBytes(prepared.value.embedData);
    if parsed.Err? {
      return Err(Unparsable), canonical;
    }
    var frame := new LsbVideo.VideoFrame(PackedRgb(width, height), media);
    var embedded := kernel.Embed(frame, Some(parsed.value));
    if embedded.Err? {
      return Err(Stamping(embedded.error)), canonical;
    }
    var verdict := VerifyDirect(media[..], width, height, kernel, o, k);
    SentDirectly(kernel, width, height, o, k, before, canonical, media[..], verdict);
    if verdict != Found(Checked(prepared.value.payload, true)) {
      return Err(NotAuthentic), canonical;
    }
    r := Ok(prepared.value.payload);
  }

  // An undamaged frame verifies.
  lemma SentDirectly(kernel: DctVideo.Kernel, width: nat, height: nat, o: Options, k: Secrets, before: seq<Byte>,
                     canonical: seq<Byte>, sent: seq<Byte>, v: DirectVerdict)
    requires DefaultKernel(kernel) && ValidSecrets(k) && Direct(o)
    requires SignedBlocks(kernel, width, height, k, before, canonical, sent)
    requires IsDirectVerdict(kernel, width, height, o, k, sent, v)
    ensures v == Found(Checked(SignFrame(k.scheme, 0, canonical, None), true))
  {
    hide IsCanonical, ToBytes, Preimage, DctVideo.Stamped, IsDirectVerdict;
    DirectResilience(kernel, width, height, o, k, before, canonical, sent, sent, v);
  }
}
