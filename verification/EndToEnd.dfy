/** Offline signing and verification of LSB carriers: the run of cmd_encode.rs and the checks of cmd_verify.rs. */
module EndToEnd {
  import opened Results
  import opened Arithmetic
  import opened GaloisField
  import opened UnitBits
  import opened BitStreams
  import opened Samples
  import opened LengthPrefix
  import opened SignaturePayloads
  import opened CarrierBinding
  import opened BindingSurvives
  import opened KeyEquations
  import ReedSolomon
  import RawLsb
  import LsbAudio

  // Bytes that the legacy encryption wrapper adds: magic, version, identifier, salt and tag.
  const ENCRYPTION_OVERHEAD := 41

  datatype Options = Options(bits: nat, encrypt: bool, ecc: bool, parity: nat)

  predicate ValidParity(o: Options) {
    o.ecc ==> 1 <= o.parity <= 16
  }

  // The decoded media: packed RGB pixels or interleaved 16-bit samples.
  datatype Carrier = Video(width: nat, height: nat) | Audio(key: seq<Byte>, rounds: LsbAudio.RoundFamily)

  ghost predicate ValidMedia(c: Carrier, size: nat) {
    match c
    case Video(width, height) => size == width * height * 3
    case Audio(key, _) => size % 2 == 0 && |key| == 32
  }

  function Kernel(c: Carrier): StegoType {
    if c.Video? then LsbVideo else LsbAudio
  }

  function Units(c: Carrier, size: nat): nat {
    if c.Video? then size else size / 2
  }

  ghost function Slots(c: Carrier, size: nat): nat -> nat {
    if c.Video? then InOrder() else LsbAudio.AudioSlots(c.rounds, c.key, 0, size / 2)
  }

  function Width(c: Carrier): nat { if c.Video? then c.width else 0 }

  function Height(c: Carrier): nat { if c.Video? then c.height else 0 }

  // The bits that the carrier's kernel may change, and what its canonical form refuses.
  ghost function OwnedBits(c: Carrier, o: Options, size: nat, embeddedLen: nat): Ownership {
    Owned(Kernel(c), size, o.bits, Width(c), Height(c), embeddedLen)
  }

  function Refused(c: Carrier, o: Options, size: nat, embeddedLen: nat): Option<BindingError> {
    Refusal(Kernel(c), size, o.bits, Width(c), Height(c), embeddedLen)
  }

  // ChaCha20-Poly1305 in its legacy wrapper under one key.
  datatype Cipher = Cipher(encrypt: seq<Byte> -> seq<Byte>, decrypt: seq<Byte> -> Option<seq<Byte>>)

  ghost predicate ValidCipher(c: Cipher) {
    forall m {:trigger c.encrypt(m)} :: |c.encrypt(m)| == |m| + ENCRYPTION_OVERHEAD && c.decrypt(c.encrypt(m)) == Some(m)
  }

  datatype Secrets = Secrets(scheme: Scheme, cipher: Cipher)

  ghost predicate ValidSecrets(k: Secrets) {
    ValidScheme(k.scheme) && ValidCipher(k.cipher)
  }

  lemma CarrierSlots(c: Carrier, size: nat)
    requires ValidMedia(c, size)
    ensures ValidSlots(Slots(c, size), Units(c, size), size)
    ensures c.Audio? ==> forall u: nat :: u < Units(c, size) ==> Slots(c, size)(u) % 2 == 0
  {
    hide LsbAudio.AudioSlots;
    if c.Audio? {
      LsbAudio.AudioSlotsValid(c.rounds, c.key, 0, size / 2);
      forall u: nat | u < Units(c, size)
        ensures Slots(c, size)(u) % 2 == 0
      {
        LsbAudio.AudioSlotsEven(c.rounds, c.key, 0, size / 2, u);
      }
    }
  }

  // --- encoding ---------------------------------------------------------------------------

  datatype EncodeError =
    | ParityOutOfRange
    | Binding(binding: BindingError)
    | CorrectionFailed
    | LengthMismatch
    | Embedding(raw: RawLsb.RawError)
    | OutputNotAuthentic

  function TransformedLen(o: Options): nat {
    SERIALIZED_SIZE + (if o.encrypt then ENCRYPTION_OVERHEAD else 0) + (if o.ecc then o.parity else 0)
  }

  function Sealed(o: Options, k: Secrets, payload: SignaturePayload): seq<Byte> {
    if o.encrypt then k.cipher.encrypt(ToBytes(payload)) else ToBytes(payload)
  }

  // The bytes that are embedded: sealed, then protected by parity symbols.
  function Transformed(o: Options, k: Secrets, payload: SignaturePayload): seq<Byte> {
    var sealed := Sealed(o, k, payload);
    if o.ecc then Codeword(sealed, |sealed| + o.parity) else sealed
  }

  lemma TransformedLength(o: Options, k: Secrets, payload: SignaturePayload)
    requires ValidParity(o) && ValidSecrets(k) && payload.Valid()
    ensures |Transformed(o, k, payload)| == TransformedLen(o)
    ensures |Sealed(o, k, payload)| == TransformedLen(o) - (if o.ecc then o.parity else 0)
    ensures o.ecc ==> ReedSolomon.ValidLengths(|Sealed(o, k, payload)|, o.parity)
    ensures 0 < 8 * TransformedLen(o) <= RawLsb.MAX_RAW_BITS
  {
    hide ToBytes;
    PayloadRoundTrip(payload);
  }

  ghost predicate CarrierFits(c: Carrier, o: Options, size: nat) {
    HEADER_BITS + 8 * TransformedLen(o) <= Units(c, size) * o.bits
  }

  // What one successful run relates: the carrier before, the signed canonical bytes, and the carrier after.
  ghost predicate Signed(c: Carrier, o: Options, k: Secrets, before: seq<Byte>, canonical: seq<Byte>,
                         payload: SignaturePayload, after: seq<Byte>) {
    && 1 <= o.bits <= 4
    && IsCanonical(OwnedBits(c, o, |before|, TransformedLen(o)), before, canonical)
    && payload == SignFrame(k.scheme, 0, canonical, None)
    && InBounds(Slots(c, |before|), Units(c, |before|), |before|)
    && PrefixFits(Units(c, |before|), Transformed(o, k, payload), o.bits)
    && after == PrefixEmbedded(before, Slots(c, |before|), Units(c, |before|), Transformed(o, k, payload), o.bits)
  }

  method Embed(media: array<Byte>, c: Carrier, raw: seq<Byte>, bits: nat) returns (r: Result<(), RawLsb.RawError>)
    requires 1 <= bits <= 4 && ValidMedia(c, media.Length) && 8 * |raw| < Pow2(32)
    modifies media
    ensures r.Ok? <==> PrefixFits(Units(c, media.Length), raw, bits)
    ensures r.Err? ==> media[..] == old(media[..])
    ensures r.Ok? ==>
      InBounds(Slots(c, media.Length), Units(c, media.Length), media.Length)
      && media[..] == PrefixEmbedded(old(media[..]), Slots(c, media.Length), Units(c, media.Length), raw, bits)
  {
    hide Pow2, Prefixed, Embedded, UnitsNeeded, LeBytes, FromLe, LsbAudio.AudioSlots, RawLsb.RawAudioSlots;
    match c {
      case Video(_, _) =>
        r := RawLsb.EmbedRaw(media, raw, bits);
      case Audio(key, rounds) =>
        ghost var before := media[..];
        var decoded := FromLe(media[..]);
        LeRoundTrip(media[..]);
        RawLsb.RawAudioSlotsFirst(rounds, key, |decoded|);
        var samples := new Sample[|decoded|](i requires 0 <= i < |decoded| => decoded[i]);
        assert samples[..] == decoded;
        r := RawLsb.EmbedRawAudio(samples, raw, bits, key, rounds);
        if r.Ok? {
          WriteBack(media, samples[..]);
        }
    }
  }

  // Stores the samples in the bytes that they came from.
  method WriteBack(media: array<Byte>, samples: seq<Sample>)
    requires media.Length == 2 * |samples|
    modifies media
    ensures media[..] == LeBytes(samples)
  {
    hide LowByte, HighByte;
    for i := 0 to |samples|
      invariant forall p :: 0 <= p < 2 * i ==> media[p] == LeBytes(samples)[p]
    {
      media[2 * i], media[2 * i + 1] := LowByte(samples[i]), HighByte(samples[i]);
    }
  }

  lemma SignedValid(s: Scheme, frameIndex: nat, video: seq<Byte>)
    requires ValidScheme(s) && frameIndex == 0
    ensures SignFrame(s, frameIndex, video, None).Valid()
  {}

  // What is embedded: the signed payload, and its sealed and protected bytes.
  datatype Prepared = Prepared(payload: SignaturePayload, embedData: seq<Byte>)

  // Canonicalise, sign, encrypt, protect.
  method Prepare(data: seq<Byte>, kernel: StegoType, width: nat, height: nat, o: Options, k: Secrets)
    returns (r: Result<Prepared, EncodeError>, ghost canonical: seq<Byte>)
    requires ValidSecrets(k)
    ensures r.Ok? <==>
      ValidParity(o) && Refusal(kernel, |data|, o.bits, width, height, TransformedLen(o)).None?
    ensures o.ecc && !(1 <= o.parity <= 16) ==> r == Err(ParityOutOfRange)
    ensures ValidParity(o) && Refusal(kernel, |data|, o.bits, width, height, TransformedLen(o)).Some? ==>
      r == Err(Binding(Refusal(kernel, |data|, o.bits, width, height, TransformedLen(o)).value))
    ensures r.Ok? ==>
      && IsCanonical(Owned(kernel, |data|, o.bits, width, height, TransformedLen(o)), data, canonical)
      && r.value.payload == SignFrame(k.scheme, 0, canonical, None)
      && r.value.embedData == Transformed(o, k, r.value.payload)
      && |r.value.embedData| == TransformedLen(o)
  {
    hide IsCanonical, ToBytes, Codeword, Preimage;
    canonical := [];
    if !ValidParity(o) {
      return Err(ParityOutOfRange), canonical;
    }
    var signData := Canonicalize(data, kernel, o.bits, width, height, TransformedLen(o));
    if signData.Err? {
      return Err(Binding(signData.error)), canonical;
    }
    canonical := signData.value;
    var payload := SignFrame(k.scheme, 0, signData.value, None);
    SignedValid(k.scheme, 0, signData.value);
    TransformedLength(o, k, payload);
    var embedData := Sealed(o, k, payload);
    if o.ecc {
      var encoded := ReedSolomon.Encode(embedData, o.parity);
      if encoded.Err? {
        return Err(CorrectionFailed), canonical;
      }
      embedData := encoded.value;
    }
    if |embedData| != TransformedLen(o) {
      return Err(LengthMismatch), canonical;
    }
    r := Ok(Prepared(payload, embedData));
  }

  method Run(media: array<Byte>, c: Carrier, o: Options, k: Secrets)
    returns (r: Result<SignaturePayload, EncodeError>, ghost canonical: seq<Byte>)
    requires ValidSecrets(k) && ValidMedia(c, media.Length)
    modifies media
    ensures r.Ok? <==>
      ValidParity(o) && Refused(c, o, media.Length, TransformedLen(o)).None? && CarrierFits(c, o, media.Length)
    ensures r.Err? ==> media[..] == old(media[..])
    ensures o.ecc && !(1 <= o.parity <= 16) ==> r == Err(ParityOutOfRange)
    ensures ValidParity(o) && Refused(c, o, media.Length, TransformedLen(o)).Some? ==>
      r == Err(Binding(Refused(c, o, media.Length, TransformedLen(o)).value))
    ensures ValidParity(o) && Refused(c, o, media.Length, TransformedLen(o)).None? && r.Err? ==> r.error.Embedding?
    ensures r.Ok? ==> Signed(c, o, k, old(media[..]), canonical, r.value, media[..])
  {
    hide Prefixed, Embedded, IsCanonical, Slots, Transformed, SignFrame, PrefixEmbedded, Pow2;
    var prepared;
    prepared, canonical := Prepare(media[..], Kernel(c), Width(c), Height(c), o, k);
    if prepared.Err? {
      return Err(prepared.error), canonical;
    }
    Pow2Header();
    var embedded := Embed(media, c, prepared.value.embedData, o.bits);
    if embedded.Err? {
      return Err(Embedding(embedded.error)), canonical;
    }
    r := Ok(prepared.value.payload);
  }

  // --- verifying --------------------------------------------------------------------------

  datatype VerifyError =
    | EccTooShort
    | ErrorCorrectionFailed(codec: ReedSolomon.CodecError)
    | DecryptionFailed
    | SignatureInvalid

  datatype Verdict =
    | NoSignature
    | Unreadable(error: VerifyError)
    | Unbound(binding: BindingError)
    | Checked(payload: SignaturePayload, valid: bool)

  // What error correction makes of the extracted bytes.
  ghost function Corrected(o: Options, raw: seq<Byte>): Result<seq<Byte>, VerifyError> {
    if !o.ecc then Ok(raw)
    else if |raw| <= o.parity then Err(EccTooShort)
    else
      var decoded := ReedSolomon.Decoded(raw, |raw| - o.parity, o.parity);
      if decoded.Ok? then Ok(decoded.value) else Err(ErrorCorrectionFailed(decoded.error))
  }

  method ApplyEccTransform(raw: seq<Byte>, o: Options) returns (r: Result<seq<Byte>, VerifyError>)
    ensures r == Corrected(o, raw)
  {
    hide ReedSolomon.Decoded;
    if !o.ecc {
      return Ok(raw);
    }
    if |raw| <= o.parity {
      return Err(EccTooShort);
    }
    var decoded := ReedSolomon.Decode(raw, |raw| - o.parity, o.parity);
    r := if decoded.Ok? then Ok(decoded.value) else Err(ErrorCorrectionFailed(decoded.error));
  }

  function Parsed(plaintext: seq<Byte>): Result<SignaturePayload, VerifyError> {
    if |plaintext| != SERIALIZED_SIZE then Err(SignatureInvalid)
    else
      var p := FromBytes(plaintext);
      if p.Ok? then Ok(p.value) else Err(SignatureInvalid)
  }

  function Decrypted(o: Options, k: Secrets, corrected: seq<Byte>): Result<seq<Byte>, VerifyError> {
    if !o.encrypt then Ok(corrected)
    else
      var plaintext := k.cipher.decrypt(corrected);
      if plaintext.Some? then Ok(plaintext.value) else Err(DecryptionFailed)
  }

  // The payload that the extracted bytes carry.
  ghost function Opened(o: Options, k: Secrets, raw: seq<Byte>): Result<SignaturePayload, VerifyError> {
    var corrected := Corrected(o, raw);
    if corrected.Err? then Err(corrected.error)
    else
      var plaintext := Decrypted(o, k, corrected.value);
      if plaintext.Err? then Err(plaintext.error) else Parsed(plaintext.value)
  }

  method DecodeSignaturePayload(raw: seq<Byte>, o: Options, k: Secrets) returns (r: Result<SignaturePayload, VerifyError>)
    ensures r == Opened(o, k, raw)
  {
    hide FromBytes, Corrected;
    var corrected := ApplyEccTransform(raw, o);
    if corrected.Err? {
      return Err(corrected.error);
    }
    var plaintext := Decrypted(o, k, corrected.value);
    if plaintext.Err? {
      return Err(plaintext.error);
    }
    r := Parsed(plaintext.value);
  }

  ghost function Extraction(c: Carrier, o: Options, data: seq<Byte>): Option<seq<Byte>>
    requires 1 <= o.bits <= 4
  {
    RawLsb.RawExtraction(data, Slots(c, |data|), Units(c, |data|), o.bits)
  }

  method Extract(data: seq<Byte>, c: Carrier, o: Options) returns (r: Option<seq<Byte>>)
    requires 1 <= o.bits <= 4 && ValidMedia(c, |data|)
    ensures r == Extraction(c, o, data)
  {
    hide RawLsb.RawExtraction, LsbAudio.AudioSlots, LeBytes;
    match c {
      case Video(_, _) =>
        r := RawLsb.ExtractRaw(data, o.bits);
      case Audio(key, rounds) =>
        LeRoundTrip(data);
        r := RawLsb.ExtractRawAudio(FromLe(data), o.bits, key, 0, rounds);
    }
  }

  // The verdict on extracted bytes: they are opened and checked against the carrier's own canonical bytes.
  ghost predicate Judged(data: seq<Byte>, raw: seq<Byte>, kernel: StegoType, width: nat, height: nat, o: Options,
                         k: Secrets, v: Verdict) {
    var decoded := Opened(o, k, raw);
    var refused := Refusal(kernel, |data|, o.bits, width, height, |raw|);
    if decoded.Err? then v == Unreadable(decoded.error)
    else if refused.Some? then v == Unbound(refused.value)
    else
      && v.Checked? && v.payload == decoded.value
      && forall canonical :: IsCanonical(Owned(kernel, |data|, o.bits, width, height, |raw|), data, canonical) ==>
           v.valid == VerifyFrame(k.scheme, decoded.value, canonical, None)
  }

  // Decode, canonicalise, verify, under the public key that belongs to the scheme.
  method Judge(data: seq<Byte>, raw: seq<Byte>, kernel: StegoType, width: nat, height: nat, o: Options, k: Secrets)
    returns (v: Verdict)
    ensures Judged(data, raw, kernel, width, height, o, k, v)
  {
    hide IsCanonical, VerifyFrame, Opened;
    var decoded := DecodeSignaturePayload(raw, o, k);
    if decoded.Err? {
      return Unreadable(decoded.error);
    }
    var canonical := Canonicalize(data, kernel, o.bits, width, height, |raw|);
    if canonical.Err? {
      return Unbound(canonical.error);
    }
    ghost var owned := Owned(kernel, |data|, o.bits, width, height, |raw|);
    forall other | IsCanonical(owned, data, other)
      ensures other == canonical.value
    {
      CanonicalUnique(owned, data, other, canonical.value);
    }
    v := Checked(decoded.value, VerifyFrame(k.scheme, decoded.value, canonical.value, None));
  }

  // Valid means: the digest is the one of the carrier's canonical form, and the signature checks on it.
  lemma JudgedExactly(data: seq<Byte>, raw: seq<Byte>, kernel: StegoType, width: nat, height: nat, o: Options, k: Secrets,
                      seen: seq<Byte>, v: Verdict)
    requires Judged(data, raw, kernel, width, height, o, k, v)
    requires IsCanonical(Owned(kernel, |data|, o.bits, width, height, |raw|), data, seen)
    ensures match Opened(o, k, raw)
            case Err(e) => v == Unreadable(e)
            case Ok(p) =>
              match Refusal(kernel, |data|, o.bits, width, height, |raw|)
              case Some(refused) => v == Unbound(refused)
              case None =>
                && v.Checked? && v.payload == p
                && (v.valid <==> p.hash == k.scheme.hash(Preimage(p.frameIndex, seen, None))
                                 && k.scheme.check(p.hash, p.signature))
  {
    hide IsCanonical, Opened, Preimage;
  }

  // Bytes that open to the signed payload are judged valid exactly on the carriers that agree with the signed one
  // outside the owned bits, or whose canonical form collides with the signed one.
  lemma JudgedBinds(data: seq<Byte>, raw: seq<Byte>, kernel: StegoType, width: nat, height: nat, o: Options, k: Secrets,
                    before: seq<Byte>, canonical: seq<Byte>, v: Verdict)
    returns (seen: seq<Byte>)
    requires ValidScheme(k.scheme) && |before| == |data| < Pow256(8)
    requires Judged(data, raw, kernel, width, height, o, k, v)
    requires Opened(o, k, raw) == Ok(SignFrame(k.scheme, 0, canonical, None))
    requires Refusal(kernel, |data|, o.bits, width, height, |raw|).None?
    requires IsCanonical(Owned(kernel, |data|, o.bits, width, height, |raw|), before, canonical)
    ensures IsCanonical(Owned(kernel, |data|, o.bits, width, height, |raw|), data, seen)
    ensures v == Checked(SignFrame(k.scheme, 0, canonical, None), v.Checked? && v.valid)
    ensures v.valid <==> canonical == seen
                         || Collision(k.scheme.hash, Preimage(0, canonical, None), Preimage(0, seen, None))
    ensures canonical == seen <==> AgreeOutside(Owned(kernel, |data|, o.bits, width, height, |raw|), before, data)
  {
    hide IsCanonical, AgreeOutside, Opened, Preimage, Pow256, SignFrame;
    var owned := Owned(kernel, |data|, o.bits, width, height, |raw|);
    seen := FormExists(data, kernel, o.bits, width, height, |raw|);
    FormSize(owned, before, canonical);
    FormSize(owned, data, seen);
    CanonicalSeparates(owned, before, data, canonical, seen);
    Pow256Positive();
    SignatureBinds(k.scheme, 0, canonical, None, seen, None);
  }

  lemma FormSize(owned: Ownership, d: seq<Byte>, c: seq<Byte>)
    requires IsCanonical(owned, d, c)
    ensures |c| == |d|
  {}

  lemma Pow256Positive()
    ensures 0 < Pow256(8)
  {}

  // The verdict on a carrier.
  ghost predicate IsVerdict(c: Carrier, o: Options, k: Secrets, data: seq<Byte>, v: Verdict)
    requires 1 <= o.bits <= 4
  {
    var raw := Extraction(c, o, data);
    if raw.None? then v == NoSignature
    else Judged(data, raw.value, Kernel(c), Width(c), Height(c), o, k, v)
  }

  // Verification with exact bits.
  method Verify(data: seq<Byte>, c: Carrier, o: Options, k: Secrets) returns (v: Verdict)
    requires 1 <= o.bits <= 4 && ValidMedia(c, |data|)
    ensures IsVerdict(c, o, k, data, v)
  {
    hide Judged, Extraction;
    var raw := Extract(data, c, o);
    if raw.None? {
      return NoSignature;
    }
    v := Judge(data, raw.value, Kernel(c), Width(c), Height(c), o, k);
  }

  // --- the theorems -----------------------------------------------------------------------

  // Embedding leaves the bound bytes alone.
  lemma SigningSurvives(c: Carrier, o: Options, k: Secrets, before: seq<Byte>, canonical: seq<Byte>,
                        payload: SignaturePayload, sent: seq<Byte>)
    requires ValidMedia(c, |before|) && Signed(c, o, k, before, canonical, payload, sent)
    requires Refused(c, o, |before|, TransformedLen(o)).None?
    ensures |sent| == |before| && IsCanonical(OwnedBits(c, o, |before|, TransformedLen(o)), sent, canonical)
  {
    hide IsCanonical, PrefixEmbedded, LsbAudio.AudioSlots, AgreeOutside, ToBytes;
    CarrierSlots(c, |before|);
    var raw := Transformed(o, k, payload);
    match c {
      case Video(width, height) =>
        var owned := OwnedBits(c, o, |before|, TransformedLen(o));
        assert VideoBytesPerPixel(|before|, width, height) == 3;
        assert forall u: nat, s: nat :: u < |before| && s < o.bits ==> owned(InOrder()(u), s);
        PrefixWritesOwnedOnly(owned, before, InOrder(), |before|, raw, o.bits);
        CanonicalSurvives(owned, before, sent, canonical);
      case Audio(_, _) =>
        AudioEmbedSurvives(Slots(c, |before|), before, raw, o.bits, 0, 0, TransformedLen(o), canonical);
    }
  }

  // The damage that the options are meant to absorb.
  function Tolerated(o: Options): nat {
    if o.ecc then o.parity / 2 else 0
  }

  // Bytes with at most the tolerated damage open to the payload that was sealed.
  lemma OpensDespiteDamage(o: Options, k: Secrets, payload: SignaturePayload, raw: seq<Byte>)
    requires ValidParity(o) && ValidSecrets(k) && payload.Valid()
    requires |raw| == TransformedLen(o) && Hamming(Transformed(o, k, payload), raw) <= Tolerated(o)
    ensures Opened(o, k, raw) == Ok(payload)
  {
    hide ToBytes, FromBytes, Codeword, Hamming, ReedSolomon.Decoded;
    TransformedLength(o, k, payload);
    PayloadRoundTrip(payload);
    var sealed := Sealed(o, k, payload);
    if o.ecc {
      ReedSolomon.Corrects(sealed, o.parity, raw);
    } else {
      NoDifference(sealed, raw);
    }
    assert Corrected(o, raw) == Ok(sealed);
  }

  // Bytes that open to the signed payload are accepted on every carrier that has the signed canonical form.
  lemma AcceptedAsSigned(data: seq<Byte>, raw: seq<Byte>, kernel: StegoType, width: nat, height: nat, o: Options,
                         k: Secrets, canonical: seq<Byte>, v: Verdict)
    requires ValidSecrets(k) && Judged(data, raw, kernel, width, height, o, k, v)
    requires Opened(o, k, raw) == Ok(SignFrame(k.scheme, 0, canonical, None))
    requires Refusal(kernel, |data|, o.bits, width, height, |raw|).None?
    requires IsCanonical(Owned(kernel, |data|, o.bits, width, height, |raw|), data, canonical)
    ensures v == Checked(SignFrame(k.scheme, 0, canonical, None), true)
  {
    hide IsCanonical, Opened, Preimage;
  }

  // End-to-end resilience: whatever happens to the owned bits behind the length prefix, as long as it
  // damages no more embedded bytes than error correction absorbs, the carrier verifies as it was signed.
  lemma Resilience(c: Carrier, o: Options, k: Secrets, before: seq<Byte>, canonical: seq<Byte>, payload: SignaturePayload,
                   sent: seq<Byte>, received: seq<Byte>, v: Verdict)
    requires ValidParity(o) && ValidSecrets(k) && ValidMedia(c, |before|) && Signed(c, o, k, before, canonical, payload, sent)
    requires Refused(c, o, |before|, TransformedLen(o)).None?
    requires AgreeOutside(OwnedBits(c, o, |before|, TransformedLen(o)), sent, received)
    requires SameHeader(sent, received, Slots(c, |before|), o.bits)
    requires Hamming(Region(sent, Slots(c, |before|), o.bits, TransformedLen(o)),
                     Region(received, Slots(c, |before|), o.bits, TransformedLen(o))) <= Tolerated(o)
    requires IsVerdict(c, o, k, received, v)
    ensures IsCanonical(OwnedBits(c, o, |before|, TransformedLen(o)), received, canonical)
    ensures v == Checked(payload, true)
  {
    hide IsCanonical, PrefixEmbedded, Slots, Region, Prefixed, Transformed, Hamming, Opened, SameHeader, Preimage,
         Pow2, RawLsb.RawExtraction, Judged;
    SignedValid(k.scheme, 0, canonical);
    TransformedLength(o, k, payload);
    SigningSurvives(c, o, k, before, canonical, payload, sent);
    CanonicalSurvives(OwnedBits(c, o, |before|, TransformedLen(o)), sent, received, canonical);
    CarrierSlots(c, |before|);
    var raw := Transformed(o, k, payload);
    Pow2Header();
    EmbeddedRead(before, Slots(c, |before|), Units(c, |before|), raw, o.bits);
    RawLsb.DamagedExtraction(before, received, Slots(c, |before|), Units(c, |before|), raw, o.bits);
    var found := Region(received, Slots(c, |before|), o.bits, TransformedLen(o));
    OpensDespiteDamage(o, k, payload, found);
    AcceptedAsSigned(received, found, Kernel(c), Width(c), Height(c), o, k, canonical, v);
  }

  // Acceptance of the signed payload means that nothing outside the owned bits changed, or that the
  // two canonical forms collide under the hash.
  lemma AcceptanceBinds(c: Carrier, o: Options, k: Secrets, before: seq<Byte>, canonical: seq<Byte>,
                        payload: SignaturePayload,
                        received: seq<Byte>, seen: seq<Byte>)
    requires ValidScheme(k.scheme) && |received| == |before| < Pow256(8) && payload == SignFrame(k.scheme, 0, canonical, None)
    requires IsCanonical(OwnedBits(c, o, |before|, TransformedLen(o)), before, canonical)
    requires IsCanonical(OwnedBits(c, o, |before|, TransformedLen(o)), received, seen)
    ensures VerifyFrame(k.scheme, payload, seen, None)
            <==> AgreeOutside(OwnedBits(c, o, |before|, TransformedLen(o)), before, received)
                 || Collision(k.scheme.hash, Preimage(0, canonical, None), Preimage(0, seen, None))
  {
    hide Preimage, AgreeOutside, Pow256;
    assert |canonical| == |seen| == |before|;
    CanonicalSeparates(OwnedBits(c, o, |before|, TransformedLen(o)), before, received, canonical, seen);
    Pow256Positive();
    SignatureBinds(k.scheme, 0, canonical, None, seen, None);
  }

  // The verdict on a received carrier: once its bytes open to the signed payload, it is valid exactly when nothing but
  // owned bits changed, or the two canonical forms collide.
  lemma VerdictBinds(c: Carrier, o: Options, k: Secrets, before: seq<Byte>, canonical: seq<Byte>, payload: SignaturePayload,
                     received: seq<Byte>, v: Verdict)
    returns (seen: seq<Byte>)
    requires ValidScheme(k.scheme) && |received| == |before| < Pow256(8) && 1 <= o.bits <= 4
    requires payload == SignFrame(k.scheme, 0, canonical, None)
    requires IsCanonical(OwnedBits(c, o, |before|, TransformedLen(o)), before, canonical)
    requires Refused(c, o, |before|, TransformedLen(o)).None?
    requires OpensTo(c, o, k, received, payload) && IsVerdict(c, o, k, received, v)
    ensures IsCanonical(OwnedBits(c, o, |before|, TransformedLen(o)), received, seen)
    ensures v.Checked? && v.payload == payload
    ensures v.valid <==> AgreeOutside(OwnedBits(c, o, |before|, TransformedLen(o)), before, received)
                         || Collision(k.scheme.hash, Preimage(0, canonical, None), Preimage(0, seen, None))
    ensures canonical == seen <==> AgreeOutside(OwnedBits(c, o, |before|, TransformedLen(o)), before, received)
  {
    hide IsCanonical, AgreeOutside, Opened, Preimage, Pow256, SignFrame, Judged, Extraction;
    var raw := Extraction(c, o, received).value;
    seen := JudgedBinds(received, raw, Kernel(c), Width(c), Height(c), o, k, before, canonical, v);
  }

  // The carrier yields bytes of the announced length that open to the payload.
  ghost predicate OpensTo(c: Carrier, o: Options, k: Secrets, received: seq<Byte>, payload: SignaturePayload)
    requires 1 <= o.bits <= 4
  {
    var raw := Extraction(c, o, received);
    raw.Some? && |raw.value| == TransformedLen(o) && Opened(o, k, raw.value) == Ok(payload)
  }

  // One flipped bit that no embed at this strength may touch, any bit of a colour byte or of a sample's low byte from
  // the strength on or any bit of a sample's high byte, makes the verdict invalid unless the hash collides.
  lemma FlippedBitInvalid(c: Carrier, o: Options, k: Secrets, before: seq<Byte>, canonical: seq<Byte>,
                          payload: SignaturePayload, sent: seq<Byte>, received: seq<Byte>, p: nat, s: nat, v: Verdict)
    returns (seen: seq<Byte>)
    requires ValidMedia(c, |before|) && ValidScheme(k.scheme) && |before| < Pow256(8)
    requires Signed(c, o, k, before, canonical, payload, sent)
    requires Refused(c, o, |before|, TransformedLen(o)).None?
    requires |received| == |sent| && p < |sent| && s < 8 && (s >= o.bits || (c.Audio? && p % 2 == 1))
    requires BitAt(received[p], s) != BitAt(sent[p], s)
    requires OpensTo(c, o, k, received, payload) && IsVerdict(c, o, k, received, v)
    ensures v == Checked(payload, false)
            || (v == Checked(payload, true)
                && Collision(k.scheme.hash, Preimage(0, canonical, None), Preimage(0, seen, None)))
  {
    hide AgreeOutside, Opened, Preimage, Pow256, SignFrame, Extraction, BitAt, PrefixEmbedded, IsCanonical, IsVerdict,
         Transformed, Slots, OpensTo;
    SigningSurvives(c, o, k, before, canonical, payload, sent);
    seen := VerdictBinds(c, o, k, before, canonical, payload, received, v);
    KeptBit(c, o, TransformedLen(o), sent, canonical, p, s);
    KeptBit(c, o, TransformedLen(o), received, seen, p, s);
  }

  lemma KeptBit(c: Carrier, o: Options, embeddedLen: nat, data: seq<Byte>, form: seq<Byte>, p: nat, s: nat)
    requires Refused(c, o, |data|, embeddedLen).None? && IsCanonical(OwnedBits(c, o, |data|, embeddedLen), data, form)
    requires p < |data| && s < 8 && (s >= o.bits || (c.Audio? && p % 2 == 1))
    ensures |form| == |data| && BitAt(form[p], s) == BitAt(data[p], s)
  {
    hide BitAt, IsCanonical;
    if c.Video? {
      VideoFormExactly(data, o.bits, Width(c), Height(c), embeddedLen, form);
    } else {
      AudioFormExactly(data, o.bits, Width(c), Height(c), embeddedLen, form);
    }
  }

  // A carrier has no signature exactly when its units hold no payload of 1 to 100,000 bytes behind its bit count.
  lemma NoSignatureExactly(c: Carrier, o: Options, k: Secrets, data: seq<Byte>, v: Verdict)
    requires 1 <= o.bits <= 4 && IsVerdict(c, o, k, data, v)
    ensures v == NoSignature <==> forall payload: seq<Byte> ::
      !(1 <= |payload| <= 100_000 && PrefixHeld(data, Slots(c, |data|), Units(c, |data|), payload, o.bits))
  {
    hide PrefixHeld, RawLsb.RawExtraction, Slots, Opened, VerifyFrame, IsCanonical;
    var slots, units := Slots(c, |data|), Units(c, |data|);
    forall payload: seq<Byte>
      ensures RawLsb.RawExtraction(data, slots, units, o.bits) == Some(payload)
        <==> 1 <= |payload| <= 100_000 && PrefixHeld(data, slots, units, payload, o.bits)
    {
      RawLsb.RawExtractsExactly(data, slots, units, o.bits, payload);
    }
    if v != NoSignature {
      assert Extraction(c, o, data) == Some(Extraction(c, o, data).value);
    }
  }

  // --- what opens ---------------------------------------------------------------------------

  // What error correction finds: a message within half the parity of the bytes, or without it the bytes themselves.
  ghost predicate CorrectsTo(o: Options, raw: seq<Byte>, sealed: seq<Byte>) {
    if !o.ecc then sealed == raw
    else |sealed| > 0 && |sealed| + o.parity == |raw| <= 255 && Hamming(Codeword(sealed, |raw|), raw) <= o.parity / 2
  }

  lemma CorrectedExactly(o: Options, raw: seq<Byte>, sealed: seq<Byte>)
    requires ValidParity(o)
    ensures Corrected(o, raw) == Ok(sealed) <==> CorrectsTo(o, raw, sealed)
  {
    hide Codeword, Hamming;
    if o.ecc && |raw| > o.parity {
      var n := |raw| - o.parity;
      assert raw[..n + o.parity] == raw;
      if |raw| <= 255 {
        forall m: seq<Byte>, m': seq<Byte> | ReedSolomon.Nearest(m, raw, n, o.parity) && ReedSolomon.Nearest(m', raw, n, o.parity)
          ensures m == m'
        {
          RadiusUnique(m, m', raw, n, o.parity / 2);
        }
        assert ReedSolomon.Nearest(sealed, raw, n, o.parity) <==> |sealed| == n && Hamming(Codeword(sealed, |raw|), raw) <= o.parity / 2;
      }
    }
  }

  // Bytes open to a payload exactly when they are corrected to, and decrypted to, its 109 bytes.
  lemma OpenedExactly(o: Options, k: Secrets, raw: seq<Byte>, p: SignaturePayload)
    requires ValidParity(o)
    ensures Opened(o, k, raw) == Ok(p) <==>
      && p.Valid()
      && exists sealed: seq<Byte> ::
           && CorrectsTo(o, raw, sealed)
           && if o.encrypt then k.cipher.decrypt(sealed) == Some(ToBytes(p)) else sealed == ToBytes(p)
  {
    hide ToBytes, FromBytes, Corrected, CorrectsTo;
    var corrected := Corrected(o, raw);
    forall sealed: seq<Byte>
      ensures corrected == Ok(sealed) <==> CorrectsTo(o, raw, sealed)
    {
      CorrectedExactly(o, raw, sealed);
    }
    if corrected.Ok? {
      assert CorrectsTo(o, raw, corrected.value);
      var plaintext := Decrypted(o, k, corrected.value);
      if plaintext.Ok? && |plaintext.value| == SERIALIZED_SIZE {
        ParsedPayload(plaintext.value);
      }
    }
    if p.Valid() {
      PayloadRoundTrip(p);
    }
  }

  // And why they do not open, in the order of the steps.
  lemma OpenErrors(o: Options, k: Secrets, raw: seq<Byte>)
    requires ValidParity(o)
    ensures Opened(o, k, raw) == Err(EccTooShort) <==> o.ecc && |raw| <= o.parity
    ensures Opened(o, k, raw) == Err(DecryptionFailed) <==>
      o.encrypt && exists sealed: seq<Byte> :: CorrectsTo(o, raw, sealed) && k.cipher.decrypt(sealed) == None
    ensures (exists e :: Opened(o, k, raw) == Err(ErrorCorrectionFailed(e))) <==>
      o.ecc && |raw| > o.parity && forall sealed: seq<Byte> :: !CorrectsTo(o, raw, sealed)
  {
    hide FromBytes, CorrectsTo, ReedSolomon.Decoded;
    var corrected := Corrected(o, raw);
    forall sealed: seq<Byte>
      ensures corrected == Ok(sealed) <==> CorrectsTo(o, raw, sealed)
    {
      CorrectedExactly(o, raw, sealed);
    }
    if corrected.Ok? {
      assert CorrectsTo(o, raw, corrected.value);
    } else {
      assert Opened(o, k, raw) == Err(corrected.error);
    }
  }

  // A run succeeds exactly for 1 to 16 parity symbols, 1 to 4 bits, a video with both dimensions or neither, and room for
  // 32 bits of length, 109 bytes of payload, 41 of encryption and the parity.
  lemma AcceptedRuns(c: Carrier, o: Options, size: nat)
    requires ValidMedia(c, size)
    ensures ValidParity(o) && Refused(c, o, size, TransformedLen(o)).None? && CarrierFits(c, o, size) <==>
      && (o.ecc ==> 1 <= o.parity <= 16)
      && 1 <= o.bits <= 4
      && (c.Video? ==> (c.width == 0 <==> c.height == 0))
      && 32 + 8 * (109 + (if o.encrypt then 41 else 0) + (if o.ecc then o.parity else 0))
         <= (if c.Video? then size else size / 2) * o.bits
  {
    AcceptedExactly(size, o.bits, Width(c), Height(c), TransformedLen(o));
  }

  // --- the check of the written output ------------------------------------------------------

  // An undamaged carrier verifies.
  lemma SentVerifies(c: Carrier, o: Options, k: Secrets, before: seq<Byte>, canonical: seq<Byte>,
                     payload: SignaturePayload, sent: seq<Byte>, v: Verdict)
    requires ValidParity(o) && ValidSecrets(k) && ValidMedia(c, |before|)
    requires Signed(c, o, k, before, canonical, payload, sent)
    requires Refused(c, o, |before|, TransformedLen(o)).None?
    requires IsVerdict(c, o, k, sent, v)
    ensures v == Checked(payload, true)
  {
    hide IsCanonical, PrefixEmbedded, Slots, Region, Prefixed, Transformed, Hamming, Opened, Preimage, Extraction,
         IsVerdict;
    NoDamage(Region(sent, Slots(c, |before|), o.bits, TransformedLen(o)));
    Resilience(c, o, k, before, canonical, payload, sent, sent, v);
  }

  // The run reads its output back and checks it before it reports success; the check never fails.
  method RunAuthenticated(media: array<Byte>, c: Carrier, o: Options, k: Secrets)
    returns (r: Result<SignaturePayload, EncodeError>, ghost canonical: seq<Byte>)
    requires ValidSecrets(k) && ValidMedia(c, media.Length)
    modifies media
    ensures r.Ok? <==>
      ValidParity(o) && Refused(c, o, media.Length, TransformedLen(o)).None? && CarrierFits(c, o, media.Length)
    ensures r.Err? ==> media[..] == old(media[..])
    ensures r.Ok? ==> Signed(c, o, k, old(media[..]), canonical, r.value, media[..])
  {
    hide IsCanonical, Slots, PrefixEmbedded, Preimage, Transformed, IsVerdict, Prefixed;
    r, canonical := Run(media, c, o, k);
    if r.Err? {
      return;
    }
    var verdict := Verify(media[..], c, o, k);
    SentVerifies(c, o, k, old(media[..]), canonical, r.value, media[..], verdict);
    if verdict != Checked(r.value, true) {
      r := Err(OutputNotAuthentic);
    }
  }
}
