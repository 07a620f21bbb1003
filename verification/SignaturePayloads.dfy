/** The signed payload of crypto.rs, its byte layout and the hashed preimage. */
module SignaturePayloads {
  import opened Results
  import opened Arithmetic
  import opened GaloisField

  const MAGIC: seq<Byte> := [0x53, 0x54, 0x45, 0x47]
  const FORMAT_VERSION: Byte := 4
  const SERIALIZED_SIZE := 109

  datatype SignaturePayload = SignaturePayload(frameIndex: nat, hash: seq<Byte>, signature: seq<Byte>) {
    // What the Rust field types guarantee.
    ghost predicate Valid() {
      frameIndex < Pow256(8) && |hash| == 32 && |signature| == 64
    }
  }

  datatype PayloadError = InvalidMagic | UnsupportedVersion

  // --- little-endian integers ---------------------------------------------------------

  function Pow256(k: nat): (p: nat)
    ensures p > 0
  {
    if k == 0 then 1 else 256 * Pow256(k - 1)
  }

  function LittleEndian(n: nat, size: nat): (bytes: seq<Byte>)
    ensures |bytes| == size
  {
    if size == 0 then [] else [(n % 256) as Byte] + LittleEndian(n / 256, size - 1)
  }

  function FromLittleEndian(bytes: seq<Byte>): nat {
    if |bytes| == 0 then 0 else bytes[0] as nat + 256 * FromLittleEndian(bytes[1..])
  }

  lemma ByteOfInt(n: nat)
    requires n < 256
    ensures (n as Byte) as nat == n
  {
    assert n % 256 == n;
  }

  lemma IntOfByte(b: Byte)
    ensures (b as nat) as Byte == b && b as nat < 256
  {}

  lemma {:induction false} LittleEndianRoundTrip(n: nat, size: nat)
    requires n < Pow256(size)
    ensures FromLittleEndian(LittleEndian(n, size)) == n
    decreases size
  {
    if size > 0 {
      LittleEndianRoundTrip(n / 256, size - 1);
      ByteOfInt(n % 256);
      var bytes := LittleEndian(n, size);
      assert bytes[1..] == LittleEndian(n / 256, size - 1);
    }
  }

  lemma {:induction false} LittleEndianOf(bytes: seq<Byte>)
    ensures FromLittleEndian(bytes) < Pow256(|bytes|)
    ensures LittleEndian(FromLittleEndian(bytes), |bytes|) == bytes
  {
    if |bytes| > 0 {
      LittleEndianOf(bytes[1..]);
      IntOfByte(bytes[0]);
      var rest := FromLittleEndian(bytes[1..]);
      DigitStep(bytes[0] as nat, rest);
      assert bytes == [bytes[0]] + bytes[1..];
    }
  }

  lemma DigitStep(low: nat, rest: nat)
    requires low < 256
    ensures (low + 256 * rest) % 256 == low && (low + 256 * rest) / 256 == rest
  {}

  // Byte i is the i-th digit base 256, lowest first.
  lemma {:induction false} LittleEndianDigit(n: nat, size: nat, i: nat)
    requires i < size
    ensures LittleEndian(n, size)[i] as nat == n / Pow256(i) % 256
    decreases size
  {
    ByteOfInt(n % 256);
    if i > 0 {
      LittleEndianDigit(n / 256, size - 1, i - 1);
      DivideTwice(n, 256, Pow256(i - 1));
    }
  }

  lemma DigitsOfIndex(b: seq<Byte>, at: nat, n: nat)
    requires at + 8 <= |b| && b[at..][..8] == LittleEndian(n, 8)
    ensures forall i: nat :: i < 8 ==> b[at + i] as nat == n / Pow256(i) % 256
  {
    hide LittleEndian, Pow256;
    forall i: nat | i < 8
      ensures b[at + i] as nat == n / Pow256(i) % 256
    {
      LittleEndianDigit(n, 8, i);
      assert b[at..][..8][i] == b[at + i];
    }
  }

  // --- the payload layout -------------------------------------------------------------

  function ToBytes(p: SignaturePayload): seq<Byte> {
    MAGIC + [FORMAT_VERSION] + LittleEndian(p.frameIndex, 8) + p.hash + p.signature
  }

  function FromBytes(buf: seq<Byte>): Result<SignaturePayload, PayloadError>
    requires |buf| == SERIALIZED_SIZE
  {
    if buf[0..4] != MAGIC then Err(InvalidMagic)
    else if buf[4] != FORMAT_VERSION then Err(UnsupportedVersion)
    else Ok(SignaturePayload(FromLittleEndian(buf[5..13]), buf[13..45], buf[45..109]))
  }

  // Serialising and parsing are inverse to each other.
  lemma PayloadRoundTrip(p: SignaturePayload)
    requires p.Valid()
    ensures |ToBytes(p)| == SERIALIZED_SIZE && FromBytes(ToBytes(p)) == Ok(p)
  {
    hide LittleEndian, FromLittleEndian, Pow256;
    var buf := ToBytes(p);
    LittleEndianRoundTrip(p.frameIndex, 8);
    assert buf[0..4] == MAGIC;
    assert buf[5..13] == LittleEndian(p.frameIndex, 8);
    assert buf[13..45] == p.hash;
    assert buf[45..109] == p.signature;
  }

  lemma ParsedPayload(buf: seq<Byte>)
    requires |buf| == SERIALIZED_SIZE
    ensures FromBytes(buf).Ok? ==> FromBytes(buf).value.Valid() && ToBytes(FromBytes(buf).value) == buf
    ensures FromBytes(buf).Ok? <==> exists p: SignaturePayload :: p.Valid() && ToBytes(p) == buf
  {
    hide LittleEndian, FromLittleEndian, Pow256;
    if FromBytes(buf).Ok? {
      LittleEndianOf(buf[5..13]);
      assert buf == buf[0..4] + [buf[4]] + buf[5..13] + buf[13..45] + buf[45..109];
    }
    forall p: SignaturePayload | p.Valid() && ToBytes(p) == buf
      ensures FromBytes(buf).Ok?
    {
      PayloadRoundTrip(p);
    }
  }

  // Where everything lies: "STEG", the version 4, the frame index lowest byte first, the digest, the signature.
  lemma PayloadLayout(p: SignaturePayload)
    requires p.Valid()
    ensures |ToBytes(p)| == 109 && ToBytes(p)[..5] == [0x53, 0x54, 0x45, 0x47, 4]
    ensures forall i: nat :: i < 8 ==> ToBytes(p)[5 + i] as nat == p.frameIndex / Pow256(i) % 256
    ensures forall i: nat :: i < 32 ==> ToBytes(p)[13 + i] == p.hash[i]
    ensures forall i: nat :: i < 64 ==> ToBytes(p)[45 + i] == p.signature[i]
  {
    hide LittleEndian, Pow256;
    assert ToBytes(p)[5..][..8] == LittleEndian(p.frameIndex, 8);
    DigitsOfIndex(ToBytes(p), 5, p.frameIndex);
  }

  // Bytes are refused for another magic first, for another version next, and for nothing else.
  lemma ParseErrorsExactly(buf: seq<Byte>)
    requires |buf| == SERIALIZED_SIZE
    ensures FromBytes(buf) == Err(InvalidMagic) <==> buf[..4] != [0x53, 0x54, 0x45, 0x47]
    ensures FromBytes(buf) == Err(UnsupportedVersion) <==> buf[..4] == [0x53, 0x54, 0x45, 0x47] && buf[4] != 4
  {
    hide FromLittleEndian;
    assert buf[0..4] == buf[..4];
  }

  // --- the hashed preimage --------------------------------------------------------------

  // "steganographer-frame-v4" with a zero byte behind it, and "end" with one before it.
  const DOMAIN: seq<Byte> := [
    0x73, 0x74, 0x65, 0x67, 0x61, 0x6E, 0x6F, 0x67, 0x72, 0x61, 0x70, 0x68, 0x65, 0x72, 0x2D,
    0x66, 0x72, 0x61, 0x6D, 0x65, 0x2D, 0x76, 0x34, 0x00]
  const TRAILER: seq<Byte> := [0x00, 0x65, 0x6E, 0x64]

  function AudioBytes(audio: Option<seq<Byte>>): seq<Byte> {
    if audio.Some? then audio.value else []
  }

  function Preimage(frameIndex: nat, video: seq<Byte>, audio: Option<seq<Byte>>): seq<Byte> {
    DOMAIN + (LittleEndian(frameIndex, 8) + (LittleEndian(|video|, 8) + (video +
      ([if audio.Some? then 1 else 0] + (LittleEndian(|AudioBytes(audio)|, 8) + (AudioBytes(audio) + TRAILER))))))
  }

  lemma AppendCancels<T>(a: seq<T>, b: seq<T>, c: seq<T>, d: seq<T>)
    requires |a| == |c| && a + b == c + d
    ensures a == c && b == d
  {
    assert a == (a + b)[..|a|] && c == (c + d)[..|c|];
    assert b == (a + b)[|a|..] && d == (c + d)[|c|..];
  }

  lemma LittleEndianInjective(m: nat, n: nat)
    requires m < Pow256(8) && n < Pow256(8) && LittleEndian(m, 8) == LittleEndian(n, 8)
    ensures m == n
  {
    LittleEndianRoundTrip(m, 8);
    LittleEndianRoundTrip(n, 8);
  }

  // Two different (index, video, audio) triples are never hashed over the same bytes.
  lemma PreimageInjective(i: nat, v: seq<Byte>, a: Option<seq<Byte>>, j: nat, w: seq<Byte>, b: Option<seq<Byte>>)
    requires i < Pow256(8) && j < Pow256(8) && |v| < Pow256(8) && |w| < Pow256(8)
    requires |AudioBytes(a)| < Pow256(8) && |AudioBytes(b)| < Pow256(8)
    requires Preimage(i, v, a) == Preimage(j, w, b)
    ensures i == j && v == w && a == b
  {
    hide LittleEndian, Pow256;
    var a6, b6 := AudioBytes(a) + TRAILER, AudioBytes(b) + TRAILER;
    var a5, b5 := LittleEndian(|AudioBytes(a)|, 8) + a6, LittleEndian(|AudioBytes(b)|, 8) + b6;
    var a4, b4 := [if a.Some? then 1 else 0 as Byte] + a5, [if b.Some? then 1 else 0 as Byte] + b5;
    var a3, b3 := v + a4, w + b4;
    var a2, b2 := LittleEndian(|v|, 8) + a3, LittleEndian(|w|, 8) + b3;
    AppendCancels(DOMAIN, LittleEndian(i, 8) + a2, DOMAIN, LittleEndian(j, 8) + b2);
    AppendCancels(LittleEndian(i, 8), a2, LittleEndian(j, 8), b2);
    AppendCancels(LittleEndian(|v|, 8), a3, LittleEndian(|w|, 8), b3);
    LittleEndianInjective(i, j);
    LittleEndianInjective(|v|, |w|);
    AppendCancels(v, a4, w, b4);
    AppendCancels([if a.Some? then 1 else 0 as Byte], a5, [if b.Some? then 1 else 0 as Byte], b5);
    AppendCancels(LittleEndian(|AudioBytes(a)|, 8), a6, LittleEndian(|AudioBytes(b)|, 8), b6);
    LittleEndianInjective(|AudioBytes(a)|, |AudioBytes(b)|);
    AppendCancels(AudioBytes(a), TRAILER, AudioBytes(b), TRAILER);
    assert [if a.Some? then 1 else 0 as Byte][0] == [if b.Some? then 1 else 0 as Byte][0];
  }

  lemma Apart<T>(a: seq<T>, b: seq<T>)
    ensures (a + b)[..|a|] == a && (a + b)[|a|..] == b
  {}

  // The parts of the preimage, in slices.
  lemma PreimageParts(frameIndex: nat, video: seq<Byte>, audio: Option<seq<Byte>>)
    ensures var b, n, m := Preimage(frameIndex, video, audio), |video|, |AudioBytes(audio)|;
            && |b| == 53 + n + m
            && b[..24] == DOMAIN && b[24..][..8] == LittleEndian(frameIndex, 8) && b[32..][..8] == LittleEndian(n, 8)
            && b[40..][..n] == video && b[40 + n] == (if audio.Some? then 1 else 0)
            && b[41 + n..][..8] == LittleEndian(m, 8) && b[49 + n..][..m] == AudioBytes(audio) && b[49 + n + m..] == TRAILER
  {
    hide LittleEndian;
    var b, n, sound := Preimage(frameIndex, video, audio), |video|, AudioBytes(audio);
    var t6 := sound + TRAILER;
    var t5 := LittleEndian(|sound|, 8) + t6;
    var t4 := [if audio.Some? then 1 else 0 as Byte] + t5;
    var t3 := video + t4;
    var t2 := LittleEndian(n, 8) + t3;
    var t1 := LittleEndian(frameIndex, 8) + t2;
    Apart(DOMAIN, t1);
    Apart(LittleEndian(frameIndex, 8), t2);
    Apart(LittleEndian(n, 8), t3);
    Apart(video, t4);
    Apart([if audio.Some? then 1 else 0 as Byte], t5);
    Apart(LittleEndian(|sound|, 8), t6);
    Apart(sound, TRAILER);
    assert b[24..] == t1 && b[32..] == t1[8..] && b[40..] == t2[8..];
    assert b[40 + n..] == t3[n..] && b[41 + n..] == t4[1..] && b[49 + n..] == t5[8..];
    assert b[49 + n + |sound|..] == t6[|sound|..];
    assert b[40 + n] == t4[0];
  }

  // "steganographer-frame-v4", a zero byte, the index, the length of the video, the video, a flag for the audio, the
  // length of the audio, the audio, a zero byte, "end"; numbers take 8 bytes, lowest first.
  lemma PreimageLayout(frameIndex: nat, video: seq<Byte>, audio: Option<seq<Byte>>)
    ensures var b, n, sound := Preimage(frameIndex, video, audio), |video|, if audio.Some? then audio.value else [];
            && |b| == 53 + n + |sound|
            && b[..24] == [0x73, 0x74, 0x65, 0x67, 0x61, 0x6E, 0x6F, 0x67, 0x72, 0x61, 0x70, 0x68, 0x65, 0x72, 0x2D,
                           0x66, 0x72, 0x61, 0x6D, 0x65, 0x2D, 0x76, 0x34, 0]
            && (forall i: nat :: i < 8 ==> b[24 + i] as nat == frameIndex / Pow256(i) % 256)
            && (forall i: nat :: i < 8 ==> b[32 + i] as nat == n / Pow256(i) % 256)
            && b[40..][..n] == video
            && b[40 + n] == (if audio.Some? then 1 else 0)
            && (forall i: nat :: i < 8 ==> b[41 + n + i] as nat == |sound| / Pow256(i) % 256)
            && b[49 + n..][..|sound|] == sound
            && b[49 + n + |sound|..] == [0, 0x65, 0x6E, 0x64]
  {
    hide LittleEndian, Pow256, Preimage;
    PreimageParts(frameIndex, video, audio);
    var b, n, sound := Preimage(frameIndex, video, audio), |video|, AudioBytes(audio);
    DigitsOfIndex(b, 24, frameIndex);
    DigitsOfIndex(b, 32, n);
    DigitsOfIndex(b, 41 + n, |sound|);
  }

  // --- signing and verifying ------------------------------------------------------------------

  // The hash algorithm and the Ed25519 key pair, as functions.
  datatype Scheme = Scheme(
    hash: seq<Byte> -> seq<Byte>,
    sign: seq<Byte> -> seq<Byte>,
    check: (seq<Byte>, seq<Byte>) -> bool)

  // Digests and signatures have their sizes, and every signature checks.
  ghost predicate ValidScheme(s: Scheme) {
    && (forall b {:trigger s.hash(b)} :: |s.hash(b)| == 32)
    && (forall d {:trigger s.sign(d)} :: |s.sign(d)| == 64 && s.check(d, s.sign(d)))
  }

  function SignFrame(s: Scheme, frameIndex: nat, video: seq<Byte>, audio: Option<seq<Byte>>): SignaturePayload {
    var digest := s.hash(Preimage(frameIndex, video, audio));
    SignaturePayload(frameIndex, digest, s.sign(digest))
  }

  predicate VerifyFrame(s: Scheme, p: SignaturePayload, video: seq<Byte>, audio: Option<seq<Byte>>) {
    var digest := s.hash(Preimage(p.frameIndex, video, audio));
    digest == p.hash && s.check(digest, p.signature)
  }

  ghost predicate Collision<D>(hash: seq<Byte> -> D, a: seq<Byte>, b: seq<Byte>) {
    a != b && hash(a) == hash(b)
  }

  // A signature is accepted on the signed media; on any other media it exhibits a hash collision.
  lemma SignatureBinds(s: Scheme, i: nat, v: seq<Byte>, a: Option<seq<Byte>>, w: seq<Byte>, b: Option<seq<Byte>>)
    requires ValidScheme(s) && i < Pow256(8) && |v| < Pow256(8) && |w| < Pow256(8)
    requires |AudioBytes(a)| < Pow256(8) && |AudioBytes(b)| < Pow256(8)
    ensures SignFrame(s, i, v, a).Valid() && VerifyFrame(s, SignFrame(s, i, v, a), v, a)
    ensures VerifyFrame(s, SignFrame(s, i, v, a), w, b)
            <==> (v == w && a == b) || Collision(s.hash, Preimage(i, v, a), Preimage(i, w, b))
  {
    hide Preimage, Pow256;
    if Preimage(i, v, a) == Preimage(i, w, b) {
      PreimageInjective(i, v, a, i, w, b);
    }
  }

  // Any payload at all, forged or not, is accepted only if its digest is that of the media and its signature checks on
  // that digest, and never on two different media without a collision.
  lemma AcceptedMedia(s: Scheme, p: SignaturePayload, v: seq<Byte>, a: Option<seq<Byte>>, w: seq<Byte>,
                      b: Option<seq<Byte>>)
    requires p.Valid() && |v| < Pow256(8) && |w| < Pow256(8)
    requires |AudioBytes(a)| < Pow256(8) && |AudioBytes(b)| < Pow256(8)
    ensures VerifyFrame(s, p, v, a) <==> p.hash == s.hash(Preimage(p.frameIndex, v, a)) && s.check(p.hash, p.signature)
    ensures VerifyFrame(s, p, v, a) && VerifyFrame(s, p, w, b) ==>
      (v == w && a == b) || Collision(s.hash, Preimage(p.frameIndex, v, a), Preimage(p.frameIndex, w, b))
  {
    hide Preimage, Pow256;
    if Preimage(p.frameIndex, v, a) == Preimage(p.frameIndex, w, b) {
      PreimageInjective(p.frameIndex, v, a, p.frameIndex, w, b);
    }
  }
}
