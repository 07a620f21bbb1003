/** A payload spread over several copies of one carrier: encode_multi_frame and verify_multi_frame. */
module SpreadFrames {
  import opened Results
  import opened Arithmetic
  import opened GaloisField
  import opened BitStreams
  import opened LengthPrefix
  import opened SignaturePayloads
  import opened KeyEquations
  import opened CarrierBinding
  import opened BindingSurvives
  import opened RawLsb
  import opened XorSharing
  import opened EndToEnd

  // The i-th copy of the carrier, with the i-th shard in it.
  ghost function Copy(before: seq<Byte>, raw: seq<Byte>, masks: seq<seq<Byte>>, bits: nat, i: nat): (copy: seq<Byte>)
    requires 1 <= bits <= 4 && AllOfLength(masks, |raw|) && i <= |masks| && PrefixFits(|before|, raw, bits)
    ensures |copy| == |before|
  {
    var shard := ShareData(raw, masks)[i];
    assert |Prefixed(shard)| == |Prefixed(raw)|;
    PrefixEmbedded(before, InOrder(), |before|, shard, bits)
  }

  // The shards as the verifier rebuilds them from what it extracts, the copies being numbered.
  ghost predicate Rebuilt(shards: seq<Shard>, before: seq<Byte>, raw: seq<Byte>, masks: seq<seq<Byte>>, bits: nat)
    requires 1 <= bits <= 4 && AllOfLength(masks, |raw|) && PrefixFits(|before|, raw, bits)
  {
    && |shards| == |masks| + 1
    && forall i: nat :: i < |shards| ==>
         && RawExtraction(Copy(before, raw, masks, bits, i), InOrder(), |before|, bits) == Some(shards[i].data)
         && shards[i].shardIndex == i
         && shards[i].totalShards == |shards|
  }

  // Whatever the masks, the copies give the payload back, in any order.
  lemma SpreadReconstructs(shards: seq<Shard>, before: seq<Byte>, raw: seq<Byte>, masks: seq<seq<Byte>>, bits: nat,
                           order: seq<nat>)
    requires 1 <= bits <= 4 && 0 < 8 * |raw| <= MAX_RAW_BITS && PrefixFits(|before|, raw, bits)
    requires 1 <= |masks| <= 7 && AllOfLength(masks, |raw|) && Rearranges(order, |masks| + 1)
    requires Rebuilt(shards, before, raw, masks, bits)
    ensures Complete(Rearranged(shards, order)) && Combined(Rearranged(shards, order)) == raw
  {
    hide XorBytes, RawExtraction, PrefixEmbedded, Prefixed, StableSorting.StableSort, Pow2;
    Pow2Header();
    var rows := ShareData(raw, masks);
    forall i: nat | i < |shards|
      ensures shards[i].data == rows[i]
    {
      PrefixLength(rows[i], raw);
      RawRoundTrip(before, InOrder(), |before|, rows[i], bits);
    }
    SortRestores(shards, order);
    assert Datas(shards) == rows;
    SharesSum(raw, masks);
  }

  lemma PrefixLength(a: seq<Byte>, b: seq<Byte>)
    requires |a| == |b|
    ensures |Prefixed(a)| == |Prefixed(b)|
  {}

  // Every copy binds the same canonical bytes.
  lemma CopiesBindAlike(before: seq<Byte>, raw: seq<Byte>, masks: seq<seq<Byte>>, bits: nat, i: nat,
                        width: nat, height: nat, c: seq<Byte>)
    requires 1 <= bits <= 4 && AllOfLength(masks, |raw|) && i <= |masks| && PrefixFits(|before|, raw, bits)
    requires |before| == width * height * 3
    requires IsCanonical(Owned(LsbVideo, |before|, bits, width, height, |raw|), before, c)
    ensures IsCanonical(Owned(LsbVideo, |before|, bits, width, height, |raw|), Copy(before, raw, masks, bits, i), c)
  {
    hide IsCanonical, AgreeOutside, PrefixEmbedded, Prefixed, XorBytes;
    var owned := Owned(LsbVideo, |before|, bits, width, height, |raw|);
    var shard := ShareData(raw, masks)[i];
    PrefixLength(shard, raw);
    assert VideoBytesPerPixel(|before|, width, height) == 3;
    assert forall u: nat, s: nat :: u < |before| && s < bits ==> owned(InOrder()(u), s);
    PrefixWritesOwnedOnly(owned, before, InOrder(), |before|, shard, bits);
    CanonicalSurvives(owned, before, Copy(before, raw, masks, bits, i), c);
  }

  // --- encoding -----------------------------------------------------------------------------

  datatype SpreadError = Preparing(encode: EncodeError) | Splitting(share: ShareError) | Placing(raw: RawError) | NotAuthentic

  // One copy of the carrier for every shard.
  method EncodeMultiFrame(before: seq<Byte>, raw: seq<Byte>, n: nat, bits: nat, masks: seq<seq<Byte>>)
    returns (r: Result<seq<seq<Byte>>, SpreadError>)
    requires 1 <= bits <= 4 && (2 <= n <= 8 ==> ValidMasks(masks, n, |raw|)) && 8 * |raw| < Pow2(32)
    ensures r.Ok? <==> 2 <= n <= 8 && |raw| > 0 && PrefixFits(|before|, raw, bits)
    ensures r.Ok? ==> |r.value| == n && forall i :: 0 <= i < n ==> r.value[i] == Copy(before, raw, masks, bits, i)
  {
    hide PrefixEmbedded, Prefixed, XorBytes, Pow2;
    var shards := SplitPayloadBytes(raw, n, 0, masks);
    if shards.Err? {
      return Err(Splitting(shards.error));
    }
    var copies: seq<seq<Byte>> := [];
    for i := 0 to n
      invariant |copies| == i && (i > 0 ==> PrefixFits(|before|, raw, bits))
      invariant forall j :: 0 <= j < i ==> copies[j] == Copy(before, raw, masks, bits, j)
    {
      var data := new Byte[|before|](j requires 0 <= j < |before| => before[j]);
      assert data[..] == before;
      PrefixLength(shards.value[i].data, raw);
      var embedded := EmbedRaw(data, shards.value[i].data, bits);
      if embedded.Err? {
        return Err(Placing(embedded.error));
      }
      copies := copies + [data[..]];
    }
    r := Ok(copies);
  }

  // --- verifying ----------------------------------------------------------------------------

  datatype Media = Media(width: nat, height: nat, data: seq<Byte>)

  datatype Gathered = Differs | Missing | Found(shards: seq<seq<Byte>>)

  datatype SpreadVerdict = Mismatched | Unreconstructed | Decided(verdict: Verdict)

  // What the first n copies yield: the shards, or the first obstacle.
  function Gather(copies: seq<Media>, bits: nat, n: nat): Gathered
    requires 1 <= bits <= 4 && n <= |copies|
  {
    if n == 0 then Found([])
    else
      var earlier := Gather(copies, bits, n - 1);
      if !earlier.Found? then earlier
      else if copies[n - 1].width != copies[0].width || copies[n - 1].height != copies[0].height then Differs
      else
        var shard := RawExtraction(copies[n - 1].data, InOrder(), |copies[n - 1].data|, bits);
        if shard.None? then Missing else Found(earlier.shards + [shard.value])
  }

  function Numbered(rows: seq<seq<Byte>>): (shards: seq<Shard>)
    ensures |shards| == |rows|
  {
    seq(|rows|, i requires 0 <= i < |rows| => Shard(i, i, |rows|, rows[i]))
  }

  // The verdict on the copies: their shards are combined, and the result is judged against the first copy.
  ghost predicate IsSpreadVerdict(copies: seq<Media>, o: Options, k: Secrets, v: SpreadVerdict)
    requires 1 <= o.bits <= 4 && |copies| > 0
  {
    match Gather(copies, o.bits, |copies|)
    case Differs => v == Mismatched
    case Missing => v == Unreconstructed
    case Found(rows) =>
      if !Complete(Numbered(rows)) then v == Unreconstructed
      else
        && v.Decided?
        && Judged(copies[0].data, Combined(Numbered(rows)), LsbVideo, copies[0].width, copies[0].height, o, k, v.verdict)
  }

  method VerifyMultiFrame(copies: seq<Media>, o: Options, k: Secrets) returns (v: SpreadVerdict)
    requires 1 <= o.bits <= 4 && |copies| > 0
    ensures IsSpreadVerdict(copies, o, k, v)
  {
    hide RawExtraction, Judged, Complete, Combined;
    var rows: seq<seq<Byte>> := [];
    for index := 0 to |copies|
      invariant Gather(copies, o.bits, index) == Found(rows)
    {
      var copy := copies[index];
      if copy.width != copies[0].width || copy.height != copies[0].height {
        GatherStuck(copies, o.bits, index + 1, |copies|);
        return Mismatched;
      }
      var shard := ExtractRaw(copy.data, o.bits);
      if shard.None? {
        GatherStuck(copies, o.bits, index + 1, |copies|);
        return Unreconstructed;
      }
      rows := rows + [shard.value];
    }
    var payloadBytes := ReconstructPayloadBytes(Numbered(rows));
    if payloadBytes.Err? {
      return Unreconstructed;
    }
    var verdict := Judge(copies[0].data, payloadBytes.value, LsbVideo, copies[0].width, copies[0].height, o, k);
    v := Decided(verdict);
  }

  // The first obstacle stays.
  lemma {:induction false} GatherStuck(copies: seq<Media>, bits: nat, n: nat, m: nat)
    requires 1 <= bits <= 4 && n <= m <= |copies| && !Gather(copies, bits, n).Found?
    ensures Gather(copies, bits, m) == Gather(copies, bits, n)
  {
    hide RawExtraction;
    if n < m {
      GatherStuck(copies, bits, n, m - 1);
    }
  }

  lemma {:induction false} GatherAll(copies: seq<Media>, bits: nat, rows: seq<seq<Byte>>, n: nat)
    requires 1 <= bits <= 4 && n <= |copies| == |rows|
    requires forall i :: 0 <= i < |copies| ==>
      && copies[i].width == copies[0].width && copies[i].height == copies[0].height
      && RawExtraction(copies[i].data, InOrder(), |copies[i].data|, bits) == Some(rows[i])
    ensures Gather(copies, bits, n) == Found(rows[..n])
  {
    hide RawExtraction;
    if n > 0 {
      GatherAll(copies, bits, rows, n - 1);
      assert rows[..n] == rows[..n - 1] + [rows[n - 1]];
    }
  }

  // The verdict names the first obstacle: a copy of another size, or one without a shard; then shards of different
  // lengths; and without an obstacle the combination is judged.
  lemma VerdictExactly(copies: seq<Media>, o: Options, k: Secrets, v: SpreadVerdict)
    requires 1 <= o.bits <= 4 && 2 <= |copies| <= 8 && IsSpreadVerdict(copies, o, k, v)
    ensures v == Mismatched <==> exists i: nat :: i < |copies| && Yields(copies, o.bits, i) && !Alike(copies, i)
    ensures v == Unreconstructed <==>
      || (exists i: nat :: i < |copies| && Yields(copies, o.bits, i) && Alike(copies, i) && ShardOf(copies, o.bits, i).None?)
      || (Yields(copies, o.bits, |copies|) && !SameLengths(copies, o.bits))
  {
    hide RawExtraction, Combined, Judged, Alike, ShardOf, Complete;
    GatherExactly(copies, o.bits, |copies|);
    match Gather(copies, o.bits, |copies|)
    case Differs =>
    case Missing =>
    case Found(rows) =>
      NumberedExactly(copies, o.bits, rows);
  }

  ghost predicate Alike(copies: seq<Media>, i: nat)
    requires i < |copies|
  {
    copies[i].width == copies[0].width && copies[i].height == copies[0].height
  }

  ghost function ShardOf(copies: seq<Media>, bits: nat, i: nat): Option<seq<Byte>>
    requires 1 <= bits <= 4 && i < |copies|
  {
    RawExtraction(copies[i].data, InOrder(), |copies[i].data|, bits)
  }

  // Each of the first n copies has the size of the first one and yields a shard.
  ghost predicate Yields(copies: seq<Media>, bits: nat, n: nat)
    requires 1 <= bits <= 4 && n <= |copies|
  {
    forall i: nat :: i < n ==> Alike(copies, i) && ShardOf(copies, bits, i).Some?
  }

  ghost predicate SameLengths(copies: seq<Media>, bits: nat)
    requires 1 <= bits <= 4 && Yields(copies, bits, |copies|)
  {
    forall i: nat, j: nat :: i < |copies| && j < |copies| ==>
      |ShardOf(copies, bits, i).value| == |ShardOf(copies, bits, j).value|
  }

  lemma {:induction false} GatherExactly(copies: seq<Media>, bits: nat, n: nat)
    requires 1 <= bits <= 4 && n <= |copies|
    ensures match Gather(copies, bits, n)
            case Differs => exists i: nat :: i < n && Yields(copies, bits, i) && !Alike(copies, i)
            case Missing => exists i: nat :: i < n && Yields(copies, bits, i) && Alike(copies, i) && ShardOf(copies, bits, i).None?
            case Found(rows) =>
              Yields(copies, bits, n) && |rows| == n && forall i: nat :: i < n ==> ShardOf(copies, bits, i) == Some(rows[i])
  {
    hide RawExtraction;
    if n > 0 {
      GatherExactly(copies, bits, n - 1);
    }
  }

  // Numbered shards are complete exactly when their lengths agree, as a shard is never empty.
  lemma NumberedExactly(copies: seq<Media>, bits: nat, rows: seq<seq<Byte>>)
    requires 1 <= bits <= 4 && 2 <= |copies| <= 8 && |rows| == |copies|
    requires forall i: nat :: i < |rows| ==> ShardOf(copies, bits, i) == Some(rows[i])
    ensures Complete(Numbered(rows)) <==> forall i: nat, j: nat :: i < |rows| && j < |rows| ==> |rows[i]| == |rows[j]|
  {
    hide RawExtraction;
    var shards := Numbered(rows);
    assert ShardOf(copies, bits, 0) == Some(rows[0]);
    RawExtractsExactly(copies[0].data, InOrder(), |copies[0].data|, bits, rows[0]);
    assert |shards[0].data| > 0;
    forall i | 0 <= i < |shards|
      ensures shards[i] == Shard(i, i, |rows|, rows[i])
    {}
  }

  // Numbered rows of one length are a complete group that combines to their exclusive or.
  lemma NumberedCombine(rows: seq<seq<Byte>>, len: nat)
    requires 2 <= |rows| <= 8 && len > 0 && AllOfLength(rows, len)
    ensures Complete(Numbered(rows)) && Combined(Numbered(rows)) == XorAll(rows, len)
  {
    hide StableSorting.StableSort, XorBytes;
    var shards := Numbered(rows);
    var order: seq<nat> := seq(|rows|, i requires 0 <= i < |rows| => i);
    SortRestores(shards, order);
    assert Rearranged(shards, order) == shards;
    assert Datas(shards) == rows;
  }

  // A byte of the combination depends on the same byte of every row.
  lemma {:induction false} CombinedByte(a: seq<seq<Byte>>, b: seq<seq<Byte>>, len: nat, t: nat)
    requires |a| == |b| && AllOfLength(a, len) && AllOfLength(b, len) && t < len
    requires forall i :: 0 <= i < |a| ==> a[i][t] == b[i][t]
    ensures XorAll(a, len)[t] == XorAll(b, len)[t]
  {
    hide Add;
    if |a| > 0 {
      CombinedByte(a[..|a| - 1], b[..|b| - 1], len, t);
    }
  }

  // --- the theorem --------------------------------------------------------------------------

  // What was spread: a signed carrier, its transformed payload, and masks for the shards.
  ghost predicate Spread(width: nat, height: nat, o: Options, k: Secrets, before: seq<Byte>, canonical: seq<Byte>,
                         raw: seq<Byte>, masks: seq<seq<Byte>>) {
    && 1 <= o.bits <= 4 && ValidParity(o) && |before| == width * height * 3
    && Refusal(LsbVideo, |before|, o.bits, width, height, TransformedLen(o)).None?
    && IsCanonical(Owned(LsbVideo, |before|, o.bits, width, height, TransformedLen(o)), before, canonical)
    && raw == Transformed(o, k, SignFrame(k.scheme, 0, canonical, None)) && |raw| == TransformedLen(o)
    && 1 <= |masks| <= 7 && AllOfLength(masks, |raw|)
    && PrefixFits(|before|, raw, o.bits)
  }

  // Copies whose length prefixes are intact, damaged at the given byte positions of their shards only.
  ghost predicate Received(copies: seq<Media>, width: nat, height: nat, before: seq<Byte>, raw: seq<Byte>,
                           masks: seq<seq<Byte>>, bits: nat, damaged: set<nat>)
    requires 1 <= bits <= 4 && AllOfLength(masks, |raw|) && PrefixFits(|before|, raw, bits)
  {
    && |copies| == |masks| + 1
    && forall i: nat :: i < |copies| ==>
         && copies[i].width == width && copies[i].height == height && |copies[i].data| == |before|
         && SameHeader(Copy(before, raw, masks, bits, i), copies[i].data, InOrder(), bits)
         && forall t: nat :: t < |raw| && t !in damaged ==>
              Region(copies[i].data, InOrder(), bits, |raw|)[t] == ShareData(raw, masks)[i][t]
  }

  // Each copy still yields a shard, the damaged one.
  lemma ExtractsDamaged(copies: seq<Media>, width: nat, height: nat, before: seq<Byte>, raw: seq<Byte>,
                        masks: seq<seq<Byte>>, bits: nat, damaged: set<nat>, i: nat)
    requires 1 <= bits <= 4 && AllOfLength(masks, |raw|) && PrefixFits(|before|, raw, bits)
    requires 0 < 8 * |raw| <= MAX_RAW_BITS && i <= |masks|
    requires Received(copies, width, height, before, raw, masks, bits, damaged)
    ensures RawExtraction(copies[i].data, InOrder(), |copies[i].data|, bits)
         == Some(Region(copies[i].data, InOrder(), bits, |raw|))
  {
    hide RawExtraction, PrefixEmbedded, Prefixed, Region, SameHeader, XorBytes;
    var shard := ShareData(raw, masks)[i];
    PrefixLength(shard, raw);
    DamagedExtraction(before, copies[i].data, InOrder(), |before|, shard, bits);
  }

  // The combination of damaged shards differs from the payload at damaged positions only.
  lemma CombinesDespiteDamage(raw: seq<Byte>, masks: seq<seq<Byte>>, rows: seq<seq<Byte>>, damaged: set<nat>)
    requires AllOfLength(masks, |raw|) && |rows| == |masks| + 1 && AllOfLength(rows, |raw|)
    requires forall i: nat, t: nat :: i < |rows| && t < |raw| && t !in damaged ==> rows[i][t] == ShareData(raw, masks)[i][t]
    ensures Hamming(raw, XorAll(rows, |raw|)) <= |damaged|
  {
    hide XorBytes, Hamming, XorAll;
    SharesSum(raw, masks);
    var combined := XorAll(rows, |raw|);
    forall t: nat | t < |raw| && raw[t] != combined[t]
      ensures t in damaged
    {
      if t !in damaged {
        CombinedByte(rows, ShareData(raw, masks), |raw|, t);
      }
    }
    HammingWithin(raw, combined, damaged);
  }

  // Resilience of the spread: with at most as many damaged byte positions, over all copies together, as error
  // correction absorbs, and only owned bits changed in the first copy, the copies verify as they were signed.
  lemma SpreadResilience(width: nat, height: nat, o: Options, k: Secrets, before: seq<Byte>, canonical: seq<Byte>,
                         raw: seq<Byte>, masks: seq<seq<Byte>>, copies: seq<Media>, damaged: set<nat>, v: SpreadVerdict)
    requires ValidSecrets(k) && Spread(width, height, o, k, before, canonical, raw, masks)
    requires Received(copies, width, height, before, raw, masks, o.bits, damaged) && |damaged| <= Tolerated(o)
    requires AgreeOutside(Owned(LsbVideo, |before|, o.bits, width, height, |raw|),
                          Copy(before, raw, masks, o.bits, 0), copies[0].data)
    requires IsSpreadVerdict(copies, o, k, v)
    ensures v == Decided(Checked(SignFrame(k.scheme, 0, canonical, None), true))
  {
    hide IsCanonical, AgreeOutside, PrefixEmbedded, Prefixed, Region, XorBytes, RawExtraction, Judged, Transformed,
         Opened, Hamming, Preimage, SameHeader, XorAll, Complete, Combined;
    SignedValid(k.scheme, 0, canonical);
    TransformedLength(o, k, SignFrame(k.scheme, 0, canonical, None));
    var rows := seq(|copies|, i requires 0 <= i < |copies| => Region(copies[i].data, InOrder(), o.bits, |raw|));
    forall i: nat | i < |copies|
      ensures RawExtraction(copies[i].data, InOrder(), |copies[i].data|, o.bits) == Some(rows[i])
    {
      ExtractsDamaged(copies, width, height, before, raw, masks, o.bits, damaged, i);
    }
    GatherAll(copies, o.bits, rows, |copies|);
    assert rows[..|copies|] == rows;
    NumberedCombine(rows, |raw|);
    CombinesDespiteDamage(raw, masks, rows, damaged);
    var found := XorAll(rows, |raw|);
    OpensDespiteDamage(o, k, SignFrame(k.scheme, 0, canonical, None), found);
    CopiesBindAlike(before, raw, masks, o.bits, 0, width, height, canonical);
    CanonicalSurvives(Owned(LsbVideo, |before|, o.bits, width, height, |raw|),
                      Copy(before, raw, masks, o.bits, 0), copies[0].data, canonical);
    AcceptedAsSigned(copies[0].data, found, LsbVideo, width, height, o, k, canonical, v.verdict);
  }

  // Shards that combine to bytes that open to the signed payload verify exactly when nothing but owned bits of the first
  // copy changed, or the two canonical forms collide.
  lemma SpreadVerdictBinds(copies: seq<Media>, o: Options, k: Secrets, rows: seq<seq<Byte>>, before: seq<Byte>,
                           canonical: seq<Byte>, v: SpreadVerdict)
    returns (seen: seq<Byte>)
    requires ValidScheme(k.scheme) && 1 <= o.bits <= 4 && 2 <= |copies| <= 8 && |copies[0].data| == |before| < Pow256(8)
    requires Gather(copies, o.bits, |copies|) == Found(rows)
    requires Complete(Numbered(rows)) && |Combined(Numbered(rows))| == TransformedLen(o)
    requires Opened(o, k, Combined(Numbered(rows))) == Ok(SignFrame(k.scheme, 0, canonical, None))
    requires Refusal(LsbVideo, |before|, o.bits, copies[0].width, copies[0].height, TransformedLen(o)).None?
    requires IsCanonical(Owned(LsbVideo, |before|, o.bits, copies[0].width, copies[0].height, TransformedLen(o)), before, canonical)
    requires IsSpreadVerdict(copies, o, k, v)
    ensures var owned := Owned(LsbVideo, |before|, o.bits, copies[0].width, copies[0].height, TransformedLen(o));
            && IsCanonical(owned, copies[0].data, seen)
            && v.Decided? && v.verdict.Checked? && v.verdict.payload == SignFrame(k.scheme, 0, canonical, None)
            && (v.verdict.valid <==> AgreeOutside(owned, before, copies[0].data)
                                     || Collision(k.scheme.hash, Preimage(0, canonical, None), Preimage(0, seen, None)))
  {
    hide IsCanonical, AgreeOutside, Opened, Preimage, Pow256, SignFrame, Judged, Gather, Combined;
    var copy := copies[0];
    seen := JudgedBinds(copy.data, Combined(Numbered(rows)), LsbVideo, copy.width, copy.height, o, k, before, canonical, v.verdict);
  }

  // --- the run with several frames ------------------------------------------------------------

  // Undamaged copies, as the encoder made them.
  lemma CopiesReceived(copies: seq<Media>, width: nat, height: nat, before: seq<Byte>, raw: seq<Byte>,
                       masks: seq<seq<Byte>>, bits: nat)
    requires 1 <= bits <= 4 && AllOfLength(masks, |raw|) && PrefixFits(|before|, raw, bits) && 8 * |raw| < Pow2(32)
    requires |copies| == |masks| + 1
    requires forall i :: 0 <= i < |copies| ==> copies[i] == Media(width, height, Copy(before, raw, masks, bits, i))
    ensures Received(copies, width, height, before, raw, masks, bits, {})
  {
    hide PrefixEmbedded, Prefixed, Region, XorBytes, Pow2;
    forall i: nat | i < |copies|
      ensures Region(copies[i].data, InOrder(), bits, |raw|) == ShareData(raw, masks)[i]
    {
      PrefixLength(ShareData(raw, masks)[i], raw);
      EmbeddedRead(before, InOrder(), |before|, ShareData(raw, masks)[i], bits);
    }
  }

  // The run for several frames: prepare, spread, read the copies back and check them; the check never fails.
  method RunSpread(before: seq<Byte>, width: nat, height: nat, o: Options, k: Secrets, n: nat, masks: seq<seq<Byte>>)
    returns (r: Result<seq<seq<Byte>>, SpreadError>, ghost canonical: seq<Byte>, ghost raw: seq<Byte>)
    requires ValidSecrets(k) && |before| == width * height * 3 && 2 <= n <= 8 && ValidMasks(masks, n, TransformedLen(o))
    ensures r.Ok? <==>
      && ValidParity(o) && Refusal(LsbVideo, |before|, o.bits, width, height, TransformedLen(o)).None?
      && HEADER_BITS + 8 * TransformedLen(o) <= |before| * o.bits
    ensures r.Ok? ==>
      && Spread(width, height, o, k, before, canonical, raw, masks)
      && |r.value| == n && forall i :: 0 <= i < n ==> r.value[i] == Copy(before, raw, masks, o.bits, i)
  {
    hide IsCanonical, PrefixEmbedded, Transformed, SignFrame, XorBytes, IsSpreadVerdict, Received, Prefixed, Pow2;
    raw := [];
    var prepared;
    prepared, canonical := Prepare(before, LsbVideo, width, height, o, k);
    if prepared.Err? {
      return Err(Preparing(prepared.error)), canonical, raw;
    }
    raw := prepared.value.embedData;
    Pow2Header();
    var encoded := EncodeMultiFrame(before, prepared.value.embedData, n, o.bits, masks);
    if encoded.Err? {
      return Err(encoded.error), canonical, raw;
    }
    var copies := seq(n, i requires 0 <= i < n => Media(width, height, encoded.value[i]));
    CopiesReceived(copies, width, height, before, raw, masks, o.bits);
    var verdict := VerifyMultiFrame(copies, o, k);
    SpreadResilience(width, height, o, k, before, canonical, raw, masks, copies, {}, verdict);
    if verdict != Decided(Checked(prepared.value.payload, true)) {
      return Err(NotAuthentic), canonical, raw;
    }
    r := Ok(encoded.value);
  }
}
