/** Canonical carrier bytes of carrier_binding.rs: what a signature binds. */
module CarrierBinding {
  import opened Results
  import opened Arithmetic
  import opened GaloisField
  import opened UnitBits
  import opened Samples
  import opened DctGeometry
  import opened SignaturePayloads

  datatype StegoType = LsbVideo | LsbAudio | SpreadSpectrumVideo | DctVideo | Unsupported

  datatype BindingError =
    | InvalidBits
    | InvalidDimensions
    | UnpackedPixels
    | IncompleteSamples
    | RegionExceedsCarrier
    | NotEnoughBlocks
    | UnsupportedKernel

  // --- ownership ------------------------------------------------------------------------

  // Which bit of which byte the selected kernel may change.
  type Ownership = (nat, nat) -> bool

  // c is d with every owned bit cleared.
  ghost predicate IsCanonical(owned: Ownership, d: seq<Byte>, c: seq<Byte>) {
    && |c| == |d|
    && forall p: nat, s: nat {:trigger BitAt(c[p], s)} {:trigger BitAt(d[p], s)} :: p < |d| && s < 8 ==>
         BitAt(c[p], s) == (!owned(p, s) && BitAt(d[p], s))
  }

  ghost predicate AgreeOutside(owned: Ownership, a: seq<Byte>, b: seq<Byte>) {
    && |a| == |b|
    && forall p: nat, s: nat {:trigger BitAt(a[p], s)} {:trigger BitAt(b[p], s)} :: p < |a| && s < 8 && !owned(p, s) ==>
         BitAt(a[p], s) == BitAt(b[p], s)
  }

  lemma SameBits(a: seq<Byte>, b: seq<Byte>)
    requires |a| == |b|
    requires forall p: nat, s: nat {:trigger BitAt(a[p], s)} {:trigger BitAt(b[p], s)} :: p < |a| && s < 8 ==>
               BitAt(a[p], s) == BitAt(b[p], s)
    ensures a == b
  {
    hide BitAt;
    forall p | 0 <= p < |a|
      ensures a[p] == b[p]
    {
      ByteExtensional(a[p], b[p]);
    }
  }

  // Two carriers of one shape bind alike exactly when they agree on every bit the kernel does not own.
  lemma CanonicalSeparates(owned: Ownership, a: seq<Byte>, b: seq<Byte>, ca: seq<Byte>, cb: seq<Byte>)
    requires IsCanonical(owned, a, ca) && IsCanonical(owned, b, cb) && |a| == |b|
    ensures ca == cb <==> AgreeOutside(owned, a, b)
  {
    hide BitAt;
    if ca == cb {
      forall p: nat, s: nat | p < |a| && s < 8 && !owned(p, s)
        ensures BitAt(a[p], s) == BitAt(b[p], s)
      {
        assert BitAt(ca[p], s) == BitAt(a[p], s) && BitAt(cb[p], s) == BitAt(b[p], s);
      }
    }
    if AgreeOutside(owned, a, b) {
      forall p: nat, s: nat | p < |a| && s < 8
        ensures BitAt(ca[p], s) == BitAt(cb[p], s)
      {
        assert BitAt(ca[p], s) == (!owned(p, s) && BitAt(a[p], s));
        assert BitAt(cb[p], s) == (!owned(p, s) && BitAt(b[p], s));
      }
      SameBits(ca, cb);
    }
  }

  lemma CanonicalUnique(owned: Ownership, d: seq<Byte>, c: seq<Byte>, c': seq<Byte>)
    requires IsCanonical(owned, d, c) && IsCanonical(owned, d, c')
    ensures c == c'
  {
    hide BitAt;
    forall p: nat, s: nat | p < |d| && s < 8
      ensures BitAt(c[p], s) == BitAt(c'[p], s)
    {
      assert BitAt(c[p], s) == (!owned(p, s) && BitAt(d[p], s));
      assert BitAt(c'[p], s) == (!owned(p, s) && BitAt(d[p], s));
    }
    SameBits(c, c');
  }

  // Canonical bytes are their own canonical form.
  lemma CanonicalIdempotent(owned: Ownership, d: seq<Byte>, c: seq<Byte>)
    requires IsCanonical(owned, d, c)
    ensures IsCanonical(owned, c, c)
  {
    hide BitAt;
  }

  // A kernel that changes owned bits only does not change what is bound.
  lemma CanonicalSurvives(owned: Ownership, before: seq<Byte>, after: seq<Byte>, c: seq<Byte>)
    requires IsCanonical(owned, before, c) && AgreeOutside(owned, before, after)
    ensures IsCanonical(owned, after, c)
  {
    hide BitAt;
    forall p: nat, s: nat | p < |after| && s < 8
      ensures BitAt(c[p], s) == (!owned(p, s) && BitAt(after[p], s))
    {
      assert BitAt(c[p], s) == (!owned(p, s) && BitAt(before[p], s));
    }
  }

  // --- what each kernel owns ----------------------------------------------------------------

  const SPREAD_FACTOR := 64

  function VideoBytesPerPixel(size: nat, width: nat, height: nat): nat {
    if width == 0 && height == 0 then 3
    else if width * height * 3 == size then 3
    else 4
  }

  function SpreadRegion(embeddedLen: nat): nat {
    (8 * embeddedLen + 32) * SPREAD_FACTOR
  }

  ghost function Owned(kernel: StegoType, size: nat, bits: nat, width: nat, height: nat, embeddedLen: nat): Ownership {
    (p: nat, s: nat) =>
      match kernel
      case LsbVideo => s < bits && (VideoBytesPerPixel(size, width, height) != 4 || p % 4 != 3)
      case LsbAudio => s < bits && p % 2 == 0
      case SpreadSpectrumVideo => p < SpreadRegion(embeddedLen)
      case DctVideo => InBlocks(Grid(width / 8, 3 * width, 3, 1), 8 * SERIALIZED_SIZE, p)
      case Unsupported => false
  }

  function Refusal(kernel: StegoType, size: nat, bits: nat, width: nat, height: nat,
                   embeddedLen: nat): Option<BindingError> {
    match kernel
    case LsbVideo =>
      if !(1 <= bits <= 4) then Some(InvalidBits)
      else if width == 0 && height == 0 then None
      else if width == 0 || height == 0 then Some(InvalidDimensions)
      else if width * height * 3 != size && width * height * 4 != size then Some(UnpackedPixels)
      else None
    case LsbAudio =>
      if size % 2 != 0 then Some(IncompleteSamples)
      else if !(1 <= bits <= 4) then Some(InvalidBits)
      else None
    case SpreadSpectrumVideo =>
      if SpreadRegion(embeddedLen) > size then Some(RegionExceedsCarrier) else None
    case DctVideo =>
      if width == 0 || height == 0 || size != width * height * 3 then Some(InvalidDimensions)
      else if (width / 8) * (height / 8) < 8 * SERIALIZED_SIZE then Some(NotEnoughBlocks)
      else None
    case Unsupported => Some(UnsupportedKernel)
  }

  // --- the in-place masking ---------------------------------------------------------------

  // Clears the low bits of every colour byte, alpha excepted when there is one.
  method MaskVideo(canonical: array<Byte>, bits: nat, bpp: nat)
    requires 1 <= bits <= 4
    modifies canonical
    ensures forall p :: 0 <= p < canonical.Length ==>
      canonical[p] == if bpp == 4 && p % 4 == 3 then old(canonical[p]) else Masked(old(canonical[p]), bits)
  {
    hide Masked;
    ghost var before := canonical[..];
    for index := 0 to canonical.Length
      invariant forall p :: index <= p < canonical.Length ==> canonical[p] == before[p]
      invariant forall p :: 0 <= p < index ==>
        canonical[p] == if bpp == 4 && p % 4 == 3 then before[p] else Masked(before[p], bits)
    {
      if bpp != 4 || index % 4 != 3 {
        canonical[index] := Masked(canonical[index], bits);
      }
    }
  }

  // Clears the low bits of every sample.
  method MaskAudio(canonical: array<Byte>, bits: nat)
    requires 1 <= bits <= 4 && canonical.Length % 2 == 0
    modifies canonical
    ensures forall p :: 0 <= p < canonical.Length ==>
      canonical[p] == if p % 2 == 0 then Masked(old(canonical[p]), bits) else old(canonical[p])
  {
    hide Masked, SampleOf, LowByte, HighByte, MaskedSample;
    ghost var before := canonical[..];
    for chunk := 0 to canonical.Length / 2
      invariant forall p :: 2 * chunk <= p < canonical.Length ==> canonical[p] == before[p]
      invariant forall p :: 0 <= p < 2 * chunk ==>
        canonical[p] == if p % 2 == 0 then Masked(before[p], bits) else before[p]
    {
      var value := SampleOf(canonical[2 * chunk], canonical[2 * chunk + 1]);
      SampleBytes(canonical[2 * chunk], canonical[2 * chunk + 1]);
      MaskedSampleBytes(value, bits);
      value := MaskedSample(value, bits);
      canonical[2 * chunk], canonical[2 * chunk + 1] := LowByte(value), HighByte(value);
    }
  }

  method ClearRegion(canonical: array<Byte>, region: nat)
    requires region <= canonical.Length
    modifies canonical
    ensures forall p :: 0 <= p < canonical.Length ==> canonical[p] == if p < region then 0 else old(canonical[p])
  {
    ghost var before := canonical[..];
    for p := 0 to region
      invariant forall q :: 0 <= q < canonical.Length ==> canonical[q] == if q < p then 0 else before[q]
    {
      canonical[p] := 0;
    }
  }

  lemma CanonicalBit(u: Byte, bits: nat, s: nat)
    requires bits <= 4 && s < 8
    ensures BitAt(Masked(u, bits), s) == (!(s < bits) && BitAt(u, s))
    ensures !BitAt(0, s)
  {
    MaskedBits(u, bits, s);
    ZeroBits(s);
  }

  // Bytes that were masked where low bits are owned, and zeroed where all bits are, are canonical.
  lemma MaskedIsCanonical(owned: Ownership, bits: nat, d: seq<Byte>, c: seq<Byte>)
    requires bits <= 4 && |c| == |d|
    requires forall p: nat :: p < |d| ==>
      || (c[p] == Masked(d[p], bits) && forall s :: 0 <= s < 8 ==> (owned(p, s) <==> s < bits))
      || (c[p] == d[p] && forall s :: 0 <= s < 8 ==> !owned(p, s))
      || (c[p] == 0 && forall s :: 0 <= s < 8 ==> owned(p, s))
    ensures IsCanonical(owned, d, c)
  {
    hide BitAt, Masked;
    forall p: nat, s: nat | p < |d| && s < 8
      ensures BitAt(c[p], s) == (!owned(p, s) && BitAt(d[p], s))
    {
      CanonicalBit(d[p], bits, s);
    }
  }

  // Canonicalisation clears exactly the owned bits, or says why it cannot.
  method Canonicalize(data: seq<Byte>, kernel: StegoType, bits: nat, width: nat, height: nat, embeddedLen: nat)
    returns (r: Result<seq<Byte>, BindingError>)
    ensures Refusal(kernel, |data|, bits, width, height, embeddedLen).Some? ==>
      r == Err(Refusal(kernel, |data|, bits, width, height, embeddedLen).value)
    ensures Refusal(kernel, |data|, bits, width, height, embeddedLen).None? ==>
      r.Ok? && IsCanonical(Owned(kernel, |data|, bits, width, height, embeddedLen), data, r.value)
  {
    hide Masked, InBlocks, IsCanonical;
    var refusal := Refusal(kernel, |data|, bits, width, height, embeddedLen);
    if refusal.Some? {
      return Err(refusal.value);
    }
    var canonical := new Byte[|data|](i requires 0 <= i < |data| => data[i]);
    assert canonical[..] == data;
    ghost var low := if bits <= 4 then bits else 0;
    match kernel {
      case LsbVideo =>
        MaskVideo(canonical, bits, VideoBytesPerPixel(|data|, width, height));
      case LsbAudio =>
        MaskAudio(canonical, bits);
      case SpreadSpectrumVideo =>
        ClearRegion(canonical, SpreadRegion(embeddedLen));
      case DctVideo =>
        GreenGridFits(width, height);
        ClearBlocks(canonical, Grid(width / 8, 3 * width, 3, 1), 8 * SERIALIZED_SIZE);
    }
    MaskedIsCanonical(Owned(kernel, |data|, bits, width, height, embeddedLen), low, data, canonical[..]);
    r := Ok(canonical[..]);
  }

  // The blocks of the payload lie inside a frame that has enough of them.
  lemma GreenGridFits(width: nat, height: nat)
    requires width > 0 && (width / 8) * (height / 8) >= 8 * SERIALIZED_SIZE
    ensures GridFits(Grid(width / 8, 3 * width, 3, 1), 8 * SERIALIZED_SIZE, width * height * 3)
  {
    var g := Grid(width / 8, 3 * width, 3, 1);
    GreenRows(width, height);
    FrameGridFits(g, width, height, 8 * SERIALIZED_SIZE, width * height * 3);
  }

  lemma GreenRows(width: nat, height: nat)
    requires width > 0 && (width / 8) * (height / 8) > 0
    ensures height > 0 && width / 8 > 0 && ValidGrid(Grid(width / 8, 3 * width, 3, 1))
    ensures (height - 1) * (3 * width) + width * 3 == width * height * 3
  {
    ProductPositive(width / 8, height / 8);
    assert width * height * 3 == height * (3 * width);
    MulMonotone(1, height, 3 * width);
  }

  lemma ProductPositive(a: nat, b: nat)
    requires a * b > 0
    ensures a > 0 && b > 0
  {}

  // --- the forms, bit by bit ------------------------------------------------------------------

  lemma AlphaExactly(size: nat, bits: nat, width: nat, height: nat, embeddedLen: nat)
    requires Refusal(LsbVideo, size, bits, width, height, embeddedLen).None?
    ensures VideoBytesPerPixel(size, width, height) == 4 <==> width > 0 && size == width * height * 4
    ensures VideoBytesPerPixel(size, width, height) == 3 || VideoBytesPerPixel(size, width, height) == 4
  {
    if width > 0 {
      MulMonotone(1, width, height);
      var pixels := width * height;
      assert pixels >= 1;
    }
  }

  // The video form keeps every bit from the strength on, and alpha when there are four bytes for every pixel; the bits
  // below are zero.
  lemma VideoFormExactly(data: seq<Byte>, bits: nat, width: nat, height: nat, embeddedLen: nat, c: seq<Byte>)
    requires Refusal(LsbVideo, |data|, bits, width, height, embeddedLen).None?
    ensures var alpha := width > 0 && |data| == width * height * 4;
            IsCanonical(Owned(LsbVideo, |data|, bits, width, height, embeddedLen), data, c) <==>
              && |c| == |data|
              && forall p: nat, s: nat {:trigger BitAt(c[p], s)} {:trigger BitAt(data[p], s)} :: p < |data| && s < 8 ==>
                   BitAt(c[p], s) == (BitAt(data[p], s) && (s >= bits || (alpha && p % 4 == 3)))
  {
    hide BitAt;
    var alpha := width > 0 && |data| == width * height * 4;
    AlphaExactly(|data|, bits, width, height, embeddedLen);
    var owned := Owned(LsbVideo, |data|, bits, width, height, embeddedLen);
    assert forall p: nat, s: nat :: owned(p, s) <==> !(s >= bits || (alpha && p % 4 == 3));
  }

  // The audio form keeps the high byte of every sample and every bit from the strength on.
  lemma AudioFormExactly(data: seq<Byte>, bits: nat, width: nat, height: nat, embeddedLen: nat, c: seq<Byte>)
    ensures IsCanonical(Owned(LsbAudio, |data|, bits, width, height, embeddedLen), data, c) <==>
      && |c| == |data|
      && forall p: nat, s: nat {:trigger BitAt(c[p], s)} {:trigger BitAt(data[p], s)} :: p < |data| && s < 8 ==>
           BitAt(c[p], s) == (BitAt(data[p], s) && (s >= bits || p % 2 == 1))
  {
    hide BitAt;
    var owned := Owned(LsbAudio, |data|, bits, width, height, embeddedLen);
    assert forall p: nat, s: nat :: owned(p, s) <==> !(s >= bits || p % 2 == 1);
  }

  // The spread-spectrum form is zero on 64 bytes for every bit of the payload and of its 32-bit count, and keeps the rest.
  lemma SpreadFormExactly(data: seq<Byte>, bits: nat, width: nat, height: nat, embeddedLen: nat, c: seq<Byte>)
    ensures IsCanonical(Owned(SpreadSpectrumVideo, |data|, bits, width, height, embeddedLen), data, c) <==>
      |c| == |data| && forall p: nat :: p < |data| ==> c[p] == if p < 64 * (8 * embeddedLen + 32) then 0 else data[p]
  {
    var owned := Owned(SpreadSpectrumVideo, |data|, bits, width, height, embeddedLen);
    var cleared := (p: nat) => p < 64 * (8 * embeddedLen + 32);
    assert SpreadRegion(embeddedLen) == 64 * (8 * embeddedLen + 32);
    forall p: nat, s: nat
      ensures owned(p, s) <==> cleared(p)
    {}
    WholeBytesExactly(owned, data, c, cleared);
  }

  // The DCT form is zero on the green bytes of the first 872 blocks of 8 by 8 pixels, and keeps the rest.
  lemma DctFormExactly(data: seq<Byte>, bits: nat, width: nat, height: nat, embeddedLen: nat, c: seq<Byte>)
    requires width >= 8
    ensures IsCanonical(Owned(StegoType.DctVideo, |data|, bits, width, height, embeddedLen), data, c) <==>
      |c| == |data| && forall p: nat :: p < |data| ==>
        var x, y := Quotient(p, 3) % width, Quotient(Quotient(p, 3), width);
        c[p] == if p % 3 == 1 && x < 8 * (width / 8) && (y / 8) * (width / 8) + x / 8 < 872 then 0 else data[p]
  {
    hide InBlocks;
    var owned := Owned(StegoType.DctVideo, |data|, bits, width, height, embeddedLen);
    var cleared := (p: nat) =>
      var x, y := Quotient(p, 3) % width, Quotient(Quotient(p, 3), width);
      p % 3 == 1 && x < 8 * (width / 8) && (y / 8) * (width / 8) + x / 8 < 872;
    forall p: nat, s: nat
      ensures owned(p, s) <==> cleared(p)
    {
      GreenBlocksExactly(width, 872, p);
    }
    WholeBytesExactly(owned, data, c, cleared);
  }

  // Where whole bytes are owned, the form zeroes those and keeps the others.
  lemma WholeBytesExactly(owned: Ownership, data: seq<Byte>, c: seq<Byte>, cleared: nat -> bool)
    requires forall p: nat, s: nat :: owned(p, s) <==> cleared(p)
    ensures IsCanonical(owned, data, c) <==>
      |c| == |data| && forall p: nat :: p < |data| ==> c[p] == if cleared(p) then 0 else data[p]
  {
    hide BitAt;
    if |c| == |data| {
      var want := seq(|data|, p requires 0 <= p < |data| => if cleared(p) then 0 else data[p]);
      MaskedIsCanonical(owned, 0, data, want);
      if IsCanonical(owned, data, c) {
        CanonicalUnique(owned, data, c, want);
      }
      if forall p: nat :: p < |data| ==> c[p] == if cleared(p) then 0 else data[p] {
        assert c == want;
      }
    }
  }

  // Which carriers have a form.
  lemma AcceptedExactly(size: nat, bits: nat, width: nat, height: nat, embeddedLen: nat)
    ensures Refusal(LsbVideo, size, bits, width, height, embeddedLen).None? <==>
      && 1 <= bits <= 4
      && ((width == 0 && height == 0)
          || (width > 0 && height > 0 && (size == width * height * 3 || size == width * height * 4)))
    ensures Refusal(LsbAudio, size, bits, width, height, embeddedLen).None? <==> 1 <= bits <= 4 && size % 2 == 0
    ensures Refusal(SpreadSpectrumVideo, size, bits, width, height, embeddedLen).None? <==> 512 * embeddedLen + 2048 <= size
    ensures Refusal(StegoType.DctVideo, size, bits, width, height, embeddedLen).None? <==>
      width > 0 && height > 0 && size == width * height * 3 && (width / 8) * (height / 8) >= 872
    ensures Refusal(Unsupported, size, bits, width, height, embeddedLen) == Some(UnsupportedKernel)
  {}

  // The bits are refused first for video, the odd length first for audio, the shape before the number of blocks for DCT.
  lemma RefusalOrder(size: nat, bits: nat, width: nat, height: nat, embeddedLen: nat)
    ensures Refusal(LsbVideo, size, bits, width, height, embeddedLen) == Some(InvalidBits) <==> bits == 0 || bits > 4
    ensures Refusal(LsbVideo, size, bits, width, height, embeddedLen) == Some(InvalidDimensions) <==>
      1 <= bits <= 4 && (width == 0) != (height == 0)
    ensures Refusal(LsbAudio, size, bits, width, height, embeddedLen) == Some(IncompleteSamples) <==> size % 2 == 1
    ensures Refusal(LsbAudio, size, bits, width, height, embeddedLen) == Some(InvalidBits) <==>
      size % 2 == 0 && (bits == 0 || bits > 4)
    ensures Refusal(SpreadSpectrumVideo, size, bits, width, height, embeddedLen) == Some(RegionExceedsCarrier) <==>
      512 * embeddedLen + 2048 > size
    ensures Refusal(StegoType.DctVideo, size, bits, width, height, embeddedLen) == Some(NotEnoughBlocks) <==>
      width > 0 && height > 0 && size == width * height * 3 && (width / 8) * (height / 8) < 872
    ensures Refusal(StegoType.DctVideo, size, bits, width, height, embeddedLen) == Some(InvalidDimensions) <==>
      !(width > 0 && height > 0 && size == width * height * 3)
  {}

  // Every accepted carrier has a form.
  lemma FormExists(data: seq<Byte>, kernel: StegoType, bits: nat, width: nat, height: nat, embeddedLen: nat)
    returns (c: seq<Byte>)
    requires Refusal(kernel, |data|, bits, width, height, embeddedLen).None?
    ensures IsCanonical(Owned(kernel, |data|, bits, width, height, embeddedLen), data, c)
  {
    hide Masked, IsCanonical;
    var owned := Owned(kernel, |data|, bits, width, height, embeddedLen);
    var low := if bits <= 4 then bits else 0;
    c := seq(|data|, p requires 0 <= p < |data| =>
      if owned(p, 7) then 0 else if owned(p, 0) then Masked(data[p], low) else data[p]);
    MaskedIsCanonical(owned, low, data, c);
  }
}
