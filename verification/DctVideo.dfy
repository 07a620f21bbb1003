/** The staged block embedder of dct_video.rs, over an abstract transform. */
module DctVideo {
  import opened Results
  import opened Arithmetic
  import opened GaloisField
  import opened UnitBits
  import opened BitStreams
  import opened SignaturePayloads
  import opened SignatureStream
  import opened LsbVideo
  import opened DctGeometry
  import opened CarrierBinding

  const MIN_QUANT_STEP := 8

  const ZERO_BLOCK: seq<Byte> := [
    0, 0, 0, 0, 0, 0, 0, 0, 0, 0, 0, 0, 0, 0, 0, 0, 0, 0, 0, 0, 0, 0, 0, 0, 0, 0, 0, 0, 0, 0, 0, 0,
    0, 0, 0, 0, 0, 0, 0, 0, 0, 0, 0, 0, 0, 0, 0, 0, 0, 0, 0, 0, 0, 0, 0, 0, 0, 0, 0, 0, 0, 0, 0, 0]

  // Sixty-four pixel values, row by row.
  type Block = b: seq<Byte> | |b| == 64 witness ZERO_BLOCK

  // The floating-point part: the block restored after its coefficient was moved for a bit, and the bit that
  // the coefficient of a block stands for. Nothing is assumed of either.
  datatype Transform = Transform(restore: (Block, bool) -> Block, decide: Block -> bool)

  datatype DctError = StepTooSmall | InvalidLayout | NotEnoughBlocks | BitCannotSurvive(payloadBit: nat)

  // --- payload bits, least significant first ------------------------------------------------------

  function LowFirstBit(bytes: seq<Byte>, i: nat): bool
    requires i < 8 * |bytes|
  {
    BitAt(bytes[i / 8], i % 8)
  }

  // The byte that the first `count` of eight bits of f set, lowest first.
  function Collect(f: nat -> bool, start: nat, count: nat): Byte
    requires count <= 8
  {
    if count == 0 then 0 else Collect(f, start, count - 1) | ShiftBit(f(start + count - 1), count - 1)
  }

  lemma {:induction false} CollectBits(f: nat -> bool, start: nat, count: nat, s: nat)
    requires count <= 8 && s < 8
    ensures BitAt(Collect(f, start, count), s) == (s < count && f(start + s))
  {
    hide BitAt, ShiftBit;
    if count == 0 {
      ZeroBits(s);
    } else {
      CollectBits(f, start, count - 1, s);
      OrBit(Collect(f, start, count - 1), f(start + count - 1), count - 1, s);
    }
  }

  lemma CollectOnce(f: nat -> bool, start: nat, count: nat)
    requires count < 8
    ensures Collect(f, start, 0) == 0
    ensures Collect(f, start, count + 1)
         == if f(start + count) then Collect(f, start, count) | ShiftBit(true, count) else Collect(f, start, count)
  {
    hide ShiftBit;
    OrNothing(Collect(f, start, count), count);
  }

  // Equal bits collect to equal bytes.
  lemma {:induction false} CollectCongruent(f: nat -> bool, g: nat -> bool, start: nat, count: nat)
    requires count <= 8 && forall i: nat :: start <= i < start + count ==> f(i) == g(i)
    ensures Collect(f, start, count) == Collect(g, start, count)
  {
    hide ShiftBit;
    if count > 0 {
      CollectCongruent(f, g, start, count - 1);
    }
  }

  // Bytes whose bits f lists, lowest first, are collected from f.
  lemma CollectedBytes(f: nat -> bool, bytes: seq<Byte>, j: nat)
    requires j < |bytes| && forall i: nat :: i < 8 * |bytes| ==> f(i) == LowFirstBit(bytes, i)
    ensures Collect(f, 8 * j, 8) == bytes[j]
  {
    hide BitAt, Collect;
    forall s {:trigger BitAt(bytes[j], s)} | 0 <= s < 8
      ensures BitAt(Collect(f, 8 * j, 8), s) == BitAt(bytes[j], s)
    {
      CollectBits(f, 8 * j, 8, s);
      assert f(8 * j + s) == LowFirstBit(bytes, 8 * j + s);
    }
    ByteExtensional(Collect(f, 8 * j, 8), bytes[j]);
  }

  // --- blocks -----------------------------------------------------------------------------------

  // Pixel k of a block, zero outside the carrier.
  function PixelAt(g: Grid, data: seq<Byte>, k: nat): Byte
    requires g.blocksX > 0
  {
    if OffsetAt(g, k) < |data| then data[OffsetAt(g, k)] else 0
  }

  function BlockAt(g: Grid, data: seq<Byte>, block: nat): Block
    requires g.blocksX > 0
  {
    seq(64, k requires 0 <= k < 64 => PixelAt(g, data, 64 * block + k))
  }

  method ReadBlock(g: Grid, data: seq<Byte>, block: nat) returns (r: Block)
    requires g.blocksX > 0
    ensures r == BlockAt(g, data, block)
  {
    hide BlockOffset, OffsetAt;
    var pixels: seq<Byte> := [];
    for i := 0 to 8
      invariant |pixels| == 8 * i
      invariant forall k :: 0 <= k < |pixels| ==> pixels[k] == PixelAt(g, data, 64 * block + k)
    {
      for j := 0 to 8
        invariant |pixels| == 8 * i + j
        invariant forall k :: 0 <= k < |pixels| ==> pixels[k] == PixelAt(g, data, 64 * block + k)
      {
        OffsetAtPixel(g, block, i, j);
        var offset := BlockOffset(g, block, i, j);
        var pixel: Byte := if offset < |data| then data[offset] else 0;
        pixels := pixels + [pixel];
      }
    }
    r := pixels;
  }

  // The blocks are in their places and no other byte changed.
  ghost predicate Stamped(g: Grid, before: seq<Byte>, staged: seq<Block>, after: seq<Byte>)
    requires g.blocksX > 0
  {
    && |after| == |before|
    && (forall k: nat :: k < 64 * |staged| ==> PixelAt(g, after, k) == staged[k / 64][k % 64])
    && (forall p: nat :: p < |before| && !Touched(g, 64 * |staged|, p) ==> after[p] == before[p])
  }

  // Where the first n pixels were written.
  ghost predicate Written(g: Grid, before: seq<Byte>, staged: seq<Block>, n: nat, after: seq<Byte>)
    requires g.blocksX > 0 && n <= 64 * |staged|
  {
    && |after| == |before|
    && (forall k: nat :: k < n ==> OffsetAt(g, k) < |after| && after[OffsetAt(g, k)] == staged[k / 64][k % 64])
    && (forall p: nat :: p < |before| && !Touched(g, n, p) ==> after[p] == before[p])
  }

  lemma WrittenOnce(g: Grid, before: seq<Byte>, staged: seq<Block>, n: nat, after: seq<Byte>)
    requires ValidGrid(g) && n < 64 * |staged| && Written(g, before, staged, n, after) && OffsetAt(g, n) < |after|
    ensures Written(g, before, staged, n + 1, after[OffsetAt(g, n) := staged[n / 64][n % 64]])
  {
    hide OffsetAt, Touched;
    var p := OffsetAt(g, n);
    forall k: nat | k < n
      ensures OffsetAt(g, k) != p
    {
      if OffsetAt(g, k) == p {
        OffsetAtDistinct(g, k, n);
      }
    }
    forall q: nat
      ensures Touched(g, n + 1, q) <==> Touched(g, n, q) || q == p
    {
      TouchedNext(g, n, q);
    }
    var next := after[p := staged[n / 64][n % 64]];
    forall k: nat | k < n + 1
      ensures OffsetAt(g, k) < |next| && next[OffsetAt(g, k)] == staged[k / 64][k % 64]
    {
      if k < n {
        assert after[OffsetAt(g, k)] == staged[k / 64][k % 64];
      }
    }
    forall q: nat | q < |before| && !Touched(g, n + 1, q)
      ensures next[q] == before[q]
    {
      assert after[q] == before[q];
    }
  }

  method WriteBlocks(data: array<Byte>, g: Grid, staged: seq<Block>)
    requires GridFits(g, |staged|, data.Length)
    modifies data
    ensures Stamped(g, old(data[..]), staged, data[..])
  {
    hide BlockOffset, OffsetAt, Touched, Written;
    ghost var before := data[..];
    WrittenNone(g, before, staged);
    for block := 0 to |staged|
      invariant Written(g, before, staged, 64 * block, data[..])
    {
      for i := 0 to 8
        invariant Written(g, before, staged, 64 * block + 8 * i, data[..])
      {
        for j := 0 to 8
          invariant Written(g, before, staged, 64 * block + 8 * i + j, data[..])
        {
          ghost var n := 64 * block + 8 * i + j;
          OffsetAtPixel(g, block, i, j);
          OffsetAtFits(g, |staged|, data.Length, n);
          WrittenOnce(g, before, staged, n, data[..]);
          data[BlockOffset(g, block, i, j)] := staged[block][8 * i + j];
        }
      }
    }
    WrittenIsStamped(g, before, staged, data[..]);
  }

  lemma WrittenNone(g: Grid, before: seq<Byte>, staged: seq<Block>)
    requires g.blocksX > 0
    ensures Written(g, before, staged, 0, before)
  {}

  lemma WrittenIsStamped(g: Grid, before: seq<Byte>, staged: seq<Block>, after: seq<Byte>)
    requires g.blocksX > 0 && Written(g, before, staged, 64 * |staged|, after)
    ensures Stamped(g, before, staged, after)
  {
    hide OffsetAt, Touched;
  }

  // A stamped block is read back as it was staged.
  lemma StampedBlock(g: Grid, before: seq<Byte>, staged: seq<Block>, after: seq<Byte>, block: nat)
    requires g.blocksX > 0 && Stamped(g, before, staged, after) && block < |staged|
    ensures BlockAt(g, after, block) == staged[block]
  {
    hide PixelAt, Touched;
    var b: seq<Byte> := BlockAt(g, after, block);
    var s: seq<Byte> := staged[block];
    forall k | 0 <= k < 64
      ensures b[k] == s[k]
    {
      assert PixelAt(g, after, 64 * block + k) == staged[(64 * block + k) / 64][(64 * block + k) % 64];
    }
    assert b == s;
  }

  // Where every staged block is the old one, a stamped pixel is the old pixel.
  lemma StampedSame(g: Grid, before: seq<Byte>, staged: seq<Block>, after: seq<Byte>, p: nat)
    requires g.blocksX > 0 && Stamped(g, before, staged, after) && p < |before| && Touched(g, 64 * |staged|, p)
    requires forall i :: 0 <= i < |staged| ==> staged[i] == BlockAt(g, before, i)
    ensures after[p] == before[p]
  {
    hide OffsetAt;
    var k: nat :| k < 64 * |staged| && p == OffsetAt(g, k);
    var block, pixel := k / 64, k % 64;
    assert 64 * block + pixel == k;
    assert staged[block] == BlockAt(g, before, block);
    assert BlockAt(g, before, block)[pixel] == PixelAt(g, before, k);
    assert PixelAt(g, after, k) == staged[block][pixel];
  }

  lemma MagicBits()
    ensures BitAt(MAGIC[0], 0) && !BitAt(MAGIC[0], 2)
  {}

  // --- the kernel -------------------------------------------------------------------------------

  class Kernel {
    const transform: Transform
    const quantStep: int
    const channel: nat

    ghost predicate Valid() {
      quantStep > 0 && channel < 3
    }

    constructor (transform: Transform, quantStep: int, channel: nat)
      requires quantStep > 0 && channel < 3
      ensures Valid() && this.transform == transform && this.quantStep == quantStep && this.channel == channel
    {
      this.transform := transform;
      this.quantStep := quantStep;
      this.channel := channel;
    }

    function GridOf(layout: Layout): Grid {
      Grid(layout.width / 8, layout.stride, layout.BytesPerPixel(), channel)
    }

    predicate EnoughBlocks(layout: Layout) {
      (layout.width / 8) * (layout.height / 8) >= PAYLOAD_BITS
    }

    lemma GridValid(layout: Layout, size: nat)
      requires Valid() && layout.ValidPacked(size) && EnoughBlocks(layout)
      ensures GridOf(layout).blocksX > 0 && GridFits(GridOf(layout), PAYLOAD_BITS, size)
    {
      var g := GridOf(layout);
      ProductPositive(layout.width / 8, layout.height / 8);
      MulMonotone(8 * g.blocksX, layout.width, g.bpp);
      FrameGridFits(g, layout.width, layout.height, PAYLOAD_BITS, size);
    }

    // The block that payload bit i would leave behind.
    function Candidate(g: Grid, data: seq<Byte>, bytes: seq<Byte>, i: nat): Block
      requires g.blocksX > 0 && i < 8 * |bytes|
    {
      transform.restore(BlockAt(g, data, i), LowFirstBit(bytes, i))
    }

    // Every bit survives integer reconstruction.
    ghost predicate AllSurvive(g: Grid, data: seq<Byte>, bytes: seq<Byte>)
      requires g.blocksX > 0
    {
      forall i: nat :: i < 8 * |bytes| ==> transform.decide(Candidate(g, data, bytes, i)) == LowFirstBit(bytes, i)
    }

    ghost predicate Embeddable(layout: Layout, data: seq<Byte>, payload: seq<Byte>) {
      && quantStep >= MIN_QUANT_STEP
      && layout.ValidPacked(|data|)
      && EnoughBlocks(layout)
      && GridOf(layout).blocksX > 0
      && AllSurvive(GridOf(layout), data, payload)
    }

    // The frame after an embed: the candidates are stamped and nothing else changed.
    ghost predicate Marked(layout: Layout, before: seq<Byte>, payload: seq<Byte>, after: seq<Byte>)
      requires GridOf(layout).blocksX > 0
    {
      var g := GridOf(layout);
      Stamped(g, before,
        seq(8 * |payload|, i requires 0 <= i < 8 * |payload| => Candidate(g, before, payload, i)), after)
    }

    // Bit i is the first that does not survive.
    ghost predicate FirstLost(g: Grid, data: seq<Byte>, bytes: seq<Byte>, i: nat)
      requires g.blocksX > 0 && i < 8 * |bytes|
    {
      && transform.decide(Candidate(g, data, bytes, i)) != LowFirstBit(bytes, i)
      && forall k: nat :: k < i ==> transform.decide(Candidate(g, data, bytes, k)) == LowFirstBit(bytes, k)
    }

    // All blocks, or the first bit that does not survive.
    method Stage(g: Grid, data: seq<Byte>, bytes: seq<Byte>) returns (r: Result<seq<Block>, DctError>)
      requires g.blocksX > 0
      ensures r.Ok? <==> AllSurvive(g, data, bytes)
      ensures r.Ok? ==> r.value == seq(8 * |bytes|, i requires 0 <= i < 8 * |bytes| => Candidate(g, data, bytes, i))
      ensures r.Err? ==> exists i: nat :: i < 8 * |bytes| && FirstLost(g, data, bytes, i) && r.error == BitCannotSurvive(i)
    {
      hide BlockAt, BitAt;
      var staged: seq<Block> := [];
      for byteIndex := 0 to |bytes|
        invariant |staged| == 8 * byteIndex
        invariant forall k: nat :: k < |staged| ==>
          staged[k] == Candidate(g, data, bytes, k) && transform.decide(staged[k]) == LowFirstBit(bytes, k)
      {
        for bitInByte := 0 to 8
          invariant |staged| == 8 * byteIndex + bitInByte
          invariant forall k: nat :: k < |staged| ==>
            staged[k] == Candidate(g, data, bytes, k) && transform.decide(staged[k]) == LowFirstBit(bytes, k)
        {
          var bit := BitAt(bytes[byteIndex], bitInByte);
          var payloadBit := 8 * byteIndex + bitInByte;
          assert payloadBit / 8 == byteIndex && payloadBit % 8 == bitInByte;
          var block := ReadBlock(g, data, payloadBit);
          var restored := transform.restore(block, bit);
          assert restored == Candidate(g, data, bytes, payloadBit);
          if transform.decide(restored) != bit {
            assert FirstLost(g, data, bytes, payloadBit);
            return Err(BitCannotSurvive(payloadBit));
          }
          staged := staged + [restored];
        }
      }
      r := Ok(staged);
    }

    // All or nothing: a frame is changed only when every bit survives.
    method Embed(frame: VideoFrame, sig: Option<SignaturePayload>) returns (r: Result<(), DctError>)
      requires Valid() && (sig.Some? ==> sig.value.Valid())
      modifies frame.data
      ensures r.Ok? <==> sig.None? || old(Embeddable(frame.layout, frame.data[..], ToBytes(sig.value)))
      ensures sig.None? || r.Err? ==> frame.data[..] == old(frame.data[..])
      ensures sig.Some? && quantStep < 8 ==> r == Err(StepTooSmall)
      ensures sig.Some? && quantStep >= 8 && !frame.layout.ValidPacked(frame.data.Length) ==> r == Err(DctError.InvalidLayout)
      ensures sig.Some? && quantStep >= 8 && frame.layout.ValidPacked(frame.data.Length) ==>
        (r == Err(DctError.NotEnoughBlocks) <==> (frame.layout.width / 8) * (frame.layout.height / 8) < 872)
      ensures sig.Some? && r.Err? && r.error.BitCannotSurvive? ==>
        |ToBytes(sig.value)| == 109 && r.error.payloadBit < 872 && GridOf(frame.layout).blocksX > 0
        && old(FirstLost(GridOf(frame.layout), frame.data[..], ToBytes(sig.value), r.error.payloadBit))
      ensures sig.Some? && r.Ok? ==>
        GridOf(frame.layout).blocksX > 0
        && Marked(frame.layout, old(frame.data[..]), ToBytes(sig.value), frame.data[..])
    {
      hide ToBytes, AllSurvive, Stamped, Candidate, FirstLost;
      if sig.None? {
        return Ok(());
      }
      if quantStep < MIN_QUANT_STEP {
        return Err(StepTooSmall);
      }
      if !frame.layout.ValidPacked(frame.data.Length) {
        return Err(DctError.InvalidLayout);
      }
      PayloadRoundTrip(sig.value);
      if (frame.layout.width / 8) * (frame.layout.height / 8) < PAYLOAD_BITS {
        return Err(DctError.NotEnoughBlocks);
      }
      GridValid(frame.layout, frame.data.Length);
      var staged := Stage(GridOf(frame.layout), frame.data[..], ToBytes(sig.value));
      if staged.Err? {
        return Err(staged.error);
      }
      WriteBlocks(frame.data, GridOf(frame.layout), staged.value);
      r := Ok(());
    }

    // The bits that the blocks stand for.
    function Decisions(g: Grid, data: seq<Byte>): nat -> bool
      requires g.blocksX > 0
    {
      (i: nat) => transform.decide(BlockAt(g, data, i))
    }

    function DecodedBytes(g: Grid, data: seq<Byte>): (bytes: seq<Byte>)
      requires g.blocksX > 0
      ensures |bytes| == SERIALIZED_SIZE
    {
      seq(SERIALIZED_SIZE, j requires 0 <= j < SERIALIZED_SIZE => Collect(Decisions(g, data), 8 * j, 8))
    }

    // What extraction finds, as a function of the frame.
    function Extraction(layout: Layout, data: seq<Byte>): Result<Option<SignaturePayload>, DctError> {
      if !layout.ValidPacked(|data|) then Err(DctError.InvalidLayout)
      else if !EnoughBlocks(layout) || GridOf(layout).blocksX == 0 then Ok(None)
      else
        var parsed := FromBytes(DecodedBytes(GridOf(layout), data));
        if parsed.Ok? then Ok(Some(parsed.value)) else Ok(None)
    }

    predicate HasValidMagic(bytes: seq<Byte>) {
      |bytes| >= 5 && bytes[0..4] == MAGIC && bytes[4] == FORMAT_VERSION
    }

    method Extract(frame: VideoFrame) returns (r: Result<Option<SignaturePayload>, DctError>)
      requires Valid()
      ensures r == Extraction(frame.layout, frame.data[..])
    {
      hide Collect, BlockAt, ShiftBit, FromLittleEndian;
      if !frame.layout.ValidPacked(frame.data.Length) {
        return Err(DctError.InvalidLayout);
      }
      if (frame.layout.width / 8) * (frame.layout.height / 8) < PAYLOAD_BITS {
        return Ok(None);
      }
      GridValid(frame.layout, frame.data.Length);
      var g := GridOf(frame.layout);
      var data := frame.data[..];
      ghost var f := Decisions(g, data);
      var payloadBytes: seq<Byte> := seq(SERIALIZED_SIZE, j => 0);
      for j := 0 to SERIALIZED_SIZE
        invariant |payloadBytes| == SERIALIZED_SIZE
        invariant forall t :: 0 <= t < j ==> payloadBytes[t] == Collect(f, 8 * t, 8)
        invariant forall t :: j <= t < SERIALIZED_SIZE ==> payloadBytes[t] == 0
      {
        CollectOnce(f, 8 * j, 0);
        for bitInByte := 0 to 8
          invariant |payloadBytes| == SERIALIZED_SIZE
          invariant forall t :: 0 <= t < j ==> payloadBytes[t] == Collect(f, 8 * t, 8)
          invariant payloadBytes[j] == Collect(f, 8 * j, bitInByte)
          invariant forall t :: j < t < SERIALIZED_SIZE ==> payloadBytes[t] == 0
        {
          CollectOnce(f, 8 * j, bitInByte);
          var block := ReadBlock(g, data, 8 * j + bitInByte);
          if transform.decide(block) {
            payloadBytes := payloadBytes[j := payloadBytes[j] | ShiftBit(true, bitInByte)];
          }
        }
      }
      assert payloadBytes == DecodedBytes(g, data);
      if !HasValidMagic(payloadBytes) {
        return Ok(None);
      }
      var parsed := FromBytes(payloadBytes);
      r := Ok(Some(parsed.value));
    }

    // A successful embed is always read back, whatever the transform does.
    lemma RoundTrip(layout: Layout, before: seq<Byte>, payload: SignaturePayload, after: seq<Byte>)
      requires Valid() && payload.Valid() && Embeddable(layout, before, ToBytes(payload))
      requires Marked(layout, before, ToBytes(payload), after)
      ensures Extraction(layout, after) == Ok(Some(payload))
    {
      hide ToBytes, FromBytes, BlockAt, Collect, BitAt, LowFirstBit;
      PayloadRoundTrip(payload);
      var g, bytes := GridOf(layout), ToBytes(payload);
      var staged := seq(8 * |bytes|, i requires 0 <= i < 8 * |bytes| => Candidate(g, before, bytes, i));
      var f := Decisions(g, after);
      forall i: nat | i < 8 * |bytes|
        ensures f(i) == LowFirstBit(bytes, i)
      {
        StampedBlock(g, before, staged, after, i);
      }
      forall j | 0 <= j < |bytes|
        ensures DecodedBytes(g, after)[j] == bytes[j]
      {
        CollectedBytes(f, bytes, j);
      }
      assert DecodedBytes(g, after) == bytes;
    }

    // Pixel (x, y) of a frame is pixel (x mod 8, y mod 8) of its block, and blocks are counted row by row.
    lemma BlockPixel(layout: Layout, data: seq<Byte>, x: nat, y: nat, block: nat, p: nat)
      requires Valid() && layout.ValidPacked(|data|) && (layout.width / 8) * (layout.height / 8) >= 872
      requires GridOf(layout).blocksX > 0 && x < 8 * (layout.width / 8)
      requires block == (y / 8) * (layout.width / 8) + x / 8 && block < 872
      requires p == y * layout.stride + x * (if layout.format == Bgra8 then 4 else 3) + channel
      ensures p < |data| && BlockAt(GridOf(layout), data, block)[8 * (y % 8) + x % 8] == data[p]
    {
      hide BlockOffset, GridFits, PixelAt;
      GridValid(layout, |data|);
      var g := GridOf(layout);
      PixelOffset(g, x, y, block);
      OffsetFits(g, PAYLOAD_BITS, |data|, block, y % 8, x % 8);
      PixelInBlock(g, data, block, y % 8, x % 8);
    }

    // Every payload bit, lowest of each byte first, survives in its block.
    ghost predicate BitsSurvive(g: Grid, data: seq<Byte>, payload: seq<Byte>)
      requires g.blocksX > 0 && |payload| == 109
    {
      forall j: nat, s: nat :: j < 109 && s < 8 ==>
        transform.decide(transform.restore(BlockAt(g, data, 8 * j + s), BitAt(payload[j], s))) == BitAt(payload[j], s)
    }

    lemma SurviveExactly(g: Grid, data: seq<Byte>, payload: seq<Byte>)
      requires g.blocksX > 0 && |payload| == 109
      ensures AllSurvive(g, data, payload) <==> BitsSurvive(g, data, payload)
    {
      hide BlockAt, BitAt;
      if AllSurvive(g, data, payload) {
        forall j: nat, s: nat | j < 109 && s < 8
          ensures transform.decide(transform.restore(BlockAt(g, data, 8 * j + s), BitAt(payload[j], s))) == BitAt(payload[j], s)
        {
          var i := 8 * j + s;
          assert transform.decide(Candidate(g, data, payload, i)) == LowFirstBit(payload, i);
        }
      }
      if BitsSurvive(g, data, payload) {
        forall i: nat | i < 872
          ensures transform.decide(Candidate(g, data, payload, i)) == LowFirstBit(payload, i)
        {
          var j, s := i / 8, i % 8;
          assert i == 8 * j + s;
        }
      }
    }

    // A frame can be embedded into exactly when the step is 8 at least, the layout packed, 872 blocks there, and every
    // bit survives.
    lemma EmbeddableExactly(layout: Layout, data: seq<Byte>, payload: seq<Byte>)
      requires Valid() && |payload| == 109
      ensures Embeddable(layout, data, payload) <==>
        && quantStep >= 8 && layout.ValidPacked(|data|) && (layout.width / 8) * (layout.height / 8) >= 872
        && GridOf(layout).blocksX > 0 && BitsSurvive(GridOf(layout), data, payload)
    {
      hide AllSurvive, BitsSurvive;
      if GridOf(layout).blocksX > 0 {
        SurviveExactly(GridOf(layout), data, payload);
      }
    }

    // After an embed block 8 j + s shows bit s of byte j, restored from the block that was there.
    lemma MarkedBlocks(layout: Layout, before: seq<Byte>, payload: seq<Byte>, after: seq<Byte>, j: nat, s: nat)
      requires GridOf(layout).blocksX > 0 && |payload| == 109 && Marked(layout, before, payload, after) && j < 109 && s < 8
      ensures BlockAt(GridOf(layout), after, 8 * j + s)
           == transform.restore(BlockAt(GridOf(layout), before, 8 * j + s), BitAt(payload[j], s))
      ensures forall p: nat :: p < |before| && !InBlocks(GridOf(layout), 872, p) ==> after[p] == before[p]
    {
      hide BlockAt, BitAt, PixelAt, Touched;
      var g := GridOf(layout);
      var staged := seq(8 * |payload|, i requires 0 <= i < 8 * |payload| => Candidate(g, before, payload, i));
      StampedBlock(g, before, staged, after, 8 * j + s);
    }

    // A payload is found exactly in a packed frame of 872 blocks that decide its bits, lowest of each byte first.
    lemma ExtractsExactly(layout: Layout, data: seq<Byte>, p: SignaturePayload)
      requires Valid() && p.Valid()
      ensures |ToBytes(p)| == 109
      ensures Extraction(layout, data) == Err(DctError.InvalidLayout) <==> !layout.ValidPacked(|data|)
      ensures Extraction(layout, data) == Ok(Some(p)) <==>
        && layout.ValidPacked(|data|) && (layout.width / 8) * (layout.height / 8) >= 872 && GridOf(layout).blocksX > 0
        && forall j: nat, s: nat :: j < 109 && s < 8 ==>
             transform.decide(BlockAt(GridOf(layout), data, 8 * j + s)) == BitAt(ToBytes(p)[j], s)
    {
      hide BlockAt, BitAt, Collect, ToBytes, FromBytes;
      PayloadRoundTrip(p);
      if GridOf(layout).blocksX > 0 {
        var g, bytes := GridOf(layout), ToBytes(p);
        var found, f := DecodedBytes(g, data), Decisions(g, data);
        ParsedPayload(found);
        forall j: nat, s: nat | j < 109 && s < 8
          ensures BitAt(found[j], s) == transform.decide(BlockAt(g, data, 8 * j + s))
        {
          CollectBits(f, 8 * j, 8, s);
        }
        if forall j: nat, s: nat :: j < 109 && s < 8 ==> transform.decide(BlockAt(g, data, 8 * j + s)) == BitAt(bytes[j], s) {
          forall p: nat, s: nat | p < |found| && s < 8
            ensures BitAt(found[p], s) == BitAt(bytes[p], s)
          {}
          SameBits(found, bytes);
        }
      }
    }

    // On packed RGB and the green channel an embed does not change what is bound.
    lemma EmbedSurvives(layout: Layout, before: seq<Byte>, payload: seq<Byte>, after: seq<Byte>, bits: nat,
                        embeddedLen: nat, c: seq<Byte>)
      requires Valid() && channel == 1 && layout.format == Rgb8 && layout.stride == 3 * layout.width && layout.width >= 8
      requires |payload| == SERIALIZED_SIZE && Marked(layout, before, payload, after)
      requires IsCanonical(Owned(StegoType.DctVideo, |before|, bits, layout.width, layout.height, embeddedLen), before, c)
      ensures IsCanonical(Owned(StegoType.DctVideo, |before|, bits, layout.width, layout.height, embeddedLen), after, c)
    {
      hide BitAt, Candidate, Touched, PixelAt, IsCanonical;
      var owned := Owned(StegoType.DctVideo, |before|, bits, layout.width, layout.height, embeddedLen);
      var g := GridOf(layout);
      assert g == Grid(layout.width / 8, 3 * layout.width, 3, 1);
      var staged := seq(8 * |payload|, i requires 0 <= i < 8 * |payload| => Candidate(g, before, payload, i));
      assert Stamped(g, before, staged, after);
      forall p: nat, s: nat | p < |before| && s < 8 && !owned(p, s)
        ensures BitAt(before[p], s) == BitAt(after[p], s)
      {
        assert !InBlocks(g, |staged|, p);
        assert after[p] == before[p];
      }
      assert AgreeOutside(owned, before, after);
      CanonicalSurvives(owned, before, after, c);
    }

    // The canonical form covers the green channel only: on another channel binding survives an embed exactly
    // when the embed changed nothing.
    lemma OtherChannelsUnbound(layout: Layout, before: seq<Byte>, payload: seq<Byte>, after: seq<Byte>, bits: nat,
                               embeddedLen: nat, c: seq<Byte>)
      requires Valid() && channel != 1 && layout.format == Rgb8 && layout.stride == 3 * layout.width && layout.width >= 8
      requires |payload| == SERIALIZED_SIZE && Marked(layout, before, payload, after)
      requires IsCanonical(Owned(StegoType.DctVideo, |before|, bits, layout.width, layout.height, embeddedLen), before, c)
      ensures IsCanonical(Owned(StegoType.DctVideo, |before|, bits, layout.width, layout.height, embeddedLen), after, c)
              <==> after == before
    {
      hide BitAt, Candidate, Touched, PixelAt, IsCanonical;
      var owned := Owned(StegoType.DctVideo, |before|, bits, layout.width, layout.height, embeddedLen);
      var g := GridOf(layout);
      var staged := seq(8 * |payload|, i requires 0 <= i < 8 * |payload| => Candidate(g, before, payload, i));
      assert Stamped(g, before, staged, after);
      if IsCanonical(owned, after, c) {
        CanonicalSeparates(owned, before, after, c, c);
        forall p: nat, s: nat | p < |before| && s < 8
          ensures BitAt(before[p], s) == BitAt(after[p], s)
        {
          if Touched(g, 64 * |staged|, p) {
            var green := Grid(layout.width / 8, 3 * layout.width, 3, 1);
            ChannelsApart(g, green, 64 * |staged|, p);
            assert !InBlocks(green, |staged|, p);
          }
        }
        SameBits(before, after);
      }
    }

    // Every payload block already shows what the embed would leave there.
    ghost predicate NothingToChange(layout: Layout, data: seq<Byte>, payload: seq<Byte>)
      requires GridOf(layout).blocksX > 0
    {
      forall i: nat :: i < 8 * |payload| ==>
        Candidate(GridOf(layout), data, payload, i) == BlockAt(GridOf(layout), data, i)
    }

    // Whether an embed changes anything can be told before it.
    lemma ChangesNothingExactly(layout: Layout, before: seq<Byte>, payload: seq<Byte>, after: seq<Byte>)
      requires Valid() && layout.ValidPacked(|before|) && EnoughBlocks(layout) && |payload| == SERIALIZED_SIZE
      requires GridOf(layout).blocksX > 0 && Marked(layout, before, payload, after)
      ensures after == before <==> NothingToChange(layout, before, payload)
    {
      hide BlockAt, Candidate, PixelAt, Touched;
      GridValid(layout, |before|);
      var g := GridOf(layout);
      var staged := seq(8 * |payload|, i requires 0 <= i < 8 * |payload| => Candidate(g, before, payload, i));
      if after == before {
        forall i: nat | i < 8 * |payload|
          ensures Candidate(g, before, payload, i) == BlockAt(g, before, i)
        {
          StampedBlock(g, before, staged, after, i);
        }
      }
      if NothingToChange(layout, before, payload) {
        forall p | 0 <= p < |before|
          ensures after[p] == before[p]
        {
          if Touched(g, 64 * |staged|, p) {
            StampedSame(g, before, staged, after, p);
          }
        }
      }
    }

    // Binding survives an embed on packed RGB exactly on the green channel or where there is nothing to change.
    lemma BindingSurvivesExactly(layout: Layout, before: seq<Byte>, payload: seq<Byte>, after: seq<Byte>, bits: nat,
                                 embeddedLen: nat, c: seq<Byte>)
      requires Valid() && layout.ValidPacked(|before|) && EnoughBlocks(layout) && |payload| == SERIALIZED_SIZE
      requires layout.format == Rgb8 && layout.stride == 3 * layout.width
      requires GridOf(layout).blocksX > 0 && Marked(layout, before, payload, after)
      requires IsCanonical(Owned(StegoType.DctVideo, |before|, bits, layout.width, layout.height, embeddedLen), before, c)
      ensures IsCanonical(Owned(StegoType.DctVideo, |before|, bits, layout.width, layout.height, embeddedLen), after, c)
              <==> channel == 1 || NothingToChange(layout, before, payload)
    {
      hide IsCanonical, Marked, NothingToChange;
      if channel == 1 {
        EmbedSurvives(layout, before, payload, after, bits, embeddedLen, c);
      } else {
        OtherChannelsUnbound(layout, before, payload, after, bits, embeddedLen, c);
        ChangesNothingExactly(layout, before, payload, after);
      }
    }

    // Outside the green channel binding survives only in a frame that carried the payload all along.
    lemma SurvivorsCarryAlready(layout: Layout, before: seq<Byte>, payload: SignaturePayload, after: seq<Byte>,
                                bits: nat, embeddedLen: nat, c: seq<Byte>)
      requires Valid() && channel != 1 && payload.Valid() && Embeddable(layout, before, ToBytes(payload))
      requires layout.format == Rgb8 && layout.stride == 3 * layout.width && Marked(layout, before, ToBytes(payload), after)
      requires IsCanonical(Owned(StegoType.DctVideo, |before|, bits, layout.width, layout.height, embeddedLen), before, c)
      ensures IsCanonical(Owned(StegoType.DctVideo, |before|, bits, layout.width, layout.height, embeddedLen), after, c)
              ==> Extraction(layout, before) == Ok(Some(payload))
    {
      hide IsCanonical, Marked, ToBytes, Extraction, AllSurvive;
      PayloadRoundTrip(payload);
      OtherChannelsUnbound(layout, before, ToBytes(payload), after, bits, embeddedLen, c);
      RoundTrip(layout, before, payload, after);
    }

    // No frame with equal first and third blocks carries a payload: bits 0 and 2 of the magic byte differ.
    lemma EqualBlocksCarryNothing(layout: Layout, data: seq<Byte>, payload: SignaturePayload)
      requires GridOf(layout).blocksX > 0 && BlockAt(GridOf(layout), data, 0) == BlockAt(GridOf(layout), data, 2)
      ensures Extraction(layout, data) != Ok(Some(payload))
    {
      hide BlockAt, Collect, FromLittleEndian, BitAt;
      var g := GridOf(layout);
      var bytes, f := DecodedBytes(g, data), Decisions(g, data);
      assert f(0) == f(2);
      CollectBits(f, 0, 8, 0);
      CollectBits(f, 0, 8, 2);
      assert BitAt(bytes[0], 0) == BitAt(bytes[0], 2);
      MagicBits();
      assert bytes[0..4][0] == bytes[0];
    }

    // So on such a frame every embed outside the green channel breaks the binding, whatever the transform.
    lemma EqualBlocksUnbind(layout: Layout, before: seq<Byte>, payload: SignaturePayload, after: seq<Byte>, bits: nat,
                            embeddedLen: nat, c: seq<Byte>)
      requires Valid() && channel != 1 && payload.Valid() && Embeddable(layout, before, ToBytes(payload))
      requires layout.format == Rgb8 && layout.stride == 3 * layout.width && Marked(layout, before, ToBytes(payload), after)
      requires BlockAt(GridOf(layout), before, 0) == BlockAt(GridOf(layout), before, 2)
      requires IsCanonical(Owned(StegoType.DctVideo, |before|, bits, layout.width, layout.height, embeddedLen), before, c)
      ensures !IsCanonical(Owned(StegoType.DctVideo, |before|, bits, layout.width, layout.height, embeddedLen), after, c)
    {
      hide IsCanonical, Marked, ToBytes, Extraction, BlockAt, AllSurvive;
      SurvivorsCarryAlready(layout, before, payload, after, bits, embeddedLen, c);
      EqualBlocksCarryNothing(layout, before, payload);
    }

    // A frame of one grey value has equal blocks. Mid-grey is the one that the kernel's own round trip uses.
    lemma GreyFrameUnbinds(layout: Layout, before: seq<Byte>, grey: Byte, payload: SignaturePayload, after: seq<Byte>,
                           bits: nat, embeddedLen: nat, c: seq<Byte>)
      requires Valid() && channel != 1 && payload.Valid() && Embeddable(layout, before, ToBytes(payload))
      requires layout.format == Rgb8 && layout.stride == 3 * layout.width && Marked(layout, before, ToBytes(payload), after)
      requires forall p :: 0 <= p < |before| ==> before[p] == grey
      requires IsCanonical(Owned(StegoType.DctVideo, |before|, bits, layout.width, layout.height, embeddedLen), before, c)
      ensures !IsCanonical(Owned(StegoType.DctVideo, |before|, bits, layout.width, layout.height, embeddedLen), after, c)
    {
      hide IsCanonical, Marked, ToBytes, AllSurvive, OffsetAt;
      GridValid(layout, |before|);
      var g := GridOf(layout);
      var first: seq<Byte> := BlockAt(g, before, 0);
      var third: seq<Byte> := BlockAt(g, before, 2);
      forall k | 0 <= k < 64
        ensures first[k] == third[k]
      {
        OffsetAtFits(g, PAYLOAD_BITS, |before|, k);
        OffsetAtFits(g, PAYLOAD_BITS, |before|, 128 + k);
        assert first[k] == PixelAt(g, before, k) && third[k] == PixelAt(g, before, 128 + k);
      }
      assert first == third;
      EqualBlocksUnbind(layout, before, payload, after, bits, embeddedLen, c);
    }
  }

  lemma PixelInBlock(g: Grid, data: seq<Byte>, block: nat, i: nat, j: nat)
    requires g.blocksX > 0 && i < 8 && j < 8 && BlockOffset(g, block, i, j) < |data|
    ensures BlockAt(g, data, block)[8 * i + j] == data[BlockOffset(g, block, i, j)]
  {
    hide BlockOffset, OffsetAt;
    OffsetAtPixel(g, block, i, j);
    assert 64 * block + (8 * i + j) == 64 * block + 8 * i + j;
    assert BlockAt(g, data, block)[8 * i + j] == PixelAt(g, data, 64 * block + (8 * i + j));
  }

  lemma OffsetChannel(g: Grid, width: nat, k: nat)
    requires g.blocksX > 0 && g.stride == 3 * width && g.bpp == 3 && g.channel < 3
    ensures OffsetAt(g, k) % 3 == g.channel
  {
    hide PixelRow, PixelColumn;
    var row, column := PixelRow(g, k / 64, k / 8 % 8), PixelColumn(g, k / 64, k % 8);
    assert row * (3 * width) == 3 * (row * width);
    var n := row * width + column;
    assert OffsetAt(g, k) == 3 * n + g.channel;
  }

  // Different channels own different bytes.
  lemma ChannelsApart(a: Grid, b: Grid, n: nat, p: nat)
    requires a.blocksX > 0 && b.blocksX > 0 && a.stride == b.stride && a.stride % 3 == 0 && a.bpp == b.bpp == 3
    requires a.channel < 3 && b.channel < 3 && a.channel != b.channel && Touched(a, n, p)
    ensures !Touched(b, n, p)
  {
    hide OffsetAt;
    var k: nat :| k < n && p == OffsetAt(a, k);
    OffsetChannel(a, a.stride / 3, k);
    if Touched(b, n, p) {
      var l: nat :| l < n && p == OffsetAt(b, l);
      OffsetChannel(b, b.stride / 3, l);
      assert false;
    }
  }
}
