/** The strided video frame of video.rs and the LSB kernel of lsb_video.rs. */
module LsbVideo {
  import opened Results
  import opened Arithmetic
  import opened GaloisField
  import opened UnitBits
  import opened BitStreams
  import opened LengthPrefix
  import opened SignaturePayloads
  import opened SignatureStream

  datatype VideoFormat = Rgb8 | Bgra8 | Yuv420

  datatype VideoError = InvalidLayout | NotEnoughCapacity | InvalidPayload(reason: PayloadError)

  datatype Layout = Layout(width: nat, height: nat, stride: nat, format: VideoFormat) {
    function BytesPerPixel(): nat {
      if format == Bgra8 then 4 else 3
    }

    function RowBytes(): nat {
      width * BytesPerPixel()
    }

    // A packed view of `size` bytes, its last row possibly without padding.
    predicate ValidPacked(size: nat) {
      && format != Yuv420
      && width > 0 && height > 0
      && stride >= RowBytes()
      && (height - 1) * stride + RowBytes() <= size
    }

    // Colour bytes, which are the units that carry bits.
    function Units(): nat {
      3 * width * height
    }
  }

  class VideoFrame {
    const layout: Layout
    const data: array<Byte>

    constructor (layout: Layout, data: array<Byte>)
      ensures this.layout == layout && this.data == data
    {
      this.layout := layout;
      this.data := data;
    }
  }

  // --- geometry -------------------------------------------------------------------------

  function Row(layout: Layout, logical: nat): nat {
    if layout.width == 0 then 0 else Quotient(logical, 3 * layout.width)
  }

  function Column(layout: Layout, logical: nat): nat {
    if layout.width == 0 then 0 else logical % (3 * layout.width)
  }

  // Offset of a colour byte within its row.
  function ColumnOffset(layout: Layout, column: nat): nat {
    (column / 3) * layout.BytesPerPixel() + column % 3
  }

  // Where the logical colour byte lies: never in row padding, never on alpha.
  function ByteOffset(layout: Layout): nat -> nat {
    (logical: nat) => Row(layout, logical) * layout.stride + ColumnOffset(layout, Column(layout, logical))
  }

  lemma ColumnOffsetBounds(layout: Layout, column: nat)
    requires layout.format != Yuv420 && column < 3 * layout.width
    ensures ColumnOffset(layout, column) < layout.RowBytes()
    ensures layout.BytesPerPixel() == 4 ==> ColumnOffset(layout, column) % 4 != 3
    ensures ColumnOffset(layout, column) / layout.BytesPerPixel() == column / 3
    ensures ColumnOffset(layout, column) % layout.BytesPerPixel() == column % 3
  {
    var bpp := layout.BytesPerPixel();
    MulMonotone(column / 3 + 1, layout.width, bpp);
    DivModUnique(ColumnOffset(layout, column), bpp, column / 3, column % 3);
  }

  lemma RowColumn(layout: Layout, size: nat, logical: nat)
    requires layout.ValidPacked(size) && logical < layout.Units()
    ensures Row(layout, logical) < layout.height && Column(layout, logical) < 3 * layout.width
    ensures logical == Row(layout, logical) * (3 * layout.width) + Column(layout, logical)
  {
    assert layout.Units() == layout.height * (3 * layout.width);
    RowOf(logical, 3 * layout.width, layout.height);
  }

  lemma OffsetParts(layout: Layout, size: nat, logical: nat)
    requires layout.ValidPacked(size) && logical < layout.Units()
    ensures layout.stride > 0
    ensures ByteOffset(layout)(logical) / layout.stride == Row(layout, logical)
    ensures ByteOffset(layout)(logical) % layout.stride == ColumnOffset(layout, Column(layout, logical))
    ensures ByteOffset(layout)(logical) < size
  {
    hide ColumnOffset, Row, Column;
    RowColumn(layout, size, logical);
    var row, c := Row(layout, logical), ColumnOffset(layout, Column(layout, logical));
    ColumnOffsetBounds(layout, Column(layout, logical));
    DivModUnique(ByteOffset(layout)(logical), layout.stride, row, c);
    CellBound(row, layout.height, layout.stride, c, layout.RowBytes(), size);
  }

  // The colour bytes are distinct bytes of the frame.
  lemma OffsetsValid(layout: Layout, size: nat, count: nat)
    requires layout.ValidPacked(size) && count <= layout.Units()
    ensures InBounds(ByteOffset(layout), count, size) && Injective(ByteOffset(layout), count)
  {
    hide ByteOffset, Row, Column, ColumnOffset;
    forall u: nat | u < count
      ensures ByteOffset(layout)(u) < size
    {
      OffsetParts(layout, size, u);
    }
    forall u: nat, v: nat | u < v < count
      ensures ByteOffset(layout)(u) != ByteOffset(layout)(v)
    {
      OffsetParts(layout, size, u);
      OffsetParts(layout, size, v);
      RowColumn(layout, size, u);
      RowColumn(layout, size, v);
      if ByteOffset(layout)(u) == ByteOffset(layout)(v) {
        ColumnOffsetBounds(layout, Column(layout, u));
        ColumnOffsetBounds(layout, Column(layout, v));
        SameColumn(Column(layout, u), Column(layout, v));
      }
    }
  }

  lemma SameColumn(a: nat, b: nat)
    requires a / 3 == b / 3 && a % 3 == b % 3
    ensures a == b
  {}

  // Bytes of the row padding and of the alpha channel are no colour bytes.
  ghost predicate Unowned(layout: Layout, p: nat)
    requires layout.stride > 0
  {
    p % layout.stride >= layout.RowBytes() || (layout.format == Bgra8 && p % layout.stride % 4 == 3)
  }

  lemma UnownedIsNoOffset(layout: Layout, size: nat, logical: nat)
    requires layout.ValidPacked(size) && logical < layout.Units()
    ensures !Unowned(layout, ByteOffset(layout)(logical))
  {
    hide ByteOffset, ColumnOffset, Column, Row;
    OffsetParts(layout, size, logical);
    RowColumn(layout, size, logical);
    ColumnOffsetBounds(layout, Column(layout, logical));
  }

  // --- the kernel -----------------------------------------------------------------------

  class Kernel {
    const bits: nat

    ghost predicate Valid() {
      1 <= bits <= 4
    }

    constructor (bits: nat)
      requires 1 <= bits <= 4
      ensures Valid() && this.bits == bits
    {
      this.bits := bits;
    }

    method Embed(frame: VideoFrame, sig: Option<SignaturePayload>) returns (r: Result<(), VideoError>)
      requires Valid() && (sig.Some? ==> sig.value.Valid())
      modifies frame.data
      ensures sig.None? ==> r == Ok(())
      ensures sig.Some? && !frame.layout.ValidPacked(frame.data.Length) ==> r == Err(InvalidLayout)
      ensures sig.Some? && frame.layout.ValidPacked(frame.data.Length) ==>
        r == if frame.layout.Units() < UnitsNeeded(STREAM_BITS, bits) then Err(NotEnoughCapacity) else Ok(())
      ensures sig.None? || r.Err? ==> frame.data[..] == old(frame.data[..])
      ensures sig.Some? && r.Ok? ==>
        InBounds(ByteOffset(frame.layout), frame.layout.Units(), frame.data.Length)
        && PrefixFits(frame.layout.Units(), ToBytes(sig.value), bits)
        && frame.data[..] == PrefixEmbedded(old(frame.data[..]), ByteOffset(frame.layout), frame.layout.Units(),
                                            ToBytes(sig.value), bits)
    {
      hide Put, Pack, Embedded, UnitsNeeded, ByteOffset, Prefixed, ToBytes;
      if sig.None? {
        return Ok(());
      }
      if !frame.layout.ValidPacked(frame.data.Length) {
        return Err(InvalidLayout);
      }
      var stream := PayloadToBits(sig.value);
      var needed := UnitsNeeded(STREAM_BITS, bits);
      if frame.layout.Units() < needed {
        return Err(NotEnoughCapacity);
      }
      ghost var before := frame.data[..];
      ghost var at := ByteOffset(frame.layout);
      OffsetsValid(frame.layout, frame.data.Length, frame.layout.Units());
      UnitsEnd(frame.layout.Units(), STREAM_BITS, bits);
      EmbeddedNone(before, at, stream, bits);
      var bitIndex := 0;
      for logical := 0 to needed
        invariant bitIndex == Min(logical * bits, STREAM_BITS)
        invariant frame.data[..] == Embedded(before, at, stream, bits, logical)
      {
        UnitsEnd(logical, STREAM_BITS, bits);
        UnitsStep(logical, STREAM_BITS, bits);
        EmbeddedOnce(before, at, stream, bits, logical);
        var offset := ByteOffset(frame.layout)(logical);
        var low: Byte;
        low, bitIndex := PackStream(stream, bits, bitIndex);
        frame.data[offset] := Put(frame.data[offset], low, bits);
      }
      r := Ok(());
    }

    // What extraction finds, as a function of the frame.
    function Extraction(layout: Layout, data: seq<Byte>): Result<Option<SignaturePayload>, VideoError>
      requires Valid()
    {
      if !layout.ValidPacked(|data|) then Err(InvalidLayout)
      else
        var found := SignatureExtraction(data, ByteOffset(layout), layout.Units(), bits);
        if found.Ok? then Ok(found.value) else Err(InvalidPayload(found.error))
    }

    method ReadBitAt(frame: VideoFrame, bit: nat) returns (value: bool)
      requires Valid() && frame.layout.ValidPacked(frame.data.Length) && bit / bits < frame.layout.Units()
      ensures value == SlotBit(frame.data[..], ByteOffset(frame.layout), bits)(bit)
    {
      hide ByteOffset, BitAt;
      OffsetParts(frame.layout, frame.data.Length, bit / bits);
      var offset := ByteOffset(frame.layout)(bit / bits);
      value := BitAt(frame.data[offset], bits - 1 - bit % bits);
    }

    method Extract(frame: VideoFrame) returns (r: Result<Option<SignaturePayload>, VideoError>)
      requires Valid()
      ensures r == Extraction(frame.layout, frame.data[..])
    {
      hide ByteOffset, BitAt, FromBytes, UnitsNeeded, ShiftedIn, SlotBit, Number, BytesOf;
      if !frame.layout.ValidPacked(frame.data.Length) {
        return Err(InvalidLayout);
      }
      var units := frame.layout.Units();
      UnitsOrdered(bits);
      if units < UnitsNeeded(HEADER_BITS, bits) {
        return Ok(None);
      }
      ghost var f := SlotBit(frame.data[..], ByteOffset(frame.layout), bits);
      var length := 0;
      NumberNone(f);
      for bit := 0 to HEADER_BITS
        invariant length == Number(f, bit)
      {
        DivModUnits(bit, HEADER_BITS, bits);
        NumberOnce(f, bit);
        var value := ReadBitAt(frame, bit);
        length := 2 * length + (if value then 1 else 0);
      }
      if length != PAYLOAD_BITS || units < UnitsNeeded(STREAM_BITS, bits) {
        return Ok(None);
      }
      var payload: seq<Byte> := seq(SERIALIZED_SIZE, j => 0);
      forall j | 0 <= j < SERIALIZED_SIZE
        ensures payload[j] == ShiftedIn(f, HEADER_BITS + 8 * j, Progress(0, j))
      {
        ShiftedOnce(f, HEADER_BITS + 8 * j, 0);
      }
      for bit := 0 to PAYLOAD_BITS
        invariant |payload| == SERIALIZED_SIZE
        invariant forall j :: 0 <= j < SERIALIZED_SIZE ==> payload[j] == ShiftedIn(f, HEADER_BITS + 8 * j, Progress(bit, j))
      {
        DivModUnits(HEADER_BITS + bit, STREAM_BITS, bits);
        ShiftedOnce(f, HEADER_BITS + 8 * (bit / 8), bit % 8);
        var value := ReadBitAt(frame, HEADER_BITS + bit);
        payload := payload[bit / 8 := (payload[bit / 8] << 1) | BitValue(value)];
      }
      ShiftedBytes(f, HEADER_BITS, payload);
      var parsed := FromBytes(payload);
      r := if parsed.Ok? then Ok(Some(parsed.value)) else Err(InvalidPayload(parsed.error));
    }

    // What was embedded is extracted, for every frame with room for it.
    lemma RoundTrip(layout: Layout, data: seq<Byte>, payload: SignaturePayload)
      requires Valid() && payload.Valid() && layout.ValidPacked(|data|)
      requires PrefixFits(layout.Units(), ToBytes(payload), bits)
      ensures InBounds(ByteOffset(layout), layout.Units(), |data|)
      ensures Extraction(layout, PrefixEmbedded(data, ByteOffset(layout), layout.Units(), ToBytes(payload), bits)) == Ok(Some(payload))
    {
      hide PrefixEmbedded, ByteOffset, ToBytes, SignatureExtraction;
      OffsetsValid(layout, |data|, layout.Units());
      SignatureRoundTrip(data, ByteOffset(layout), layout.Units(), payload, bits);
    }
  }

  // A payload is found exactly in a packed frame whose colour bytes hold it behind its bit count.
  lemma ExtractsExactly(kernel: Kernel, layout: Layout, data: seq<Byte>, p: SignaturePayload)
    requires kernel.Valid()
    ensures var r := kernel.Extraction(layout, data);
            && (r == Err(InvalidLayout) <==> !layout.ValidPacked(|data|))
            && (r == Ok(Some(p)) <==>
                 && layout.ValidPacked(|data|) && p.Valid()
                 && PrefixHeld(data, ByteOffset(layout), 3 * layout.width * layout.height, ToBytes(p), kernel.bits))
  {
    hide ByteOffset, PrefixHeld, SignatureExtraction, ToBytes;
    SignatureExtractsExactly(data, ByteOffset(layout), layout.Units(), kernel.bits, p);
  }

  // A view is accepted exactly when it is RGB or BGRA, not empty, with rows that do not overlap and every pixel inside.
  lemma ValidExactly(layout: Layout, size: nat)
    ensures layout.ValidPacked(size) <==>
      var bpp := if layout.format == Bgra8 then 4 else 3;
      && (layout.format == Rgb8 || layout.format == Bgra8)
      && layout.width > 0 && layout.height > 0 && layout.width * bpp <= layout.stride
      && forall x: nat, y: nat {:trigger PixelEnd(layout, x, y)} ::
           x < layout.width && y < layout.height ==> PixelEnd(layout, x, y) <= size
  {
    var bpp := layout.BytesPerPixel();
    if layout.ValidPacked(size) {
      forall x: nat, y: nat | x < layout.width && y < layout.height
        ensures PixelEnd(layout, x, y) <= size
      {
        MulMonotone(y, layout.height - 1, layout.stride);
        MulMonotone(x + 1, layout.width, bpp);
      }
    } else if layout.width > 0 && layout.height > 0 {
      assert PixelEnd(layout, layout.width - 1, layout.height - 1)
        == (layout.height - 1) * layout.stride + layout.width * bpp;
    }
  }

  // The byte behind pixel (x, y).
  function PixelEnd(layout: Layout, x: nat, y: nat): nat {
    y * layout.stride + (x + 1) * (if layout.format == Bgra8 then 4 else 3)
  }

  // --- what the kernel leaves alone, and repacking --------------------------------------------

  // Row padding and alpha keep their bytes.
  lemma EmbedKeepsUnowned(layout: Layout, data: seq<Byte>, stream: seq<bool>, bits: nat, count: nat, p: nat)
    requires layout.ValidPacked(|data|) && bits <= 4 && count <= layout.Units() && p < |data| && Unowned(layout, p)
    ensures InBounds(ByteOffset(layout), count, |data|)
    ensures Embedded(data, ByteOffset(layout), stream, bits, count)[p] == data[p]
  {
    hide ByteOffset, Embedded, Unowned;
    OffsetsValid(layout, |data|, count);
    forall u: nat | u < count
      ensures ByteOffset(layout)(u) != p
    {
      UnownedIsNoOffset(layout, |data|, u);
    }
    EmbeddedElsewhere(data, ByteOffset(layout), stream, bits, count, p);
  }

  function Packed(layout: Layout): Layout {
    Layout(layout.width, layout.height, layout.RowBytes(), layout.format)
  }

  // The rows of a frame without their padding.
  function Repacked(layout: Layout, data: seq<Byte>): (r: seq<Byte>)
    requires layout.ValidPacked(|data|)
    ensures |r| == layout.height * layout.RowBytes()
  {
    seq(layout.height * layout.RowBytes(), p requires 0 <= p < layout.height * layout.RowBytes() =>
      RowOf(p, layout.RowBytes(), layout.height);
      CellBound(Quotient(p, layout.RowBytes()), layout.height, layout.stride, p % layout.RowBytes(), layout.RowBytes(), |data|);
      data[Quotient(p, layout.RowBytes()) * layout.stride + p % layout.RowBytes()])
  }

  lemma PackedValid(layout: Layout, data: seq<Byte>)
    requires layout.ValidPacked(|data|)
    ensures Packed(layout).ValidPacked(|Repacked(layout, data)|) && Packed(layout).Units() == layout.Units()
  {
    MulMonotone(1, layout.height, layout.RowBytes());
    assert layout.height * layout.RowBytes() == (layout.height - 1) * layout.RowBytes() + layout.RowBytes();
  }

  // A colour byte keeps its value when the rows are packed.
  lemma RepackedByte(layout: Layout, data: seq<Byte>, logical: nat)
    requires layout.ValidPacked(|data|) && logical < layout.Units()
    ensures ByteOffset(layout)(logical) < |data| && ByteOffset(Packed(layout))(logical) < |Repacked(layout, data)|
    ensures Repacked(layout, data)[ByteOffset(Packed(layout))(logical)] == data[ByteOffset(layout)(logical)]
  {
    hide Row, Column, ColumnOffset;
    var packed := Packed(layout);
    PackedValid(layout, data);
    OffsetParts(layout, |data|, logical);
    OffsetParts(packed, |Repacked(layout, data)|, logical);
    SamePlace(layout, logical);
  }

  lemma SamePlace(layout: Layout, logical: nat)
    ensures Row(Packed(layout), logical) == Row(layout, logical)
    ensures Column(Packed(layout), logical) == Column(layout, logical)
    ensures ColumnOffset(Packed(layout), Column(layout, logical)) == ColumnOffset(layout, Column(layout, logical))
  {}

  // Extraction does not see padding: packing the rows changes nothing.
  lemma RepackedExtraction(kernel: Kernel, layout: Layout, data: seq<Byte>)
    requires kernel.Valid() && layout.ValidPacked(|data|)
    ensures kernel.Extraction(Packed(layout), Repacked(layout, data)) == kernel.Extraction(layout, data)
  {
    hide ByteOffset, FromBytes, Number, BytesOf, BitAt, Repacked, UnitsNeeded;
    PackedValid(layout, data);
    if layout.Units() >= UnitsNeeded(STREAM_BITS, kernel.bits) {
      var f, g := SlotBit(data, ByteOffset(layout), kernel.bits), SlotBit(Repacked(layout, data), ByteOffset(Packed(layout)), kernel.bits);
      forall i: nat | i < STREAM_BITS
        ensures f(i) == g(i)
      {
        DivModUnits(i, STREAM_BITS, kernel.bits);
        RepackedByte(layout, data, i / kernel.bits);
      }
      NumberCongruent(f, g, HEADER_BITS);
      BytesOfCongruent(f, g, HEADER_BITS, SERIALIZED_SIZE);
    }
  }
}
