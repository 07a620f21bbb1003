/** The content-adaptive LSB kernel of adaptive.rs. */
module AdaptiveLsb {
  import opened Results
  import opened GaloisField
  import opened UnitBits
  import opened BitStreams
  import opened LengthPrefix
  import opened SignaturePayloads
  import opened SignatureStream
  import opened LsbVideo
  import opened Texture

  const PREFIX_SIZE := 4

  datatype AdaptiveError = InvalidLayout | InsufficientPositions

  // --- packing and unpacking by shifts ------------------------------------------------------

  function StreamOf(stream: seq<bool>): nat -> bool {
    (i: nat) => StreamBit(stream, i)
  }

  // Units are filled the same whether bits are placed or shifted in.
  lemma PackIsShifted(stream: seq<bool>, start: nat, bits: nat)
    requires 1 <= bits <= 4
    ensures Pack(stream, start, bits, bits) == ShiftedIn(StreamOf(stream), start, bits)
  {
    hide BitAt, Pack, ShiftedIn, StreamBit;
    var a, b := Pack(stream, start, bits, bits), ShiftedIn(StreamOf(stream), start, bits);
    forall s {:trigger BitAt(a, s)} | 0 <= s < 8
      ensures BitAt(a, s) == BitAt(b, s)
    {
      PackBits(stream, start, bits, bits, s);
      ShiftedBits(StreamOf(stream), start, bits, s);
    }
    ByteExtensional(a, b);
  }

  function ShiftLeft(v: Byte, k: nat): Byte
    requires k < 8
  {
    v << k
  }

  lemma ShiftLeftOnce(v: Byte, k: nat)
    requires k < 7
    ensures ShiftLeft(v, k + 1) == (ShiftLeft(v, k) << 1) | BitValue(false)
    ensures ShiftLeft(v, 0) == v
  {
    if k == 0 {
    } else if k == 1 {
    } else if k == 2 {
    } else if k == 3 {
    } else if k == 4 {
    } else if k == 5 {
    } else {
    }
  }

  // Padding a short chunk is shifting in zeros.
  lemma {:induction false} PadIsShifted(f: nat -> bool, start: nat, count: nat, k: nat)
    requires k < 8 && forall i: nat :: start + count <= i < start + count + k ==> !f(i)
    ensures ShiftLeft(ShiftedIn(f, start, count), k) == ShiftedIn(f, start, count + k)
    decreases k
  {
    hide ShiftLeft, BitValue;
    if k == 0 {
      ShiftLeftOnce(ShiftedIn(f, start, count), 0);
    } else {
      PadIsShifted(f, start, count, k - 1);
      ShiftLeftOnce(ShiftedIn(f, start, count), k - 1);
      ShiftedOnce(f, start, count + (k - 1));
    }
  }

  // The value of the chunk that starts at `start`, padded on the right to `width` bits.
  method ChunkValue(stream: seq<bool>, start: nat, width: nat) returns (value: Byte)
    requires 1 <= width <= 8 && start < |stream|
    ensures value == ShiftedIn(StreamOf(stream), start, width)
  {
    hide ShiftedIn, BitValue, ShiftLeft;
    ghost var f := StreamOf(stream);
    var length := Min(width, |stream| - start);
    value := 0;
    ShiftedOnce(f, start, 0);
    for i := 0 to length
      invariant value == ShiftedIn(f, start, i)
    {
      ShiftedOnce(f, start, i);
      value := (value << 1) | BitValue(stream[start + i]);
    }
    PadIsShifted(f, start, length, width - length);
    value := ShiftLeft(value, width - length);
  }

  lemma ChunkInside(i: nat, n: nat, bits: nat)
    requires 1 <= bits <= 4 && i < UnitsNeeded(n, bits)
    ensures i * bits < n
  {
    UnitsEnd(i, n, bits);
  }

  // All chunks of a bit stream, one value for each unit.
  method PackedValues(stream: seq<bool>, bits: nat) returns (values: seq<Byte>)
    requires 1 <= bits <= 4
    ensures |values| == UnitsNeeded(|stream|, bits)
    ensures forall i :: 0 <= i < |values| ==> values[i] == Pack(stream, i * bits, bits, bits)
  {
    hide Pack, ShiftedIn, UnitsNeeded;
    values := [];
    for i := 0 to UnitsNeeded(|stream|, bits)
      invariant |values| == i
      invariant forall k :: 0 <= k < i ==> values[k] == Pack(stream, k * bits, bits, bits)
    {
      ChunkInside(i, |stream|, bits);
      var value := ChunkValue(stream, i * bits, bits);
      PackIsShifted(stream, i * bits, bits);
      values := values + [value];
    }
  }

  // Bits back to bytes, the last byte padded with zeros.
  method BitsToBytes(stream: seq<bool>) returns (bytes: seq<Byte>)
    ensures bytes == BytesOf(StreamOf(stream), 0, (|stream| + 7) / 8)
  {
    hide ShiftedIn, Assemble;
    bytes := [];
    for j := 0 to (|stream| + 7) / 8
      invariant |bytes| == j
      invariant forall k :: 0 <= k < j ==> bytes[k] == Assemble(StreamOf(stream), 8 * k, 8)
    {
      var byte := ChunkValue(stream, 8 * j, 8);
      ShiftedIsAssembled(StreamOf(stream), 8 * j);
      bytes := bytes + [byte];
    }
  }

  function LowMask(bits: nat): Byte
    requires bits <= 4
  {
    !ClearMask(bits)
  }

  function KeepLow(v: Byte, bits: nat): Byte
    requires bits <= 4
  {
    v & LowMask(bits)
  }

  lemma KeptBits(v: Byte, bits: nat, s: nat)
    requires bits <= 4 && s < 8
    ensures BitAt(KeepLow(v, bits), s) == (s < bits && BitAt(v, s))
  {}

  // A packed value has no bits above the low ones.
  lemma PackKept(stream: seq<bool>, start: nat, bits: nat)
    requires bits <= 4
    ensures KeepLow(Pack(stream, start, bits, bits), bits) == Pack(stream, start, bits, bits)
  {
    hide BitAt, Pack, KeepLow, StreamBit;
    var v := Pack(stream, start, bits, bits);
    forall s {:trigger BitAt(v, s)} | 0 <= s < 8
      ensures BitAt(KeepLow(v, bits), s) == BitAt(v, s)
    {
      KeptBits(v, bits, s);
      PackBits(stream, start, bits, bits, s);
    }
    ByteExtensional(KeepLow(v, bits), v);
  }

  // --- the kernel ---------------------------------------------------------------------------

  function PositionSlots(positions: seq<nat>): nat -> nat {
    (u: nat) => if u < |positions| then positions[u] else 0
  }

  // The little-endian bit count in front of the payload.
  function Packet(payload: seq<Byte>): (packet: seq<Byte>)
    ensures |packet| == PREFIX_SIZE + |payload|
  {
    LittleEndian(8 * |payload|, PREFIX_SIZE) + payload
  }

  class Kernel {
    const threshold: nat
    const bits: nat

    ghost predicate Valid() {
      1 <= bits <= 4
    }

    constructor (threshold: nat, bits: nat)
      requires 1 <= bits <= 4
      ensures Valid() && this.threshold == threshold && this.bits == bits
    {
      this.threshold := threshold;
      this.bits := bits;
    }

    function Selected(layout: Layout, data: seq<Byte>): seq<nat>
      requires bits <= 4
    {
      Positions(layout, data, bits, threshold)
    }

    ghost predicate Fits(layout: Layout, data: seq<Byte>)
      requires Valid()
    {
      UnitsNeeded(STREAM_BITS, bits) <= |Selected(layout, data)|
    }

    lemma SelectedValid(layout: Layout, data: seq<Byte>)
      requires Valid() && layout.ValidPacked(|data|)
      ensures ValidSlots(PositionSlots(Selected(layout, data)), |Selected(layout, data)|, |data|)
    {
      hide Positions, Unowned;
      PositionsValid(layout, data, bits, threshold);
    }

    // The frame after an embed.
    ghost function Marked(layout: Layout, data: seq<Byte>, payload: seq<Byte>): (r: seq<Byte>)
      requires Valid() && layout.ValidPacked(|data|) && |payload| == SERIALIZED_SIZE && Fits(layout, data)
      ensures |r| == |data|
    {
      SelectedValid(layout, data);
      Embedded(data, PositionSlots(Selected(layout, data)), BytesToBits(Packet(payload)), bits, UnitsNeeded(STREAM_BITS, bits))
    }

    method Embed(frame: VideoFrame, sig: Option<SignaturePayload>) returns (r: Result<(), AdaptiveError>)
      requires Valid() && (sig.Some? ==> sig.value.Valid())
      modifies frame.data
      ensures sig.None? ==> r == Ok(())
      ensures sig.Some? && !frame.layout.ValidPacked(frame.data.Length) ==> r == Err(AdaptiveError.InvalidLayout)
      ensures sig.Some? && frame.layout.ValidPacked(frame.data.Length) ==>
        r == if old(Fits(frame.layout, frame.data[..])) then Ok(()) else Err(InsufficientPositions)
      ensures sig.None? || r.Err? ==> frame.data[..] == old(frame.data[..])
      ensures sig.Some? && r.Ok? ==>
        |ToBytes(sig.value)| == SERIALIZED_SIZE
        && frame.data[..] == old(Marked(frame.layout, frame.data[..], ToBytes(sig.value)))
    {
      hide Put, Pack, Embedded, UnitsNeeded, ToBytes, Positions, KeepLow, ClearMask, Packet;
      if sig.None? {
        return Ok(());
      }
      if !frame.layout.ValidPacked(frame.data.Length) {
        return Err(AdaptiveError.InvalidLayout);
      }
      PayloadRoundTrip(sig.value);
      var payload := ToBytes(sig.value);
      var positions := SelectPositions(frame.layout, frame.data[..], bits, threshold);
      var allBits := BytesToBits(Packet(payload));
      var positionsNeeded := UnitsNeeded(STREAM_BITS, bits);
      if |positions| < positionsNeeded {
        return Err(InsufficientPositions);
      }
      ghost var before := frame.data[..];
      ghost var at := PositionSlots(positions);
      SelectedValid(frame.layout, before);
      var packedValues := PackedValues(allBits, bits);
      EmbeddedNone(before, at, allBits, bits);
      for i := 0 to |packedValues|
        invariant frame.data[..] == Embedded(before, at, allBits, bits, i)
      {
        var pos := positions[i];
        assert pos == at(i);
        EmbeddedOnce(before, at, allBits, bits, i);
        PackKept(allBits, i * bits, bits);
        if pos < frame.data.Length {
          frame.data[pos] := Put(frame.data[pos], KeepLow(packedValues[i], bits), bits);
        }
      }
      r := Ok(());
    }

    // What extraction finds, as a function of the frame.
    function Extraction(layout: Layout, data: seq<Byte>): Result<Option<SignaturePayload>, AdaptiveError>
      requires Valid()
    {
      if !layout.ValidPacked(|data|) then Err(AdaptiveError.InvalidLayout)
      else
        var positions := Selected(layout, data);
        var f := SlotBit(data, PositionSlots(positions), bits);
        if |positions| < UnitsNeeded(STREAM_BITS, bits) then Ok(None)
        else if FromLittleEndian(BytesOf(f, 0, PREFIX_SIZE)) != PAYLOAD_BITS then Ok(None)
        else
          var parsed := FromBytes(BytesOf(f, HEADER_BITS, SERIALIZED_SIZE));
          if parsed.Ok? then Ok(Some(parsed.value)) else Ok(None)
    }

    // The first n bits that the selected positions hold; none when a position lies outside the frame.
    method UnpackBits(data: seq<Byte>, positions: seq<nat>, n: nat) returns (r: Option<seq<bool>>)
      requires Valid() && UnitsNeeded(n, bits) <= |positions| && forall i :: 0 <= i < |positions| ==> positions[i] < |data|
      ensures r.Some? && |r.value| == n
      ensures forall i: nat :: i < n ==> r.value[i] == SlotBit(data, PositionSlots(positions), bits)(i)
    {
      hide KeepLow, UnitsNeeded, SlotBit, ClearMask, BitAt, LowMask;
      ghost var at := PositionSlots(positions);
      var values: seq<Byte> := [];
      for i := 0 to UnitsNeeded(n, bits)
        invariant |values| == i && forall k :: 0 <= k < i ==> values[k] == KeepLow(data[positions[k]], bits)
      {
        values := values + [KeepLow(data[positions[i]], bits)];
      }
      var allBits: seq<bool> := [];
      for v := 0 to |values|
        invariant |allBits| == v * bits
        invariant forall i: nat :: i < |allBits| ==> allBits[i] == SlotBit(data, at, bits)(i)
      {
        for s := bits downto 0
          invariant |allBits| == v * bits + (bits - s)
          invariant forall i: nat :: i < |allBits| ==> allBits[i] == SlotBit(data, at, bits)(i)
        {
          ReadOne(data, at, bits, v, bits - 1 - s, |allBits|);
          SlotBitIs(data, at, bits, |allBits|);
          KeptBits(data[positions[v]], bits, s);
          allBits := allBits + [BitAt(values[v], s)];
        }
      }
      UnitsEnd(|values|, n, bits);
      r := Some(allBits[..n]);
    }

    method Extract(frame: VideoFrame) returns (r: Result<Option<SignaturePayload>, AdaptiveError>)
      requires Valid()
      ensures r == Extraction(frame.layout, frame.data[..])
    {
      hide UnitsNeeded, Positions, SlotBit, FromBytes, FromLittleEndian, Unowned, BytesOf, StreamBit;
      if !frame.layout.ValidPacked(frame.data.Length) {
        return Err(AdaptiveError.InvalidLayout);
      }
      var data := frame.data[..];
      var positions := SelectPositions(frame.layout, data, bits, threshold);
      PositionsValid(frame.layout, data, bits, threshold);
      UnitsOrdered(bits);
      if |positions| < UnitsNeeded(HEADER_BITS, bits) {
        return Ok(None);
      }
      ghost var f := SlotBit(data, PositionSlots(positions), bits);
      var headerBits := UnpackBits(data, positions, HEADER_BITS);
      var headerBytes := BitsToBytes(headerBits.value);
      Unpacked(f, headerBits.value, 0, PREFIX_SIZE);
      var payloadBitCount := FromLittleEndian(headerBytes);
      if payloadBitCount != PAYLOAD_BITS {
        return Ok(None);
      }
      if |positions| < UnitsNeeded(STREAM_BITS, bits) {
        return Ok(None);
      }
      var allBits := UnpackBits(data, positions, STREAM_BITS);
      var payloadBits := allBits.value[HEADER_BITS..];
      var payloadBytes := BitsToBytes(payloadBits);
      forall i: nat | i < PAYLOAD_BITS
        ensures payloadBits[i] == f(HEADER_BITS + i)
      {}
      Unpacked(f, payloadBits, HEADER_BITS, SERIALIZED_SIZE);
      var parsed := FromBytes(payloadBytes);
      r := if parsed.Ok? then Ok(Some(parsed.value)) else Ok(None);
    }

    // Embedding does not move the positions that it writes at.
    lemma SelectionSurvives(layout: Layout, data: seq<Byte>, payload: seq<Byte>)
      requires Valid() && layout.ValidPacked(|data|) && |payload| == SERIALIZED_SIZE && Fits(layout, data)
      ensures Selected(layout, Marked(layout, data, payload)) == Selected(layout, data)
    {
      hide Positions, Embedded, UnitsNeeded, SameHighBits;
      SelectedValid(layout, data);
      var at, stream := PositionSlots(Selected(layout, data)), BytesToBits(Packet(payload));
      EmbeddedSameHighBits(data, at, stream, bits, UnitsNeeded(STREAM_BITS, bits));
      SelectionIgnoresLowBits(layout, data, Marked(layout, data, payload), bits, threshold);
    }

    // What was embedded is extracted, for every frame and threshold that leave room for it.
    lemma RoundTrip(layout: Layout, data: seq<Byte>, payload: SignaturePayload)
      requires Valid() && payload.Valid() && layout.ValidPacked(|data|) && Fits(layout, data)
      ensures |ToBytes(payload)| == SERIALIZED_SIZE
      ensures Extraction(layout, Marked(layout, data, ToBytes(payload))) == Ok(Some(payload))
    {
      hide Positions, Embedded, UnitsNeeded, ToBytes, FromBytes, FromLittleEndian, LittleEndian, SlotBit, BytesOf,
           ReadBit, PacketBit, Pow256;
      PayloadRoundTrip(payload);
      var bytes := ToBytes(payload);
      var after := Marked(layout, data, bytes);
      SelectionSurvives(layout, data, bytes);
      SelectedValid(layout, data);
      var at, packet := PositionSlots(Selected(layout, data)), Packet(bytes);
      var f := SlotBit(after, at, bits);
      forall i: nat | i < STREAM_BITS
        ensures f(i) == PacketBit(packet, i)
      {
        ReadBack(data, at, BytesToBits(packet), bits, i);
        SlotBitIs(after, at, bits, i);
      }
      PacketParts(f, bytes);
      PrefixFits32();
      LittleEndianRoundTrip(PAYLOAD_BITS, PREFIX_SIZE);
    }
  }

  // Bits that f lists are bytes that f lists.
  lemma Unpacked(f: nat -> bool, stream: seq<bool>, start: nat, count: nat)
    requires |stream| == 8 * count && forall i: nat :: i < 8 * count ==> stream[i] == f(start + i)
    ensures BytesOf(StreamOf(stream), 0, (|stream| + 7) / 8) == BytesOf(f, start, count)
  {
    hide BytesOf, PacketBit;
    var a, b := BytesOf(StreamOf(stream), 0, count), BytesOf(f, start, count);
    forall i | 0 <= i < 8 * count
      ensures PacketBit(a, i) == PacketBit(b, i)
    {
      BytesOfBit(StreamOf(stream), 0, count, i);
      BytesOfBit(f, start, count, i);
    }
    BitsDetermineBytes(a, b);
  }

  lemma BitOfJoined(a: seq<Byte>, b: seq<Byte>, i: nat)
    requires i < 8 * (|a| + |b|)
    ensures PacketBit(a + b, i) == if i < 8 * |a| then PacketBit(a, i) else PacketBit(b, i - 8 * |a|)
  {
    hide BitAt;
  }

  // f lists the bits of the bytes from `start` on.
  ghost predicate Lists(f: nat -> bool, start: nat, bytes: seq<Byte>) {
    forall i: nat :: i < 8 * |bytes| ==> f(start + i) == PacketBit(bytes, i)
  }

  lemma ListsJoined(f: nat -> bool, a: seq<Byte>, b: seq<Byte>)
    requires Lists(f, 0, a + b)
    ensures Lists(f, 0, a) && Lists(f, 8 * |a|, b)
  {
    hide PacketBit;
    forall i: nat | i < 8 * (|a| + |b|)
      ensures f(i) == if i < 8 * |a| then PacketBit(a, i) else PacketBit(b, i - 8 * |a|)
    {
      BitOfJoined(a, b, i);
      assert f(0 + i) == PacketBit(a + b, i);
    }
  }

  lemma ListedBytes(f: nat -> bool, start: nat, bytes: seq<Byte>)
    requires Lists(f, start, bytes)
    ensures BytesOf(f, start, |bytes|) == bytes
  {
    hide BytesOf, PacketBit;
    BytesOfStream(f, start, bytes);
  }

  // A packet's bits give its prefix and its payload.
  lemma PacketParts(f: nat -> bool, payload: seq<Byte>)
    requires Lists(f, 0, Packet(payload))
    ensures BytesOf(f, 0, PREFIX_SIZE) == LittleEndian(8 * |payload|, PREFIX_SIZE)
    ensures BytesOf(f, HEADER_BITS, |payload|) == payload
  {
    hide BytesOf, Lists, LittleEndian;
    var prefix := LittleEndian(8 * |payload|, PREFIX_SIZE);
    ListsJoined(f, prefix, payload);
    ListedBytes(f, 0, prefix);
    ListedBytes(f, HEADER_BITS, payload);
  }

  lemma PrefixFits32()
    ensures PAYLOAD_BITS < Pow256(PREFIX_SIZE)
  {}

  // The packet of a signature is its bit count 872, lowest byte first, and its 109 bytes.
  lemma PacketLayout(payload: seq<Byte>)
    requires |payload| == 109
    ensures Packet(payload)[..4] == [0x68, 3, 0, 0] && Packet(payload)[4..] == payload
  {
    hide LittleEndian;
    CountBytes();
  }

  lemma SmallPowers256()
    ensures Pow256(0) == 1 && Pow256(1) == 256 && Pow256(2) == 65_536 && Pow256(3) == 16_777_216
  {}

  lemma DigitIs(n: nat, size: nat, i: nat, power: nat, digit: Byte)
    requires i < size && power == Pow256(i) && digit as nat == n / power % 256
    ensures LittleEndian(n, size)[i] == digit
  {
    hide LittleEndian, Pow256;
    LittleEndianDigit(n, size, i);
    SameByte(LittleEndian(n, size)[i], digit);
  }

  lemma CountBytes()
    ensures LittleEndian(872, 4) == [0x68, 3, 0, 0]
  {
    hide LittleEndian, Pow256;
    SmallPowers256();
    DigitIs(872, 4, 0, 1, 0x68);
    DigitIs(872, 4, 1, 256, 3);
    DigitIs(872, 4, 2, 65_536, 0);
    DigitIs(872, 4, 3, 16_777_216, 0);
  }

  // There is room exactly when the selected bytes offer 904 bits.
  lemma FitsExactly(kernel: Kernel, layout: Layout, data: seq<Byte>)
    requires kernel.Valid()
    ensures kernel.Fits(layout, data) <==>
      904 <= |Positions(layout, data, kernel.bits, kernel.threshold)| * kernel.bits
  {
    hide Positions, UnitsNeeded;
    UnitsEnd(|Positions(layout, data, kernel.bits, kernel.threshold)|, STREAM_BITS, kernel.bits);
  }

  // A payload is found exactly in a packed frame whose selected bytes, busiest first, hold its packet bit by bit.
  lemma ExtractsExactly(kernel: Kernel, layout: Layout, data: seq<Byte>, p: SignaturePayload)
    requires kernel.Valid() && p.Valid()
    ensures |ToBytes(p)| == 109
    ensures var r := kernel.Extraction(layout, data);
            && (r == Err(AdaptiveError.InvalidLayout) <==> !layout.ValidPacked(|data|))
            && (r == Ok(Some(p)) <==>
                 && layout.ValidPacked(|data|)
                 && var positions := Positions(layout, data, kernel.bits, kernel.threshold);
                 && 904 <= |positions| * kernel.bits
                 && forall i: nat :: i < 904 ==>
                      ReadBit(data, PositionSlots(positions), kernel.bits, i) == PacketBit(Packet(ToBytes(p)), i))
  {
    hide Positions, ToBytes, FromBytes, FromLittleEndian, LittleEndian, BytesOf, ReadBit, PacketBit, Pow256, UnitsNeeded;
    PayloadRoundTrip(p);
    if layout.ValidPacked(|data|) {
      var positions := Positions(layout, data, kernel.bits, kernel.threshold);
      UnitsEnd(|positions|, STREAM_BITS, kernel.bits);
      var f := SlotBit(data, PositionSlots(positions), kernel.bits);
      ParsedPayload(BytesOf(f, HEADER_BITS, SERIALIZED_SIZE));
      ListedExactly(f, ToBytes(p));
      PrefixFits32();
      LittleEndianRoundTrip(PAYLOAD_BITS, PREFIX_SIZE);
      LittleEndianOf(BytesOf(f, 0, PREFIX_SIZE));
      forall i: nat
        ensures f(0 + i) == ReadBit(data, PositionSlots(positions), kernel.bits, i)
      {}
    }
  }

  lemma BytesListed(f: nat -> bool, start: nat, bytes: seq<Byte>)
    requires BytesOf(f, start, |bytes|) == bytes
    ensures Lists(f, start, bytes)
  {
    hide BytesOf, PacketBit;
    forall i: nat | i < 8 * |bytes|
      ensures f(start + i) == PacketBit(bytes, i)
    {
      BytesOfBit(f, start, |bytes|, i);
    }
  }

  lemma JoinedLists(f: nat -> bool, a: seq<Byte>, b: seq<Byte>)
    requires Lists(f, 0, a) && Lists(f, 8 * |a|, b)
    ensures Lists(f, 0, a + b)
  {
    hide PacketBit;
    forall i: nat | i < 8 * |a + b|
      ensures f(0 + i) == PacketBit(a + b, i)
    {
      BitOfJoined(a, b, i);
      if i < 8 * |a| {
        assert f(0 + i) == PacketBit(a, i);
      } else {
        assert f(8 * |a| + (i - 8 * |a|)) == PacketBit(b, i - 8 * |a|);
      }
    }
  }

  // f lists a packet exactly when its first 32 bits are the count and the bits behind are the payload.
  lemma ListedExactly(f: nat -> bool, payload: seq<Byte>)
    ensures Lists(f, 0, Packet(payload)) <==>
      && BytesOf(f, 0, PREFIX_SIZE) == LittleEndian(8 * |payload|, PREFIX_SIZE)
      && BytesOf(f, HEADER_BITS, |payload|) == payload
  {
    hide BytesOf, LittleEndian, Lists;
    var prefix := LittleEndian(8 * |payload|, PREFIX_SIZE);
    if Lists(f, 0, Packet(payload)) {
      PacketParts(f, payload);
    }
    if BytesOf(f, 0, PREFIX_SIZE) == prefix && BytesOf(f, HEADER_BITS, |payload|) == payload {
      BytesListed(f, 0, prefix);
      BytesListed(f, HEADER_BITS, payload);
      JoinedLists(f, prefix, payload);
    }
  }
}
