/** Bits inside bytes: the unit of every least-significant-bit carrier. */
module UnitBits {
  import opened GaloisField

  function BitAt(u: Byte, s: nat): bool
    requires s < 8
  {
    (u >> s) & 1 == 1
  }

  function BitValue(b: bool): Byte {
    if b then 1 else 0
  }

  function ShiftBit(b: bool, s: nat): Byte
    requires s < 8
  {
    BitValue(b) << s
  }

  function ClearMask(bits: nat): Byte
    requires bits <= 4
  {
    !((1 << bits) - 1)
  }

  // u with its low `bits` bits cleared.
  function Masked(u: Byte, bits: nat): Byte
    requires bits <= 4
  {
    u & ClearMask(bits)
  }

  // Replace the low `bits` bits of u.
  function Put(u: Byte, low: Byte, bits: nat): Byte
    requires bits <= 4
  {
    (u & ClearMask(bits)) | low
  }

  // Bit i of the stream, zero past its end.
  function StreamBit(stream: seq<bool>, i: nat): bool {
    i < |stream| && stream[i]
  }

  // The low bits of a unit after `count` of the `bits` stream bits from `start` on were placed, highest first.
  function Pack(stream: seq<bool>, start: nat, bits: nat, count: nat): Byte
    requires count <= bits <= 4
  {
    if count == 0 then 0
    else Pack(stream, start, bits, count - 1) | ShiftBit(StreamBit(stream, start + count - 1), bits - count)
  }

  lemma ByteExtensional(a: Byte, b: Byte)
    requires forall s {:trigger BitAt(a, s)} {:trigger BitAt(b, s)} :: 0 <= s < 8 ==> BitAt(a, s) == BitAt(b, s)
    ensures a == b
  {
    assert BitAt(a, 0) == BitAt(b, 0) && BitAt(a, 1) == BitAt(b, 1) && BitAt(a, 2) == BitAt(b, 2) && BitAt(a, 3) == BitAt(b, 3);
    assert BitAt(a, 4) == BitAt(b, 4) && BitAt(a, 5) == BitAt(b, 5) && BitAt(a, 6) == BitAt(b, 6) && BitAt(a, 7) == BitAt(b, 7);
  }

  lemma OrBit(v: Byte, b: bool, at: nat, s: nat)
    requires at < 8 && s < 8
    ensures BitAt(v | ShiftBit(b, at), s) == (BitAt(v, s) || (b && s == at))
  {
  }

  lemma OrBits(v: Byte, w: Byte, s: nat)
    requires s < 8
    ensures BitAt(v | w, s) == (BitAt(v, s) || BitAt(w, s))
  {
  }

  lemma ZeroBits(s: nat)
    requires s < 8
    ensures !BitAt(0, s)
  {}

  lemma ClearedBits(u: Byte, bits: nat, s: nat)
    requires bits <= 4 && s < 8
    ensures BitAt(u & ClearMask(bits), s) == (s >= bits && BitAt(u, s))
  {
  }

  lemma MaskedBits(u: Byte, bits: nat, s: nat)
    requires bits <= 4 && s < 8
    ensures BitAt(Masked(u, bits), s) == (s >= bits && BitAt(u, s))
  {
    hide BitAt, ClearMask;
    ClearedBits(u, bits, s);
  }

  lemma {:induction false} PackBits(stream: seq<bool>, start: nat, bits: nat, count: nat, s: nat)
    requires count <= bits <= 4 && s < 8
    ensures BitAt(Pack(stream, start, bits, count), s)
         == (bits - count <= s < bits && StreamBit(stream, start + (bits - 1 - s)))
  {
    hide BitAt, ShiftBit, StreamBit;
    if count == 0 {
      ZeroBits(s);
    } else {
      PackBits(stream, start, bits, count - 1, s);
      OrBit(Pack(stream, start, bits, count - 1), StreamBit(stream, start + count - 1), bits - count, s);
    }
  }

  // A written unit holds stream bits below `bits` and its old bits above.
  lemma PutBits(u: Byte, stream: seq<bool>, start: nat, bits: nat, s: nat)
    requires bits <= 4 && s < 8
    ensures BitAt(Put(u, Pack(stream, start, bits, bits), bits), s)
         == if s < bits then StreamBit(stream, start + (bits - 1 - s)) else BitAt(u, s)
  {
    hide BitAt, ClearMask, Pack, StreamBit;
    PackBits(stream, start, bits, bits, s);
    ClearedBits(u, bits, s);
    OrBits(u & ClearMask(bits), Pack(stream, start, bits, bits), s);
  }
}

/** Bit streams written into and read back from the low bits of selected bytes. */
module BitStreams {
  import opened GaloisField
  import opened UnitBits

  // --- bytes as bits, most significant first ----------------------------------------

  function PacketBit(packet: seq<Byte>, i: nat): bool
    requires i < 8 * |packet|
  {
    BitAt(packet[i / 8], 7 - i % 8)
  }

  function BytesToBits(bytes: seq<Byte>): (stream: seq<bool>)
    ensures |stream| == 8 * |bytes|
  {
    seq(8 * |bytes|, i requires 0 <= i < 8 * |bytes| => PacketBit(bytes, i))
  }

  lemma BitsDetermineBytes(a: seq<Byte>, b: seq<Byte>)
    requires |a| == |b| && forall i :: 0 <= i < 8 * |a| ==> PacketBit(a, i) == PacketBit(b, i)
    ensures a == b
  {
    hide BitAt;
    forall j | 0 <= j < |a|
      ensures a[j] == b[j]
    {
      forall s {:trigger BitAt(a[j], s)} | 0 <= s < 8
        ensures BitAt(a[j], s) == BitAt(b[j], s)
      {
        var i := 8 * j + (7 - s);
        assert i / 8 == j && i % 8 == 7 - s;
        assert PacketBit(a, i) == PacketBit(b, i);
      }
      ByteExtensional(a[j], b[j]);
    }
  }

  // --- writing ------------------------------------------------------------------------

  function UnitsNeeded(n: nat, bits: nat): nat
    requires bits > 0
  {
    (n + bits - 1) / bits
  }

  ghost predicate InBounds(slot: nat -> nat, count: nat, size: nat) {
    forall u: nat :: u < count ==> slot(u) < size
  }

  ghost predicate Injective(slot: nat -> nat, count: nat) {
    forall u: nat, v: nat :: u < v < count ==> slot(u) != slot(v)
  }

  // Unit u sits at byte u.
  function InOrder(): nat -> nat {
    (u: nat) => u
  }

  // The carrier after the first `count` units of the stream were written.
  ghost function Embedded(data: seq<Byte>, slot: nat -> nat, stream: seq<bool>, bits: nat, count: nat): (r: seq<Byte>)
    requires bits <= 4 && InBounds(slot, count, |data|)
    ensures |r| == |data|
  {
    if count == 0 then data
    else
      var d := Embedded(data, slot, stream, bits, count - 1);
      var p := slot(count - 1);
      d[p := Put(d[p], Pack(stream, (count - 1) * bits, bits, bits), bits)]
  }

  // Bytes that are nobody's slot keep their value.
  lemma {:induction false} EmbeddedElsewhere(data: seq<Byte>, slot: nat -> nat, stream: seq<bool>, bits: nat,
                                             count: nat, p: nat)
    requires bits <= 4 && InBounds(slot, count, |data|) && p < |data|
    requires forall u: nat :: u < count ==> slot(u) != p
    ensures Embedded(data, slot, stream, bits, count)[p] == data[p]
  {
    hide Put, Pack;
    if count > 0 {
      EmbeddedElsewhere(data, slot, stream, bits, count - 1, p);
    }
  }

  lemma {:induction false} EmbeddedAt(data: seq<Byte>, slot: nat -> nat, stream: seq<bool>, bits: nat, count: nat,
                                      u: nat)
    requires bits <= 4 && InBounds(slot, count, |data|) && Injective(slot, count) && u < count
    ensures Embedded(data, slot, stream, bits, count)[slot(u)] == Put(data[slot(u)], Pack(stream, u * bits, bits, bits), bits)
  {
    hide Put, Pack;
    if u == count - 1 {
      EmbeddedElsewhere(data, slot, stream, bits, count - 1, slot(u));
    } else {
      EmbeddedAt(data, slot, stream, bits, count - 1, u);
      assert slot(u) != slot(count - 1);
    }
  }

  // Only the slots that are written matter.
  lemma {:induction false} EmbeddedCongruent(data: seq<Byte>, a: nat -> nat, b: nat -> nat, stream: seq<bool>,
                                             bits: nat, count: nat)
    requires bits <= 4 && InBounds(a, count, |data|) && forall u: nat :: u < count ==> a(u) == b(u)
    ensures InBounds(b, count, |data|)
    ensures Embedded(data, a, stream, bits, count) == Embedded(data, b, stream, bits, count)
  {
    hide Put, Pack;
    if count > 0 {
      EmbeddedCongruent(data, a, b, stream, bits, count - 1);
    }
  }

  // The high bits of every byte survive.
  lemma {:induction false} EmbeddedHighBits(data: seq<Byte>, slot: nat -> nat, stream: seq<bool>, bits: nat,
                                            count: nat, p: nat, s: nat)
    requires bits <= 4 && InBounds(slot, count, |data|) && p < |data| && bits <= s < 8
    ensures BitAt(Embedded(data, slot, stream, bits, count)[p], s) == BitAt(data[p], s)
  {
    hide Put, Pack, BitAt;
    if count > 0 {
      EmbeddedHighBits(data, slot, stream, bits, count - 1, p, s);
      PutBits(Embedded(data, slot, stream, bits, count - 1)[slot(count - 1)], stream, (count - 1) * bits, bits, s);
    }
  }

  // --- reading ------------------------------------------------------------------------

  function ReadBit(data: seq<Byte>, slot: nat -> nat, bits: nat, i: nat): bool
    requires 0 < bits <= 4
  {
    slot(i / bits) < |data| && BitAt(data[slot(i / bits)], bits - 1 - i % bits)
  }

  lemma DivModUnits(i: nat, n: nat, bits: nat)
    requires 0 < bits <= 4 && i < n
    ensures i / bits < UnitsNeeded(n, bits)
    ensures (i / bits) * bits + i % bits == i
  {
    if bits == 1 {
    } else if bits == 2 {
    } else if bits == 3 {
    } else {
    }
  }

  // Every bit written is read back, also when it shares a unit with bits of another byte.
  lemma ReadBack(data: seq<Byte>, slot: nat -> nat, stream: seq<bool>, bits: nat, i: nat)
    requires 0 < bits <= 4 && i < |stream|
    requires var n := UnitsNeeded(|stream|, bits); InBounds(slot, n, |data|) && Injective(slot, n)
    ensures i / bits < UnitsNeeded(|stream|, bits)
    ensures ReadBit(Embedded(data, slot, stream, bits, UnitsNeeded(|stream|, bits)), slot, bits, i) == stream[i]
  {
    hide Put, Pack, BitAt, UnitsNeeded;
    DivModUnits(i, |stream|, bits);
    var u := i / bits;
    EmbeddedAt(data, slot, stream, bits, UnitsNeeded(|stream|, bits), u);
    PutBits(data[slot(u)], stream, u * bits, bits, bits - 1 - i % bits);
  }

  // --- bytes assembled from bits --------------------------------------------------------

  // The bits of a byte assembled from the first `count` bits of f, highest first.
  function Assemble(f: nat -> bool, start: nat, count: nat): Byte
    requires count <= 8
  {
    if count == 0 then 0
    else Assemble(f, start, count - 1) | ShiftBit(f(start + count - 1), 8 - count)
  }

  lemma {:induction false} AssembleBits(f: nat -> bool, start: nat, count: nat, s: nat)
    requires count <= 8 && s < 8
    ensures BitAt(Assemble(f, start, count), s) == (8 - count <= s && f(start + 7 - s))
  {
    hide BitAt, ShiftBit;
    if count == 0 {
      ZeroBits(s);
    } else {
      AssembleBits(f, start, count - 1, s);
      OrBit(Assemble(f, start, count - 1), f(start + count - 1), 8 - count, s);
    }
  }

  lemma AssembleOnce(f: nat -> bool, start: nat, count: nat)
    requires count < 8
    ensures Assemble(f, start, 0) == 0
    ensures Assemble(f, start, count + 1) == Assemble(f, start, count) | ShiftBit(f(start + count), 7 - count)
  {
    hide ShiftBit;
  }

  // The bytes made of the bits of f from `start` on.
  function BytesOf(f: nat -> bool, start: nat, count: nat): (bytes: seq<Byte>)
    ensures |bytes| == count
  {
    seq(count, j requires 0 <= j < count => Assemble(f, start + 8 * j, 8))
  }

  lemma BytesOfBit(f: nat -> bool, start: nat, count: nat, i: nat)
    requires i < 8 * count
    ensures PacketBit(BytesOf(f, start, count), i) == f(start + i)
  {
    hide BitAt, Assemble;
    AssembleBits(f, start + 8 * (i / 8), 8, 7 - i % 8);
  }

  // Bytes whose bits f lists are what is assembled from f.
  lemma BytesOfStream(f: nat -> bool, start: nat, bytes: seq<Byte>)
    requires forall i :: 0 <= i < 8 * |bytes| ==> f(start + i) == PacketBit(bytes, i)
    ensures BytesOf(f, start, |bytes|) == bytes
  {
    hide PacketBit, BytesOf;
    forall i | 0 <= i < 8 * |bytes|
      ensures PacketBit(BytesOf(f, start, |bytes|), i) == PacketBit(bytes, i)
    {
      BytesOfBit(f, start, |bytes|, i);
    }
    BitsDetermineBytes(BytesOf(f, start, |bytes|), bytes);
  }

  // Equal bits assemble to equal bytes.
  lemma BytesOfCongruent(f: nat -> bool, g: nat -> bool, start: nat, count: nat)
    requires forall i: nat :: i < start + 8 * count ==> f(i) == g(i)
    ensures BytesOf(f, start, count) == BytesOf(g, start, count)
  {
    hide PacketBit, BytesOf;
    forall i | 0 <= i < 8 * count
      ensures PacketBit(BytesOf(f, start, count), i) == PacketBit(BytesOf(g, start, count), i)
    {
      BytesOfBit(f, start, count, i);
      BytesOfBit(g, start, count, i);
    }
    BitsDetermineBytes(BytesOf(f, start, count), BytesOf(g, start, count));
  }

  // The bytes found at the slots, `count` of them.
  function ReadBytes(data: seq<Byte>, slot: nat -> nat, bits: nat, count: nat): (bytes: seq<Byte>)
    requires 0 < bits <= 4
    ensures |bytes| == count
  {
    BytesOf((i: nat) => ReadBit(data, slot, bits, i), 0, count)
  }

  lemma ReadBytesBit(data: seq<Byte>, slot: nat -> nat, bits: nat, count: nat, i: nat)
    requires 0 < bits <= 4 && i < 8 * count
    ensures PacketBit(ReadBytes(data, slot, bits, count), i) == ReadBit(data, slot, bits, i)
  {
    hide BitAt, ReadBit, BytesOf;
    BytesOfBit((k: nat) => ReadBit(data, slot, bits, k), 0, count, i);
  }

  // Reading the bytes that were written returns them, and a shorter read returns a prefix.
  lemma BytesReadBack(data: seq<Byte>, slot: nat -> nat, packet: seq<Byte>, bits: nat, count: nat)
    requires 0 < bits <= 4 && count <= |packet|
    requires var n := UnitsNeeded(8 * |packet|, bits); InBounds(slot, n, |data|) && Injective(slot, n)
    ensures ReadBytes(Embedded(data, slot, BytesToBits(packet), bits, UnitsNeeded(8 * |packet|, bits)), slot, bits, count)
         == packet[..count]
  {
    hide BitAt, ReadBit, UnitsNeeded, Embedded, InBounds, Injective, ReadBytes;
    var stream := BytesToBits(packet);
    var after := Embedded(data, slot, stream, bits, UnitsNeeded(8 * |packet|, bits));
    var found := ReadBytes(after, slot, bits, count);
    forall i | 0 <= i < 8 * count
      ensures PacketBit(found, i) == PacketBit(packet[..count], i)
    {
      ReadBytesBit(after, slot, bits, count, i);
      ReadBack(data, slot, stream, bits, i);
      assert stream[i] == PacketBit(packet, i);
    }
    BitsDetermineBytes(found, packet[..count]);
  }

  // What is read depends on nothing but the units that hold the stream.
  lemma ReadBytesCongruent(a: seq<Byte>, b: seq<Byte>, slot: nat -> nat, bits: nat, count: nat)
    requires 0 < bits <= 4
    requires forall i: nat :: i < 8 * count ==> ReadBit(a, slot, bits, i) == ReadBit(b, slot, bits, i)
    ensures ReadBytes(a, slot, bits, count) == ReadBytes(b, slot, bits, count)
  {
    hide BitAt, ReadBit, ReadBytes;
    forall i | 0 <= i < 8 * count
      ensures PacketBit(ReadBytes(a, slot, bits, count), i) == PacketBit(ReadBytes(b, slot, bits, count), i)
    {
      ReadBytesBit(a, slot, bits, count, i);
      ReadBytesBit(b, slot, bits, count, i);
    }
    BitsDetermineBytes(ReadBytes(a, slot, bits, count), ReadBytes(b, slot, bits, count));
  }

  // --- stepping through units ---------------------------------------------------------

  function Min(a: nat, b: nat): nat {
    if a <= b then a else b
  }

  lemma UnitsStep(unit: nat, neededBits: nat, bits: nat)
    requires 0 < bits <= 4 && unit * bits < neededBits
    ensures unit + 1 <= UnitsNeeded(neededBits, bits)
    ensures (unit + 1) * bits == unit * bits + bits
  {
    if bits == 1 {
    } else if bits == 2 {
    } else if bits == 3 {
    } else {
    }
  }

  lemma UnitsEnd(unit: nat, neededBits: nat, bits: nat)
    requires 0 < bits <= 4
    ensures unit * bits >= neededBits <==> unit >= UnitsNeeded(neededBits, bits)
  {
    if bits == 1 {
    } else if bits == 2 {
    } else if bits == 3 {
    } else {
    }
  }

  // The step every embedder repeats: one more unit of the stream.
  lemma EmbeddedOnce(data: seq<Byte>, slot: nat -> nat, stream: seq<bool>, bits: nat, count: nat)
    requires bits <= 4 && InBounds(slot, count + 1, |data|)
    ensures Embedded(data, slot, stream, bits, 0) == data
    ensures var d := Embedded(data, slot, stream, bits, count);
            Embedded(data, slot, stream, bits, count + 1)
            == d[slot(count) := Put(d[slot(count)], Pack(stream, count * bits, bits, bits), bits)]
  {
    hide Put, Pack;
  }

  lemma EmbeddedNone(data: seq<Byte>, slot: nat -> nat, stream: seq<bool>, bits: nat)
    requires bits <= 4
    ensures Embedded(data, slot, stream, bits, 0) == data
  {}

  // Bits read so far of output byte j.
  function Progress(bitIndex: nat, j: nat): nat {
    if bitIndex <= 8 * j then 0 else if bitIndex >= 8 * j + 8 then 8 else bitIndex - 8 * j
  }

  lemma ReadOne(data: seq<Byte>, slot: nat -> nat, bits: nat, unit: nat, k: nat, i: nat)
    requires 0 < bits <= 4 && k < bits && i == unit * bits + k && slot(unit) < |data|
    ensures ReadBit(data, slot, bits, i) == BitAt(data[slot(unit)], bits - 1 - k)
  {
    if bits == 1 {
    } else if bits == 2 {
    } else if bits == 3 {
    } else {
    }
  }

  // --- the shared inner loops -----------------------------------------------------------

  // Collects the next `bits` bits of the packet, highest first, zeros past its end.
  method PackUnit(packet: seq<Byte>, bits: nat, bitIndex: nat) returns (low: Byte, next: nat)
    requires 0 < bits <= 4 && bitIndex <= 8 * |packet|
    ensures low == Pack(BytesToBits(packet), bitIndex, bits, bits)
    ensures next == if bitIndex + bits <= 8 * |packet| then bitIndex + bits else 8 * |packet|
  {
    hide BitAt, ShiftBit, Pack, BytesToBits;
    var stream := BytesToBits(packet);
    PackOnce(stream, bitIndex, bits, 0);
    low := 0;
    next := bitIndex;
    for shift := bits downto 0
      invariant low == Pack(stream, bitIndex, bits, bits - shift)
      invariant next == if bitIndex + (bits - shift) <= 8 * |packet| then bitIndex + (bits - shift) else 8 * |packet|
    {
      PackOnce(stream, bitIndex, bits, bits - 1 - shift);
      if next < 8 * |packet| {
        StreamBitOf(packet, next);
        low := low | ShiftBit(PacketBit(packet, next), shift);
        next := next + 1;
      }
    }
  }

  // The same loop over a bit array that was prepared beforehand.
  method PackStream(stream: seq<bool>, bits: nat, bitIndex: nat) returns (low: Byte, next: nat)
    requires 0 < bits <= 4 && bitIndex <= |stream|
    ensures low == Pack(stream, bitIndex, bits, bits)
    ensures next == if bitIndex + bits <= |stream| then bitIndex + bits else |stream|
  {
    hide ShiftBit, Pack;
    PackOnce(stream, bitIndex, bits, 0);
    low := 0;
    next := bitIndex;
    for shift := bits downto 0
      invariant low == Pack(stream, bitIndex, bits, bits - shift)
      invariant next == if bitIndex + (bits - shift) <= |stream| then bitIndex + (bits - shift) else |stream|
    {
      PackOnce(stream, bitIndex, bits, bits - 1 - shift);
      if next < |stream| {
        low := low | ShiftBit(stream[next], shift);
        next := next + 1;
      }
    }
  }

  lemma StreamBitOf(packet: seq<Byte>, i: nat)
    requires i < 8 * |packet|
    ensures StreamBit(BytesToBits(packet), i) == PacketBit(packet, i)
  {
    hide BitAt;
  }

  lemma PackOnce(stream: seq<bool>, start: nat, bits: nat, count: nat)
    requires count < bits <= 4
    ensures Pack(stream, start, bits, 0) == 0
    ensures Pack(stream, start, bits, count + 1)
         == Pack(stream, start, bits, count) | ShiftBit(StreamBit(stream, start + count), bits - count - 1)
    ensures start + count >= |stream| ==> Pack(stream, start, bits, count + 1) == Pack(stream, start, bits, count)
  {
    hide ShiftBit;
    OrNothing(Pack(stream, start, bits, count), bits - count - 1);
  }

  lemma OrNothing(v: Byte, s: nat)
    requires s < 8
    ensures v | ShiftBit(false, s) == v
  {}
}
