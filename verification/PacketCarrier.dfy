/** The spatial-LSB packet carriers of carrier.rs: sequential, keyed and interleaved. */
module PacketCarrier {
  import opened Results
  import opened Arithmetic
  import opened GaloisField
  import opened UnitBits
  import opened BitStreams

  const LOCATOR_SIZE := 32
  const TAG_SIZE := 8

  datatype CarrierError =
    | InvalidBits(bits: nat)
    | InsufficientCapacity(neededBits: nat, availableBits: nat, neededUnits: nat, availableUnits: nat, bitsPerUnit: nat)
    | DescriptorMismatch
    | NoPacket
    | PacketError

  // What packet.rs decides about packet bytes.
  datatype PacketFormat<!P> = PacketFormat(
    wellFormed: seq<Byte> -> bool,           // the bytes are an encoded packet
    describes: seq<Byte> -> bool,            // its envelope declares this placement and kernel
    packetLen: seq<Byte> -> Option<nat>,     // the length a locator announces
    parse: seq<Byte> -> Option<P>,
    accepts: P -> bool                       // the decoded envelope declares this placement and kernel
  )

  // A packet that packet.rs encoded: its locator gives its length and it decodes to p.
  ghost predicate Encodes<P>(format: PacketFormat<P>, packet: seq<Byte>, p: P) {
    && |packet| >= LOCATOR_SIZE
    && format.packetLen(packet[..LOCATOR_SIZE]) == Some(|packet|)
    && format.parse(packet) == Some(p)
    && format.accepts(p)
  }

  // --- capacity -----------------------------------------------------------------------

  datatype CapacityReport = CapacityReport(usableUnits: nat, availableBits: nat, maxPacketBytes: nat) {
    predicate Fits(packetLen: nat) {
      packetLen <= maxPacketBytes
    }
  }

  predicate ValidBits(bits: nat) {
    1 <= bits <= 4
  }

  function SequentialCapacity(units: nat, bits: nat): CapacityReport {
    CapacityReport(units, units * bits, units * bits / 8)
  }

  function TagUnits(bits: nat): nat
    requires ValidBits(bits)
  {
    UnitsNeeded(64, bits)
  }

  // The 64 bits of the tag, in whole units.
  lemma TagUnitsByStrength()
    ensures TagUnits(1) == 64 && TagUnits(2) == 32 && TagUnits(3) == 22 && TagUnits(4) == 16
  {}

  function KeyedCapacity(units: nat, bits: nat): CapacityReport
    requires ValidBits(bits)
  {
    var usable := if units < TagUnits(bits) then 0 else units - TagUnits(bits);
    CapacityReport(usable, usable * bits, usable * bits / 8)
  }

  // The capacity report and the ceiling-division checks of the embedders agree.
  lemma FitsIsCeiling(units: nat, bits: nat, packetLen: nat)
    requires ValidBits(bits)
    ensures SequentialCapacity(units, bits).usableUnits == units && SequentialCapacity(units, bits).availableBits == units * bits
    ensures SequentialCapacity(units, bits).Fits(packetLen) <==> 8 * packetLen <= units * bits
    ensures SequentialCapacity(units, bits).Fits(packetLen) <==> UnitsNeeded(8 * packetLen, bits) <= units
  {
    if bits == 1 {
    } else if bits == 2 {
    } else if bits == 3 {
    } else {
    }
  }

  // --- slots --------------------------------------------------------------------------

  // Logical unit u sits at byte (offset + slot(u)) * stride.
  function Strided(stride: nat, offset: nat, slot: nat -> nat): nat -> nat {
    (u: nat) => (offset + slot(u)) * stride
  }

  // slot visits `units` different units.
  ghost predicate Schedule(slot: nat -> nat, units: nat) {
    InBounds(slot, units, units) && Injective(slot, units)
  }

  lemma StridedBounds(stride: nat, offset: nat, slot: nat -> nat, units: nat, count: nat, size: nat)
    requires stride > 0 && Schedule(slot, units) && count <= units && (offset + units) * stride <= size
    ensures InBounds(Strided(stride, offset, slot), count, size) && Injective(Strided(stride, offset, slot), count)
  {
    var at := Strided(stride, offset, slot);
    forall u: nat | u < count
      ensures at(u) < size
    {
      MulMonotone(offset + slot(u) + 1, offset + units, stride);
    }
    forall u: nat, v: nat | u < v < count
      ensures at(u) != at(v)
    {
      if slot(u) < slot(v) {
        MulMonotone(offset + slot(u) + 1, offset + slot(v), stride);
      } else {
        MulMonotone(offset + slot(v) + 1, offset + slot(u), stride);
      }
    }
  }

  // Units below the offset are never slots of a strided schedule past it.
  lemma StridedDisjoint(stride: nat, offset: nat, slot: nat -> nat, u: nat, v: nat)
    requires stride > 0 && v < offset
    ensures Strided(stride, offset, slot)(u) != Strided(stride, 0, InOrder())(v)
  {
    MulMonotone(v + 1, offset + slot(u), stride);
  }

  lemma UnitsFit(size: nat, stride: nat)
    requires stride > 0
    ensures (size / stride) * stride <= size
  {}

  // --- sequential writing and reading ---------------------------------------------------

  lemma InOrderSlots(stride: nat, units: nat, size: nat, count: nat)
    requires stride > 0 && units == size / stride && count <= units
    ensures InBounds(Strided(stride, 0, InOrder()), count, size) && Injective(Strided(stride, 0, InOrder()), count)
    ensures forall u {:trigger Strided(stride, 0, InOrder())(u)} :: 0 <= u < count ==> Strided(stride, 0, InOrder())(u) == u * stride
  {
    UnitsFit(size, stride);
    InOrderSchedule(units);
    StridedBounds(stride, 0, InOrder(), units, count, size);
  }

  method WriteBitsSequential(carrier: array<Byte>, stride: nat, data: seq<Byte>, bits: nat)
    requires ValidBits(bits) && stride > 0
    modifies carrier
    ensures var count := Min(UnitsNeeded(8 * |data|, bits), carrier.Length / stride);
            InBounds(Strided(stride, 0, InOrder()), count, carrier.Length)
            && carrier[..] == Embedded(old(carrier[..]), Strided(stride, 0, InOrder()), BytesToBits(data), bits, count)
  {
    hide Put, Pack, BytesToBits, Embedded, Strided, UnitsNeeded;
    ghost var before := carrier[..];
    ghost var at := Strided(stride, 0, InOrder());
    var neededBits := 8 * |data|;
    var unitCount := carrier.Length / stride;
    InOrderSlots(stride, unitCount, carrier.Length, unitCount);
    var bitIndex := 0;
    var unitIndex := 0;
    EmbeddedNone(before, at, BytesToBits(data), bits);
    while unitIndex < unitCount && bitIndex < neededBits
      invariant unitIndex <= unitCount && InBounds(at, unitIndex, |before|)
      invariant bitIndex == Min(unitIndex * bits, neededBits)
      invariant unitIndex <= UnitsNeeded(neededBits, bits)
      invariant carrier[..] == Embedded(before, at, BytesToBits(data), bits, unitIndex)
    {
      UnitsStep(unitIndex, neededBits, bits);
      EmbeddedOnce(before, at, BytesToBits(data), bits, unitIndex);
      var low: Byte;
      low, bitIndex := PackUnit(data, bits, bitIndex);
      assert at(unitIndex) == unitIndex * stride < carrier.Length;
      carrier[unitIndex * stride] := Put(carrier[unitIndex * stride], low, bits);
      unitIndex := unitIndex + 1;
    }
    UnitsEnd(unitIndex, neededBits, bits);
  }

  lemma InOrderSchedule(units: nat)
    ensures Schedule(InOrder(), units)
  {}

  // --- keyed and interleaved placement ---------------------------------------------------

  // The recognition tag and the body schedules that a 32-byte key gives rise to.
  datatype Keys = Keys(tag: (nat, nat) -> seq<Byte>, schedule: nat -> (nat -> nat))

  ghost predicate ValidKeys(keys: Keys) {
    && (forall units, bits :: |keys.tag(units, bits)| == TAG_SIZE)
    && (forall units: nat {:trigger keys.schedule(units)} :: units > 0 ==> Schedule(keys.schedule(units), units))
  }

  datatype EmbedReport = EmbedReport(packetBytes: nat, modifiedUnits: nat, remainingBytes: nat)

  // Slots of the tag and slots of the body behind it.
  function TagSlots(stride: nat): nat -> nat {
    Strided(stride, 0, InOrder())
  }

  function BodySlots(keys: Keys, stride: nat, units: nat, bits: nat): nat -> nat
    requires ValidBits(bits) && units > TagUnits(bits)
  {
    Strided(stride, TagUnits(bits), keys.schedule(units - TagUnits(bits)))
  }

  ghost predicate KeyedFits(size: nat, stride: nat, packetLen: nat, bits: nat)
    requires stride > 0 && ValidBits(bits)
  {
    size / stride > TagUnits(bits) && UnitsNeeded(8 * packetLen, bits) <= size / stride - TagUnits(bits)
  }

  // The keyed capacity report and the keyed embedder's checks agree for every packet but the empty one, which the
  // report admits to carriers that have no unit behind the tag.
  lemma KeyedFitsAgrees(size: nat, stride: nat, packetLen: nat, bits: nat)
    requires stride > 0 && ValidBits(bits)
    ensures KeyedCapacity(size / stride, bits).Fits(packetLen)
            <==> KeyedFits(size, stride, packetLen, bits) || (packetLen == 0 && size / stride <= TagUnits(bits))
    ensures var units, report := size / stride, KeyedCapacity(size / stride, bits);
            units >= TagUnits(bits) ==>
              report.usableUnits == units - TagUnits(bits) && report.availableBits == report.usableUnits * bits
  {
    hide TagUnits, UnitsNeeded;
    var units := size / stride;
    if units > TagUnits(bits) {
      FitsIsCeiling(units - TagUnits(bits), bits, packetLen);
    }
  }

  lemma TagSlotsValid(stride: nat, bits: nat, size: nat)
    requires stride > 0 && ValidBits(bits) && size / stride >= TagUnits(bits)
    ensures InBounds(TagSlots(stride), TagUnits(bits), size) && Injective(TagSlots(stride), TagUnits(bits))
  {
    InOrderSlots(stride, size / stride, size, TagUnits(bits));
  }

  lemma BodySlotsValid(keys: Keys, stride: nat, bits: nat, size: nat, count: nat)
    requires stride > 0 && ValidBits(bits) && ValidKeys(keys)
    requires size / stride > TagUnits(bits) && count <= size / stride - TagUnits(bits)
    ensures InBounds(BodySlots(keys, stride, size / stride, bits), count, size)
    ensures Injective(BodySlots(keys, stride, size / stride, bits), count)
  {
    var body := size / stride - TagUnits(bits);
    UnitsFit(size, stride);
    StridedBounds(stride, TagUnits(bits), keys.schedule(body), body, count, size);
  }

  // The carrier with the tag in front and the packet at its keyed slots.
  ghost function KeyedEmbedded(keys: Keys, data: seq<Byte>, stride: nat, packet: seq<Byte>, bits: nat): (r: seq<Byte>)
    requires stride > 0 && ValidBits(bits) && ValidKeys(keys) && KeyedFits(|data|, stride, |packet|, bits)
    ensures |r| == |data|
  {
    var units := |data| / stride;
    TagSlotsValid(stride, bits, |data|);
    BodySlotsValid(keys, stride, bits, |data|, UnitsNeeded(8 * |packet|, bits));
    var tagged := Embedded(data, TagSlots(stride), BytesToBits(keys.tag(units, bits)), bits, TagUnits(bits));
    Embedded(tagged, BodySlots(keys, stride, units, bits), BytesToBits(packet), bits, UnitsNeeded(8 * |packet|, bits))
  }

  method WriteBody(carrier: array<Byte>, stride: nat, offset: nat, slot: nat -> nat, packet: seq<Byte>, bits: nat)
    requires ValidBits(bits) && InBounds(Strided(stride, offset, slot), UnitsNeeded(8 * |packet|, bits), carrier.Length)
    modifies carrier
    ensures carrier[..] == Embedded(old(carrier[..]), Strided(stride, offset, slot), BytesToBits(packet), bits,
                                    UnitsNeeded(8 * |packet|, bits))
  {
    hide Put, Pack, BytesToBits, Embedded, UnitsNeeded;
    ghost var before := carrier[..];
    ghost var at := Strided(stride, offset, slot);
    var neededBits := 8 * |packet|;
    var neededUnits := UnitsNeeded(neededBits, bits);
    var bitIndex := 0;
    EmbeddedNone(before, at, BytesToBits(packet), bits);
    for logicalUnit := 0 to neededUnits
      invariant bitIndex == Min(logicalUnit * bits, neededBits)
      invariant carrier[..] == Embedded(before, at, BytesToBits(packet), bits, logicalUnit)
    {
      UnitsEnd(logicalUnit, neededBits, bits);
      UnitsStep(logicalUnit, neededBits, bits);
      EmbeddedOnce(before, at, BytesToBits(packet), bits, logicalUnit);
      var physical := (offset + slot(logicalUnit)) * stride;
      assert physical == at(logicalUnit);
      var low: Byte;
      low, bitIndex := PackUnit(packet, bits, bitIndex);
      carrier[physical] := Put(carrier[physical], low, bits);
    }
  }

  method EmbedKeyed<P>(keys: Keys, format: PacketFormat<P>, carrier: array<Byte>, stride: nat, packet: seq<Byte>,
                       bits: nat)
    returns (r: Result<EmbedReport, CarrierError>)
    requires stride > 0 && ValidKeys(keys)
    modifies carrier
    ensures r.Ok? <==>
      ValidBits(bits) && format.wellFormed(packet) && format.describes(packet) && KeyedFits(carrier.Length, stride, |packet|, bits)
    ensures r.Err? ==> carrier[..] == old(carrier[..])
    ensures r.Ok? ==> carrier[..] == KeyedEmbedded(keys, old(carrier[..]), stride, packet, bits)
    ensures r.Ok? ==> r.value == EmbedReport(|packet|, TagUnits(bits) + UnitsNeeded(8 * |packet|, bits),
                                             KeyedCapacity(carrier.Length / stride, bits).maxPacketBytes - |packet|)
    ensures !(1 <= bits <= 4) ==> r == Err(InvalidBits(bits))
    ensures 1 <= bits <= 4 && !format.wellFormed(packet) ==> r == Err(PacketError)
    ensures 1 <= bits <= 4 && format.wellFormed(packet) && !format.describes(packet) ==> r == Err(DescriptorMismatch)
    ensures 1 <= bits <= 4 && format.wellFormed(packet) && format.describes(packet) && r.Err? ==>
      var units: nat := carrier.Length / stride;
      var all, behind := SequentialCapacity(units, bits).availableBits, KeyedCapacity(units, bits);
      r.error == if units < TagUnits(bits) then InsufficientCapacity(64, all, TagUnits(bits), units, bits)
                 else if units == TagUnits(bits) then InsufficientCapacity(64 + bits, all, TagUnits(bits) + 1, units, bits)
                 else InsufficientCapacity(8 * |packet|, behind.availableBits, UnitsNeeded(8 * |packet|, bits),
                                           behind.usableUnits, bits)
  {
    hide Embedded, BytesToBits, Strided, UnitsNeeded;
    if !ValidBits(bits) {
      return Err(InvalidBits(bits));
    }
    if !format.wellFormed(packet) {
      return Err(PacketError);
    }
    if !format.describes(packet) {
      return Err(DescriptorMismatch);
    }
    var unitCount := carrier.Length / stride;
    var tagUnits := TagUnits(bits);
    if unitCount < tagUnits {
      return Err(InsufficientCapacity(64, unitCount * bits, tagUnits, unitCount, bits));
    }
    var bodyUnits := unitCount - tagUnits;
    if bodyUnits == 0 {
      return Err(InsufficientCapacity(64 + bits, unitCount * bits, tagUnits + 1, unitCount, bits));
    }
    var neededBits := 8 * |packet|;
    var neededUnits := UnitsNeeded(neededBits, bits);
    if neededUnits > bodyUnits {
      return Err(InsufficientCapacity(neededBits, bodyUnits * bits, neededUnits, bodyUnits, bits));
    }
    TagSlotsValid(stride, bits, carrier.Length);
    BodySlotsValid(keys, stride, bits, carrier.Length, neededUnits);
    WriteBitsSequential(carrier, stride, keys.tag(unitCount, bits), bits);
    WriteBody(carrier, stride, tagUnits, keys.schedule(bodyUnits), packet, bits);
    FitsIsCeiling(bodyUnits, bits, |packet|);
    r := Ok(EmbedReport(|packet|, tagUnits + neededUnits, bodyUnits * bits / 8 - |packet|));
  }

  // --- reading --------------------------------------------------------------------------

  // The output bytes hold the first bitIndex bits of f.
  ghost predicate Collected(output: seq<Byte>, f: nat -> bool, byteCount: nat, bitIndex: nat) {
    |output| == byteCount && forall j :: 0 <= j < byteCount ==> output[j] == Assemble(f, 8 * j, Progress(bitIndex, j))
  }

  lemma CollectedStart(f: nat -> bool, byteCount: nat)
    ensures Collected(seq(byteCount, j => 0), f, byteCount, 0)
  {
    hide Assemble;
    forall j | 0 <= j < byteCount
      ensures Assemble(f, 8 * j, Progress(0, j)) == 0
    {
      AssembleOnce(f, 8 * j, 0);
    }
  }

  lemma CollectedStep(output: seq<Byte>, f: nat -> bool, byteCount: nat, bitIndex: nat)
    requires Collected(output, f, byteCount, bitIndex) && bitIndex < 8 * byteCount
    ensures Collected(output[bitIndex / 8 := output[bitIndex / 8] | ShiftBit(f(bitIndex), 7 - bitIndex % 8)],
                      f, byteCount, bitIndex + 1)
  {
    hide Assemble, ShiftBit;
    AssembleOnce(f, 8 * (bitIndex / 8), bitIndex % 8);
  }

  lemma CollectedEnd(output: seq<Byte>, f: nat -> bool, byteCount: nat)
    requires Collected(output, f, byteCount, 8 * byteCount)
    ensures output == BytesOf(f, 0, byteCount)
  {
    hide Assemble;
  }

  method ReadBytesAt(carrier: seq<Byte>, stride: nat, offset: nat, slot: nat -> nat, totalUnits: nat, byteCount: nat,
                     bits: nat)
    returns (r: Result<seq<Byte>, CarrierError>)
    requires ValidBits(bits) && InBounds(Strided(stride, offset, slot), totalUnits, |carrier|)
    ensures r == if UnitsNeeded(8 * byteCount, bits) > totalUnits
                 then Err(InsufficientCapacity(8 * byteCount, totalUnits * bits, UnitsNeeded(8 * byteCount, bits), totalUnits, bits))
                 else Ok(ReadBytes(carrier, Strided(stride, offset, slot), bits, byteCount))
  {
    hide BitAt, ShiftBit, Collected, UnitsNeeded;
    ghost var at := Strided(stride, offset, slot);
    ghost var f := (i: nat) => ReadBit(carrier, at, bits, i);
    var bitCount := 8 * byteCount;
    var requiredUnits := UnitsNeeded(bitCount, bits);
    if requiredUnits > totalUnits {
      return Err(InsufficientCapacity(bitCount, totalUnits * bits, requiredUnits, totalUnits, bits));
    }
    var output: seq<Byte> := seq(byteCount, j => 0);
    CollectedStart(f, byteCount);
    var bitIndex := 0;
    for logicalUnit := 0 to requiredUnits
      invariant |output| == byteCount && Collected(output, f, byteCount, bitIndex)
      invariant bitIndex == Min(logicalUnit * bits, bitCount)
    {
      UnitsEnd(logicalUnit, bitCount, bits);
      UnitsStep(logicalUnit, bitCount, bits);
      var physical := (offset + slot(logicalUnit)) * stride;
      assert physical == at(logicalUnit);
      var unit := carrier[physical];
      for shift := bits downto 0
        invariant |output| == byteCount && Collected(output, f, byteCount, bitIndex)
        invariant bitIndex == Min(logicalUnit * bits + (bits - shift), bitCount)
      {
        if bitIndex < bitCount {
          ReadOne(carrier, at, bits, logicalUnit, bits - 1 - shift, bitIndex);
          CollectedStep(output, f, byteCount, bitIndex);
          output := output[bitIndex / 8 := output[bitIndex / 8] | ShiftBit(BitAt(unit, shift), 7 - bitIndex % 8)];
          bitIndex := bitIndex + 1;
        }
      }
    }
    UnitsEnd(requiredUnits, bitCount, bits);
    CollectedEnd(output, f, byteCount);
    r := Ok(output);
  }

  method ExtractBytes(carrier: seq<Byte>, stride: nat, byteCount: nat, bits: nat)
    returns (r: Result<seq<Byte>, CarrierError>)
    requires ValidBits(bits) && stride > 0
    ensures var units := |carrier| / stride;
            r == if UnitsNeeded(8 * byteCount, bits) > units
                 then Err(InsufficientCapacity(8 * byteCount, units * bits, UnitsNeeded(8 * byteCount, bits), units, bits))
                 else Ok(ReadBytes(carrier, TagSlots(stride), bits, byteCount))
  {
    hide ReadBytes, UnitsNeeded;
    var unitCount := |carrier| / stride;
    InOrderSlots(stride, unitCount, |carrier|, unitCount);
    r := ReadBytesAt(carrier, stride, 0, InOrder(), unitCount, byteCount, bits);
  }

  method ConstantTimeEq(a: seq<Byte>, b: seq<Byte>) returns (equal: bool)
    ensures equal <==> a == b
  {
    if |a| != |b| {
      return false;
    }
    var diff: Byte := 0;
    for i := 0 to |a|
      invariant diff == 0 <==> a[..i] == b[..i]
    {
      DiffBit(diff, a[i], b[i]);
      assert a[..i + 1] == a[..i] + [a[i]] && b[..i + 1] == b[..i] + [b[i]];
      diff := diff | (a[i] ^ b[i]);
    }
    assert a[..|a|] == a && b[..|b|] == b;
    equal := diff == 0;
  }

  lemma DiffBit(diff: Byte, x: Byte, y: Byte)
    ensures diff | (x ^ y) == 0 <==> diff == 0 && x == y
  {}

  // --- extraction -----------------------------------------------------------------------

  datatype ExtractReport<+P> = ExtractReport(packet: P, consumedUnits: nat, bitsPerUnit: nat)

  // Two-phase reading: the locator first, then as many bytes as it announces.
  function BodyExtraction<P>(format: PacketFormat<P>, carrier: seq<Byte>, slots: nat -> nat, offset: nat, units: nat,
                             bits: nat)
    : Result<ExtractReport<P>, CarrierError>
    requires ValidBits(bits)
  {
    var locatorUnits := UnitsNeeded(8 * LOCATOR_SIZE, bits);
    if locatorUnits > units then
      Err(InsufficientCapacity(8 * LOCATOR_SIZE, units * bits, locatorUnits, units, bits))
    else
      var announced := format.packetLen(ReadBytes(carrier, slots, bits, LOCATOR_SIZE));
      if announced.None? then Err(PacketError)
      else
        var needed := UnitsNeeded(8 * announced.value, bits);
        if needed > units then
          Err(InsufficientCapacity(8 * announced.value, units * bits, needed, units, bits))
        else
          var parsed := format.parse(ReadBytes(carrier, slots, bits, announced.value));
          if parsed.None? then Err(PacketError)
          else if !format.accepts(parsed.value) then Err(DescriptorMismatch)
          else Ok(ExtractReport(parsed.value, offset + needed, bits))
  }

  function KeyedExtraction<P>(keys: Keys, format: PacketFormat<P>, carrier: seq<Byte>, stride: nat, bits: nat)
    : Result<ExtractReport<P>, CarrierError>
    requires stride > 0
  {
    var units := |carrier| / stride;
    if !ValidBits(bits) then Err(InvalidBits(bits))
    else if units < TagUnits(bits) then Err(NoPacket)
    else if ReadBytes(carrier, TagSlots(stride), bits, TAG_SIZE) != keys.tag(units, bits) then Err(NoPacket)
    else if units == TagUnits(bits) then Err(NoPacket)
    else BodyExtraction(format, carrier, BodySlots(keys, stride, units, bits), TagUnits(bits), units - TagUnits(bits), bits)
  }

  method ExtractKeyed<P>(keys: Keys, format: PacketFormat<P>, carrier: seq<Byte>, stride: nat, bits: nat)
    returns (r: Result<ExtractReport<P>, CarrierError>)
    requires stride > 0 && ValidKeys(keys)
    ensures r == KeyedExtraction(keys, format, carrier, stride, bits)
  {
    hide ReadBytes, Strided, UnitsNeeded;
    if !ValidBits(bits) {
      return Err(InvalidBits(bits));
    }
    var unitCount := |carrier| / stride;
    var tagUnits := TagUnits(bits);
    if unitCount < tagUnits {
      return Err(NoPacket);
    }
    var observed := ExtractBytes(carrier, stride, TAG_SIZE, bits);
    var intact := ConstantTimeEq(observed.value, keys.tag(unitCount, bits));
    if !intact {
      return Err(NoPacket);
    }
    var bodyUnits := unitCount - tagUnits;
    if bodyUnits == 0 {
      return Err(NoPacket);
    }
    BodySlotsValid(keys, stride, bits, |carrier|, bodyUnits);
    var slot := keys.schedule(bodyUnits);
    var locator := ReadBytesAt(carrier, stride, tagUnits, slot, bodyUnits, LOCATOR_SIZE, bits);
    if locator.Err? {
      return Err(locator.error);
    }
    var announced := format.packetLen(locator.value);
    if announced.None? {
      return Err(PacketError);
    }
    var neededUnits := UnitsNeeded(8 * announced.value, bits);
    if neededUnits > bodyUnits {
      return Err(InsufficientCapacity(8 * announced.value, bodyUnits * bits, neededUnits, bodyUnits, bits));
    }
    var bytes := ReadBytesAt(carrier, stride, tagUnits, slot, bodyUnits, announced.value, bits);
    var parsed := format.parse(bytes.value);
    if parsed.None? {
      return Err(PacketError);
    }
    if !format.accepts(parsed.value) {
      return Err(DescriptorMismatch);
    }
    r := Ok(ExtractReport(parsed.value, tagUnits + neededUnits, bits));
  }

  // --- round trips ------------------------------------------------------------------------

  lemma BodyRoundTrip<P>(format: PacketFormat<P>, data: seq<Byte>, slots: nat -> nat, offset: nat, units: nat,
                         packet: seq<Byte>, p: P, bits: nat)
    requires ValidBits(bits) && Encodes(format, packet, p)
    requires var n := UnitsNeeded(8 * |packet|, bits); n <= units && InBounds(slots, n, |data|) && Injective(slots, n)
    ensures var n := UnitsNeeded(8 * |packet|, bits);
            BodyExtraction(format, Embedded(data, slots, BytesToBits(packet), bits, n), slots, offset, units, bits)
            == Ok(ExtractReport(p, offset + n, bits))
  {
    hide ReadBytes, Embedded, BytesToBits, UnitsNeeded, InBounds, Injective;
    BytesReadBack(data, slots, packet, bits, LOCATOR_SIZE);
    BytesReadBack(data, slots, packet, bits, |packet|);
    assert packet[..|packet|] == packet;
    UnitsMonotone(8 * LOCATOR_SIZE, 8 * |packet|, bits);
  }

  lemma UnitsMonotone(m: nat, n: nat, bits: nat)
    requires ValidBits(bits) && m <= n
    ensures UnitsNeeded(m, bits) <= UnitsNeeded(n, bits)
  {
    if bits == 1 {
    } else if bits == 2 {
    } else if bits == 3 {
    } else {
    }
  }

  // Writing the body leaves every unit of the recognition tag alone.
  lemma TagUntouched(keys: Keys, tagged: seq<Byte>, stride: nat, packet: seq<Byte>, bits: nat, u: nat)
    requires stride > 0 && ValidBits(bits) && ValidKeys(keys) && KeyedFits(|tagged|, stride, |packet|, bits)
    requires u < TagUnits(bits)
    requires InBounds(BodySlots(keys, stride, |tagged| / stride, bits), UnitsNeeded(8 * |packet|, bits), |tagged|)
    ensures TagSlots(stride)(u) < |tagged|
    ensures Embedded(tagged, BodySlots(keys, stride, |tagged| / stride, bits), BytesToBits(packet), bits,
                     UnitsNeeded(8 * |packet|, bits))[TagSlots(stride)(u)] == tagged[TagSlots(stride)(u)]
  {
    hide Embedded, BytesToBits, UnitsNeeded, Strided, InOrder;
    var slots := BodySlots(keys, stride, |tagged| / stride, bits);
    var n := UnitsNeeded(8 * |packet|, bits);
    TagSlotsValid(stride, bits, |tagged|);
    forall v: nat | v < n
      ensures slots(v) != TagSlots(stride)(u)
    {
      StridedDisjoint(stride, TagUnits(bits), keys.schedule(|tagged| / stride - TagUnits(bits)), v, u);
    }
    EmbeddedElsewhere(tagged, slots, BytesToBits(packet), bits, n, TagSlots(stride)(u));
  }

  lemma TagReadBack(keys: Keys, data: seq<Byte>, stride: nat, packet: seq<Byte>, bits: nat)
    requires stride > 0 && ValidBits(bits) && ValidKeys(keys) && KeyedFits(|data|, stride, |packet|, bits)
    ensures ReadBytes(KeyedEmbedded(keys, data, stride, packet, bits), TagSlots(stride), bits, TAG_SIZE)
         == keys.tag(|data| / stride, bits)
  {
    hide Embedded, BytesToBits, UnitsNeeded, TagSlots, BodySlots, BitAt, ReadBytes;
    var units := |data| / stride;
    var tag := keys.tag(units, bits);
    TagSlotsValid(stride, bits, |data|);
    var tagged := Embedded(data, TagSlots(stride), BytesToBits(tag), bits, TagUnits(bits));
    BodySlotsValid(keys, stride, bits, |data|, UnitsNeeded(8 * |packet|, bits));
    var after := KeyedEmbedded(keys, data, stride, packet, bits);
    forall i: nat | i < 8 * TAG_SIZE
      ensures ReadBit(after, TagSlots(stride), bits, i) == ReadBit(tagged, TagSlots(stride), bits, i)
    {
      DivModUnits(i, 8 * TAG_SIZE, bits);
      TagUntouched(keys, tagged, stride, packet, bits, i / bits);
    }
    ReadBytesCongruent(after, tagged, TagSlots(stride), bits, TAG_SIZE);
    BytesReadBack(data, TagSlots(stride), tag, bits, TAG_SIZE);
    assert tag[..TAG_SIZE] == tag;
  }

  // Whatever was embedded under a key is what extraction under that key returns.
  lemma KeyedRoundTrip<P>(keys: Keys, format: PacketFormat<P>, data: seq<Byte>, stride: nat, packet: seq<Byte>, p: P,
                          bits: nat)
    requires stride > 0 && ValidBits(bits) && ValidKeys(keys) && KeyedFits(|data|, stride, |packet|, bits)
    requires Encodes(format, packet, p)
    ensures KeyedExtraction(keys, format, KeyedEmbedded(keys, data, stride, packet, bits), stride, bits)
         == Ok(ExtractReport(p, TagUnits(bits) + UnitsNeeded(8 * |packet|, bits), bits))
  {
    hide Embedded, BytesToBits, UnitsNeeded, TagSlots, BodySlots, ReadBytes, BodyExtraction;
    var units := |data| / stride;
    TagReadBack(keys, data, stride, packet, bits);
    TagSlotsValid(stride, bits, |data|);
    var tagged := Embedded(data, TagSlots(stride), BytesToBits(keys.tag(units, bits)), bits, TagUnits(bits));
    BodySlotsValid(keys, stride, bits, |data|, UnitsNeeded(8 * |packet|, bits));
    BodyRoundTrip(format, tagged, BodySlots(keys, stride, units, bits), TagUnits(bits), units - TagUnits(bits), packet, p, bits);
  }

  // Embedding changes nothing but the low bits of slot bytes.
  lemma KeyedTouchesOnlySlots(keys: Keys, data: seq<Byte>, stride: nat, packet: seq<Byte>, bits: nat, at: nat)
    requires stride > 0 && ValidBits(bits) && ValidKeys(keys) && KeyedFits(|data|, stride, |packet|, bits) && at < |data|
    ensures at % stride != 0 ==> KeyedEmbedded(keys, data, stride, packet, bits)[at] == data[at]
    ensures forall s {:trigger BitAt(data[at], s)} :: bits <= s < 8 ==>
              BitAt(KeyedEmbedded(keys, data, stride, packet, bits)[at], s) == BitAt(data[at], s)
  {
    hide Embedded, BytesToBits, UnitsNeeded, BitAt, InBounds, Strided;
    var units := |data| / stride;
    TagSlotsValid(stride, bits, |data|);
    var tag := BytesToBits(keys.tag(units, bits));
    var n := UnitsNeeded(8 * |packet|, bits);
    var tagged := Embedded(data, TagSlots(stride), tag, bits, TagUnits(bits));
    BodySlotsValid(keys, stride, bits, |data|, n);
    var slots := BodySlots(keys, stride, units, bits);
    if at % stride != 0 {
      forall u: nat
        ensures TagSlots(stride)(u) != at && slots(u) != at
      {
        StridedAligned(stride, 0, InOrder(), u);
        StridedAligned(stride, TagUnits(bits), keys.schedule(units - TagUnits(bits)), u);
      }
      EmbeddedElsewhere(data, TagSlots(stride), tag, bits, TagUnits(bits), at);
      EmbeddedElsewhere(tagged, slots, BytesToBits(packet), bits, n, at);
    }
    forall s | bits <= s < 8
      ensures BitAt(KeyedEmbedded(keys, data, stride, packet, bits)[at], s) == BitAt(data[at], s)
    {
      EmbeddedHighBits(data, TagSlots(stride), tag, bits, TagUnits(bits), at, s);
      EmbeddedHighBits(tagged, slots, BytesToBits(packet), bits, n, at, s);
    }
  }

  lemma StridedAligned(stride: nat, offset: nat, slot: nat -> nat, u: nat)
    requires stride > 0
    ensures Strided(stride, offset, slot)(u) % stride == 0
  {
    DivModUnique((offset + slot(u)) * stride, stride, offset + slot(u), 0);
  }

  // --- what extraction finds ----------------------------------------------------------------

  // The bits at the slots are the bits of the bytes, and the units hold them.
  ghost predicate Carries(carrier: seq<Byte>, slots: nat -> nat, units: nat, bits: nat, bytes: seq<Byte>)
    requires ValidBits(bits)
  {
    8 * |bytes| <= units * bits && forall i: nat :: i < 8 * |bytes| ==> ReadBit(carrier, slots, bits, i) == PacketBit(bytes, i)
  }

  lemma ReadsCarried(carrier: seq<Byte>, slots: nat -> nat, units: nat, bits: nat, bytes: seq<Byte>)
    requires ValidBits(bits) && 8 * |bytes| <= units * bits
    ensures ReadBytes(carrier, slots, bits, |bytes|) == bytes <==> Carries(carrier, slots, units, bits, bytes)
  {
    hide ReadBit, PacketBit, ReadBytes;
    var found := ReadBytes(carrier, slots, bits, |bytes|);
    forall i: nat | i < 8 * |bytes|
      ensures PacketBit(found, i) == ReadBit(carrier, slots, bits, i)
    {
      ReadBytesBit(carrier, slots, bits, |bytes|, i);
    }
    if Carries(carrier, slots, units, bits, bytes) {
      BitsDetermineBytes(found, bytes);
    }
  }

  // A locator of 32 bytes announces the packet, and the packet decodes to p under this envelope.
  ghost predicate Announces<P>(format: PacketFormat<P>, head: seq<Byte>, packet: seq<Byte>, p: P) {
    |head| == 32 && format.packetLen(head) == Some(|packet|) && format.parse(packet) == Some(p) && format.accepts(p)
  }

  ghost predicate Holds<P>(format: PacketFormat<P>, carrier: seq<Byte>, slots: nat -> nat, units: nat, bits: nat,
                           head: seq<Byte>, packet: seq<Byte>, p: P)
    requires ValidBits(bits)
  {
    && Announces(format, head, packet, p)
    && Carries(carrier, slots, units, bits, head)
    && Carries(carrier, slots, units, bits, packet)
  }

  // Reading succeeds exactly when the slots hold a locator and the packet that it announces.
  lemma BodyExtractsExactly<P>(format: PacketFormat<P>, carrier: seq<Byte>, slots: nat -> nat, offset: nat, units: nat,
                               bits: nat, r: ExtractReport<P>)
    requires ValidBits(bits)
    ensures BodyExtraction(format, carrier, slots, offset, units, bits) == Ok(r) <==>
      exists head: seq<Byte>, packet: seq<Byte> ::
        Holds(format, carrier, slots, units, bits, head, packet, r.packet)
        && r == ExtractReport(r.packet, offset + UnitsNeeded(8 * |packet|, bits), bits)
  {
    hide ReadBytes, UnitsNeeded, Carries;
    var found := BodyExtraction(format, carrier, slots, offset, units, bits);
    FitsIsCeiling(units, bits, 32);
    var head := ReadBytes(carrier, slots, bits, 32);
    if found == Ok(r) {
      var n := format.packetLen(head).value;
      FitsIsCeiling(units, bits, n);
      var packet := ReadBytes(carrier, slots, bits, n);
      ReadsCarried(carrier, slots, units, bits, head);
      ReadsCarried(carrier, slots, units, bits, packet);
      assert Holds(format, carrier, slots, units, bits, head, packet, r.packet);
    }
    forall h: seq<Byte>, packet: seq<Byte> | Holds(format, carrier, slots, units, bits, h, packet, r.packet)
      ensures found == Ok(ExtractReport(r.packet, offset + UnitsNeeded(8 * |packet|, bits), bits))
    {
      CarriedFits(carrier, slots, units, bits, h);
      CarriedFits(carrier, slots, units, bits, packet);
      ReadsCarried(carrier, slots, units, bits, h);
      ReadsCarried(carrier, slots, units, bits, packet);
    }
  }

  lemma CarriedFits(carrier: seq<Byte>, slots: nat -> nat, units: nat, bits: nat, bytes: seq<Byte>)
    requires ValidBits(bits) && Carries(carrier, slots, units, bits, bytes)
    ensures 8 * |bytes| <= units * bits && UnitsNeeded(8 * |bytes|, bits) <= units
  {
    FitsIsCeiling(units, bits, |bytes|);
  }

  // The refusals behind the tag, in order: no room for a locator, a locator that announces nothing, too long a packet,
  // bytes that are no packet, a packet of another envelope.
  lemma BodyRefusals<P>(format: PacketFormat<P>, carrier: seq<Byte>, slots: nat -> nat, offset: nat, units: nat,
                        bits: nat, head: seq<Byte>, packet: seq<Byte>)
    requires ValidBits(bits)
    ensures units * bits < 256 ==>
      BodyExtraction(format, carrier, slots, offset, units, bits)
      == Err(InsufficientCapacity(256, units * bits, UnitsNeeded(256, bits), units, bits))
    ensures Carries(carrier, slots, units, bits, head) && |head| == 32 ==>
      var r, n := BodyExtraction(format, carrier, slots, offset, units, bits), format.packetLen(head);
      && (n.None? ==> r == Err(PacketError))
      && (n.Some? && 8 * n.value > units * bits ==>
           r == Err(InsufficientCapacity(8 * n.value, units * bits, UnitsNeeded(8 * n.value, bits), units, bits)))
      && (n == Some(|packet|) && Carries(carrier, slots, units, bits, packet) ==>
           var p := format.parse(packet);
           (p.None? ==> r == Err(PacketError)) && (p.Some? && !format.accepts(p.value) ==> r == Err(DescriptorMismatch)))
  {
    hide ReadBytes, UnitsNeeded, Carries;
    FitsIsCeiling(units, bits, 32);
    if |head| == 32 && Carries(carrier, slots, units, bits, head) {
      CarriedFits(carrier, slots, units, bits, head);
      ReadsCarried(carrier, slots, units, bits, head);
      if format.packetLen(head).Some? {
        FitsIsCeiling(units, bits, format.packetLen(head).value);
        if Carries(carrier, slots, units, bits, packet) {
          CarriedFits(carrier, slots, units, bits, packet);
          ReadsCarried(carrier, slots, units, bits, packet);
        }
      }
    }
  }

  // No packet is found exactly where there is no unit behind the tag or a bit of the tag is not what the key says.
  lemma NoPacketExactly<P>(keys: Keys, format: PacketFormat<P>, carrier: seq<Byte>, stride: nat, bits: nat)
    requires stride > 0 && ValidBits(bits) && ValidKeys(keys)
    ensures var units := |carrier| / stride;
            KeyedExtraction(keys, format, carrier, stride, bits) == Err(NoPacket) <==>
              || units <= TagUnits(bits)
              || exists i: nat :: i < 64 && ReadBit(carrier, TagSlots(stride), bits, i) != PacketBit(keys.tag(units, bits), i)
  {
    hide ReadBytes, BodyExtraction, ReadBit, PacketBit, TagSlots;
    var units := |carrier| / stride;
    if units > TagUnits(bits) {
      TagRoom(units, bits);
      ReadsCarried(carrier, TagSlots(stride), units, bits, keys.tag(units, bits));
      BodyFindsOrRefuses(format, carrier, BodySlots(keys, stride, units, bits), TagUnits(bits), units - TagUnits(bits), bits);
    }
  }

  lemma TagRoom(units: nat, bits: nat)
    requires ValidBits(bits) && units >= TagUnits(bits)
    ensures 64 <= units * bits
  {
    MulMonotone(TagUnits(bits), units, bits);
  }

  lemma BodyFindsOrRefuses<P>(format: PacketFormat<P>, carrier: seq<Byte>, slots: nat -> nat, offset: nat, units: nat,
                              bits: nat)
    requires ValidBits(bits)
    ensures BodyExtraction(format, carrier, slots, offset, units, bits) != Err(NoPacket)
  {
    hide ReadBytes, UnitsNeeded;
  }

  // One changed bit of the tag hides the packet, whatever else happened to the carrier.
  lemma TamperedTagHides<P>(keys: Keys, format: PacketFormat<P>, data: seq<Byte>, stride: nat, packet: seq<Byte>, bits: nat,
                            received: seq<Byte>, i: nat)
    requires stride > 0 && ValidBits(bits) && ValidKeys(keys) && KeyedFits(|data|, stride, |packet|, bits)
    requires |received| == |data| && i < 64
    requires ReadBit(received, TagSlots(stride), bits, i)
          != ReadBit(KeyedEmbedded(keys, data, stride, packet, bits), TagSlots(stride), bits, i)
    ensures KeyedExtraction(keys, format, received, stride, bits) == Err(NoPacket)
  {
    hide ReadBytes, ReadBit, PacketBit, TagSlots, KeyedEmbedded, KeyedExtraction, UnitsNeeded;
    TagReadBack(keys, data, stride, packet, bits);
    ReadBytesBit(KeyedEmbedded(keys, data, stride, packet, bits), TagSlots(stride), bits, TAG_SIZE, i);
    NoPacketExactly(keys, format, received, stride, bits);
  }

  // The carrier shows the tag, and behind it lie a locator and its packet.
  ghost predicate KeyedHolds<P>(keys: Keys, format: PacketFormat<P>, carrier: seq<Byte>, stride: nat, bits: nat,
                                head: seq<Byte>, packet: seq<Byte>, p: P)
    requires stride > 0 && ValidBits(bits)
  {
    var units := |carrier| / stride;
    && units > TagUnits(bits)
    && Carries(carrier, TagSlots(stride), units, bits, keys.tag(units, bits))
    && Holds(format, carrier, BodySlots(keys, stride, units, bits), units - TagUnits(bits), bits, head, packet, p)
  }

  // Keyed extraction succeeds exactly on such carriers.
  lemma KeyedExtractsExactly<P>(keys: Keys, format: PacketFormat<P>, carrier: seq<Byte>, stride: nat, bits: nat,
                                r: ExtractReport<P>)
    requires stride > 0 && ValidBits(bits) && ValidKeys(keys)
    ensures KeyedExtraction(keys, format, carrier, stride, bits) == Ok(r) <==>
      exists head: seq<Byte>, packet: seq<Byte> ::
        KeyedHolds(keys, format, carrier, stride, bits, head, packet, r.packet)
        && r == ExtractReport(r.packet, TagUnits(bits) + UnitsNeeded(8 * |packet|, bits), bits)
  {
    hide ReadBytes, BodyExtraction, Carries, TagSlots, BodySlots, Holds, UnitsNeeded, TagUnits;
    var units := |carrier| / stride;
    if units > TagUnits(bits) {
      TagRoom(units, bits);
      var slots, body := BodySlots(keys, stride, units, bits), units - TagUnits(bits);
      ReadsCarried(carrier, TagSlots(stride), units, bits, keys.tag(units, bits));
      BodyExtractsExactly(format, carrier, slots, TagUnits(bits), body, bits, r);
      forall head: seq<Byte>, packet: seq<Byte>
        ensures KeyedHolds(keys, format, carrier, stride, bits, head, packet, r.packet)
          <==> Carries(carrier, TagSlots(stride), units, bits, keys.tag(units, bits))
               && Holds(format, carrier, slots, body, bits, head, packet, r.packet)
      {}
    }
  }

  // Unit u of the tag is byte u times the stride; unit u of the body lies behind the tag where the key sends it.
  lemma KeyedPlaces(keys: Keys, stride: nat, units: nat, bits: nat, u: nat)
    requires ValidBits(bits) && units > TagUnits(bits)
    ensures TagSlots(stride)(u) == u * stride
    ensures BodySlots(keys, stride, units, bits)(u)
         == TagUnits(bits) * stride + keys.schedule(units - TagUnits(bits))(u) * stride
  {}

  // --- the sequential carrier ---------------------------------------------------------------

  method EmbedSequential<P>(format: PacketFormat<P>, carrier: array<Byte>, stride: nat, packet: seq<Byte>, bits: nat)
    returns (r: Result<EmbedReport, CarrierError>)
    requires stride > 0
    modifies carrier
    ensures r.Ok? <==> format.wellFormed(packet) && format.describes(packet) && 1 <= bits <= 4
                       && SequentialCapacity(carrier.Length / stride, bits).Fits(|packet|)
    ensures r.Err? ==> carrier[..] == old(carrier[..])
    ensures r.Err? ==>
      r.error == if !format.wellFormed(packet) then PacketError
                 else if !format.describes(packet) then DescriptorMismatch
                 else if !(1 <= bits <= 4) then InvalidBits(bits)
                 else
                   var capacity := SequentialCapacity(carrier.Length / stride, bits);
                   InsufficientCapacity(8 * |packet|, capacity.availableBits, UnitsNeeded(8 * |packet|, bits),
                                        capacity.usableUnits, bits)
    ensures r.Ok? ==> var n := UnitsNeeded(8 * |packet|, bits);
                      InBounds(TagSlots(stride), n, carrier.Length)
                      && carrier[..] == Embedded(old(carrier[..]), TagSlots(stride), BytesToBits(packet), bits, n)
                      && r.value == EmbedReport(|packet|, n, SequentialCapacity(carrier.Length / stride, bits).maxPacketBytes - |packet|)
  {
    hide Embedded, BytesToBits, Strided, UnitsNeeded;
    if !format.wellFormed(packet) {
      return Err(PacketError);
    }
    if !format.describes(packet) {
      return Err(DescriptorMismatch);
    }
    if !ValidBits(bits) {
      return Err(InvalidBits(bits));
    }
    var unitCount := carrier.Length / stride;
    var capacity := SequentialCapacity(unitCount, bits);
    var neededBits := 8 * |packet|;
    FitsIsCeiling(unitCount, bits, |packet|);
    if neededBits > capacity.availableBits {
      return Err(InsufficientCapacity(neededBits, capacity.availableBits, UnitsNeeded(neededBits, bits), unitCount, bits));
    }
    WriteBitsSequential(carrier, stride, packet, bits);
    r := Ok(EmbedReport(|packet|, UnitsNeeded(neededBits, bits), capacity.maxPacketBytes - |packet|));
  }

  function SequentialExtraction<P>(format: PacketFormat<P>, carrier: seq<Byte>, stride: nat, bits: nat)
    : Result<ExtractReport<P>, CarrierError>
    requires stride > 0
  {
    if !ValidBits(bits) then Err(InvalidBits(bits))
    else BodyExtraction(format, carrier, TagSlots(stride), 0, |carrier| / stride, bits)
  }

  method ExtractSequential<P>(format: PacketFormat<P>, carrier: seq<Byte>, stride: nat, bits: nat)
    returns (r: Result<ExtractReport<P>, CarrierError>)
    requires stride > 0
    ensures r == SequentialExtraction(format, carrier, stride, bits)
  {
    hide ReadBytes, Strided, UnitsNeeded;
    if !ValidBits(bits) {
      return Err(InvalidBits(bits));
    }
    var unitCount := |carrier| / stride;
    var capacity := SequentialCapacity(unitCount, bits);
    FitsIsCeiling(unitCount, bits, LOCATOR_SIZE);
    if capacity.maxPacketBytes < LOCATOR_SIZE {
      return Err(InsufficientCapacity(8 * LOCATOR_SIZE, capacity.availableBits, UnitsNeeded(8 * LOCATOR_SIZE, bits), unitCount, bits));
    }
    var locator := ExtractBytes(carrier, stride, LOCATOR_SIZE, bits);
    var announced := format.packetLen(locator.value);
    if announced.None? {
      return Err(PacketError);
    }
    var packetLen := announced.value;
    FitsIsCeiling(unitCount, bits, packetLen);
    if !capacity.Fits(packetLen) {
      return Err(InsufficientCapacity(8 * packetLen, capacity.availableBits, UnitsNeeded(8 * packetLen, bits), unitCount, bits));
    }
    var bytes := ExtractBytes(carrier, stride, packetLen, bits);
    var parsed := format.parse(bytes.value);
    if parsed.None? {
      return Err(PacketError);
    }
    if !format.accepts(parsed.value) {
      return Err(DescriptorMismatch);
    }
    r := Ok(ExtractReport(parsed.value, UnitsNeeded(8 * packetLen, bits), bits));
  }

  lemma SequentialRoundTrip<P>(format: PacketFormat<P>, data: seq<Byte>, stride: nat, packet: seq<Byte>, p: P,
                               bits: nat)
    requires stride > 0 && ValidBits(bits) && Encodes(format, packet, p)
    requires SequentialCapacity(|data| / stride, bits).Fits(|packet|)
    ensures var n := UnitsNeeded(8 * |packet|, bits);
            InBounds(TagSlots(stride), n, |data|)
            && SequentialExtraction(format, Embedded(data, TagSlots(stride), BytesToBits(packet), bits, n), stride, bits)
               == Ok(ExtractReport(p, n, bits))
  {
    hide Embedded, BytesToBits, UnitsNeeded, ReadBytes, BodyExtraction, Strided;
    var units := |data| / stride;
    FitsIsCeiling(units, bits, |packet|);
    InOrderSlots(stride, units, |data|, UnitsNeeded(8 * |packet|, bits));
    BodyRoundTrip(format, data, TagSlots(stride), 0, units, packet, p, bits);
  }

  // Sequential extraction succeeds exactly on carriers that hold a locator with its packet from the first unit on.
  lemma SequentialExtractsExactly<P>(format: PacketFormat<P>, carrier: seq<Byte>, stride: nat, units: nat, bits: nat,
                                     r: ExtractReport<P>)
    requires stride > 0 && ValidBits(bits) && units == |carrier| / stride
    ensures SequentialExtraction(format, carrier, stride, bits) == Ok(r) <==>
      exists head: seq<Byte>, packet: seq<Byte> ::
        Holds(format, carrier, TagSlots(stride), units, bits, head, packet, r.packet)
        && r == ExtractReport(r.packet, UnitsNeeded(8 * |packet|, bits), bits)
  {
    hide BodyExtraction, TagSlots, Holds, UnitsNeeded;
    BodyExtractsExactly(format, carrier, TagSlots(stride), 0, units, bits, r);
  }
}
