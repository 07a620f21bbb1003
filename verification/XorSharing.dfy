/** The n-of-n XOR sharing of multi_frame.rs. */
module XorSharing {
  import opened Results
  import opened GaloisField
  import opened SignaturePayloads
  import opened StableSorting
  import opened CycleWalking

  const MAX_FRAME := 0xFFFF_FFFF_FFFF_FFFF

  datatype Shard = Shard(frameIndex: nat, shardIndex: nat, totalShards: nat, data: seq<Byte>)

  datatype ShareError =
    | TooFewShards
    | TooManyShards
    | FrameIndexOverflow
    | EmptyPayload
    | NoShards
    | WrongShardCount
    | InvalidGroupSize
    | EmptyShardData
    | InconsistentTotal
    | InconsistentLength
    | IndexOutOfRange
    | DuplicateIndex
    | InvalidPayload(error: PayloadError)

  // --- exclusive or of byte strings -----------------------------------------------------------

  function XorBytes(a: seq<Byte>, b: seq<Byte>): (r: seq<Byte>)
    requires |a| == |b|
    ensures |r| == |a|
  {
    seq(|a|, i requires 0 <= i < |a| => Add(a[i], b[i]))
  }

  predicate AllOfLength(rows: seq<seq<Byte>>, len: nat) {
    forall i :: 0 <= i < |rows| ==> |rows[i]| == len
  }

  function XorAll(rows: seq<seq<Byte>>, len: nat): (r: seq<Byte>)
    requires AllOfLength(rows, len)
    ensures |r| == len
  {
    if |rows| == 0 then Zeros(len) else XorBytes(XorAll(rows[..|rows| - 1], len), rows[|rows| - 1])
  }

  lemma XorLaws(a: Byte, b: Byte, c: Byte)
    ensures Add(Add(a, b), c) == Add(Add(a, c), b)
    ensures Add(a, Add(b, c)) == Add(Add(a, b), c)
    ensures Add(0, a) == a && Add(a, 0) == a && Add(a, a) == 0 && Add(a, b) == Add(b, a)
  {}

  lemma XorSwap(a: seq<Byte>, b: seq<Byte>, c: seq<Byte>)
    requires |a| == |b| == |c|
    ensures XorBytes(XorBytes(a, b), c) == XorBytes(XorBytes(a, c), b)
    ensures XorBytes(a, XorBytes(b, c)) == XorBytes(XorBytes(a, b), c)
  {
    hide Add;
    forall i | 0 <= i < |a|
      ensures Add(Add(a[i], b[i]), c[i]) == Add(Add(a[i], c[i]), b[i])
      ensures Add(a[i], Add(b[i], c[i])) == Add(Add(a[i], b[i]), c[i])
    {
      XorLaws(a[i], b[i], c[i]);
    }
  }

  lemma XorUnits(a: seq<Byte>, b: seq<Byte>)
    requires |a| == |b|
    ensures XorBytes(Zeros(|a|), a) == a && XorBytes(a, Zeros(|a|)) == a && XorBytes(a, a) == Zeros(|a|)
    ensures XorBytes(a, b) == XorBytes(b, a)
    ensures XorBytes(a, XorBytes(a, b)) == b
  {
    hide Add;
    forall i | 0 <= i < |a|
      ensures Add(0, a[i]) == a[i] && Add(a[i], 0) == a[i] && Add(a[i], a[i]) == 0
      ensures Add(a[i], b[i]) == Add(b[i], a[i]) && Add(a[i], Add(a[i], b[i])) == b[i]
    {
      XorLaws(a[i], b[i], 0);
      XorLaws(a[i], a[i], b[i]);
      XorLaws(b[i], a[i], 0);
    }
  }

  // Changing one row by d changes the sum by d.
  lemma {:induction false} XorAllUpdated(rows: seq<seq<Byte>>, len: nat, k: nat, d: seq<Byte>)
    requires AllOfLength(rows, len) && k < |rows| && |d| == len
    ensures var changed := rows[k := XorBytes(rows[k], d)];
            AllOfLength(changed, len) && XorAll(changed, len) == XorBytes(XorAll(rows, len), d)
  {
    hide XorBytes;
    var last := |rows| - 1;
    var changed := rows[k := XorBytes(rows[k], d)];
    var front := XorAll(rows[..last], len);
    if k == last {
      assert changed[..last] == rows[..last];
      XorSwap(front, rows[last], d);
    } else {
      XorAllUpdated(rows[..last], len, k, d);
      assert changed[..last] == rows[..last][k := XorBytes(rows[k], d)];
      XorSwap(front, d, rows[last]);
    }
  }

  // --- splitting --------------------------------------------------------------------------

  ghost predicate ValidMasks(masks: seq<seq<Byte>>, n: nat, len: nat) {
    |masks| + 1 == n && AllOfLength(masks, len)
  }

  // The payload hidden under all masks, and the masks.
  function ShareData(payload: seq<Byte>, masks: seq<seq<Byte>>): (rows: seq<seq<Byte>>)
    requires AllOfLength(masks, |payload|)
    ensures |rows| == |masks| + 1 && AllOfLength(rows, |payload|)
  {
    [XorBytes(payload, XorAll(masks, |payload|))] + masks
  }

  function Shards(payload: seq<Byte>, masks: seq<seq<Byte>>, base: nat): (shards: seq<Shard>)
    requires AllOfLength(masks, |payload|)
    ensures |shards| == |masks| + 1
  {
    var rows := ShareData(payload, masks);
    seq(|rows|, i requires 0 <= i < |rows| => Shard(base + i, i, |rows|, rows[i]))
  }

  // Exclusive or in place.
  method XorInto(target: array<Byte>, row: seq<Byte>)
    requires target.Length == |row|
    modifies target
    ensures target[..] == XorBytes(old(target[..]), row)
  {
    hide Add;
    ghost var before := target[..];
    for i := 0 to target.Length
      invariant forall t :: 0 <= t < i ==> target[t] == Add(before[t], row[t])
      invariant forall t :: i <= t < target.Length ==> target[t] == before[t]
    {
      target[i] := Add(target[i], row[i]);
    }
  }

  // The masks are the random bytes that the operating system supplies.
  method SplitPayloadBytes(payload: seq<Byte>, n: nat, base: nat, masks: seq<seq<Byte>>)
    returns (r: Result<seq<Shard>, ShareError>)
    requires 2 <= n <= 8 ==> ValidMasks(masks, n, |payload|)
    ensures r.Ok? <==> 2 <= n <= 8 && base + (n - 1) <= 0xFFFF_FFFF_FFFF_FFFF && |payload| > 0
    ensures n < 2 ==> r == Err(TooFewShards)
    ensures n > 8 ==> r == Err(TooManyShards)
    ensures r.Ok? ==> r.value == Shards(payload, masks, base)
  {
    hide XorBytes;
    if n < 2 {
      return Err(TooFewShards);
    }
    if n > 8 {
      return Err(TooManyShards);
    }
    if base + (n - 1) > MAX_FRAME {
      return Err(FrameIndexOverflow);
    }
    if |payload| == 0 {
      return Err(EmptyPayload);
    }
    var shard0 := new Byte[|payload|](i requires 0 <= i < |payload| => payload[i]);
    assert shard0[..] == payload;
    XorUnits(payload, payload);
    for k := 0 to |masks|
      invariant shard0[..] == XorBytes(payload, XorAll(masks[..k], |payload|))
    {
      assert masks[..k + 1][..k] == masks[..k];
      XorSwap(payload, XorAll(masks[..k], |payload|), masks[k]);
      XorInto(shard0, masks[k]);
    }
    assert masks[..|masks|] == masks;
    var shards := [Shard(base, 0, n, shard0[..])];
    for i := 0 to |masks|
      invariant shards == Shards(payload, masks, base)[..i + 1]
    {
      shards := shards + [Shard(base + (i + 1), i + 1, n, masks[i])];
    }
    r := Ok(shards);
  }

  // --- reconstructing ---------------------------------------------------------------------

  function IndexOf(shard: Shard): int {
    shard.shardIndex
  }

  function Datas(shards: seq<Shard>): (rows: seq<seq<Byte>>)
    ensures |rows| == |shards|
  {
    seq(|shards|, i requires 0 <= i < |shards| => shards[i].data)
  }

  // As many shards as announced, of one length, with indices in range.
  ghost predicate Consistent(shards: seq<Shard>) {
    && 2 <= |shards| <= 8
    && |shards[0].data| > 0
    && forall i :: 0 <= i < |shards| ==>
         && shards[i].totalShards == |shards|
         && |shards[i].data| == |shards[0].data|
         && shards[i].shardIndex < |shards|
  }

  // A complete group: consistent, with distinct indices.
  ghost predicate Complete(shards: seq<Shard>) {
    Consistent(shards) && DistinctBy(shards, IndexOf)
  }

  lemma SortedLengths(shards: seq<Shard>, len: nat)
    requires forall i :: 0 <= i < |shards| ==> |shards[i].data| == len
    ensures AllOfLength(Datas(StableSort(shards, IndexOf)), len)
  {
    var t := StableSort(shards, IndexOf);
    forall i | 0 <= i < |t|
      ensures |t[i].data| == len
    {
      SortMember(shards, IndexOf, i);
    }
  }

  // The exclusive or of the shards in index order.
  ghost function Combined(shards: seq<Shard>): seq<Byte>
    requires |shards| > 0 && forall i :: 0 <= i < |shards| ==> |shards[i].data| == |shards[0].data|
  {
    SortedLengths(shards, |shards[0].data|);
    XorAll(Datas(StableSort(shards, IndexOf)), |shards[0].data|)
  }

  // The first complaint about a shard, if any.
  method CheckShards(shards: seq<Shard>, expectedTotal: nat, expectedLen: nat) returns (r: Result<(), ShareError>)
    requires expectedTotal <= 8
    ensures r.Ok? <==>
      && (forall i :: 0 <= i < |shards| ==>
            shards[i].totalShards == expectedTotal && |shards[i].data| == expectedLen && shards[i].shardIndex < expectedTotal)
      && DistinctBy(shards, IndexOf)
  {
    var seen := seq(8, i => false);
    for k := 0 to |shards|
      invariant |seen| == 8
      invariant forall i :: 0 <= i < k ==>
        shards[i].totalShards == expectedTotal && |shards[i].data| == expectedLen && shards[i].shardIndex < expectedTotal
      invariant forall i, j :: 0 <= i < j < k ==> IndexOf(shards[i]) != IndexOf(shards[j])
      invariant forall x :: 0 <= x < 8 ==> (seen[x] <==> exists i :: 0 <= i < k && shards[i].shardIndex == x)
    {
      if shards[k].totalShards != expectedTotal {
        return Err(InconsistentTotal);
      }
      if |shards[k].data| != expectedLen {
        return Err(InconsistentLength);
      }
      if shards[k].shardIndex >= expectedTotal {
        return Err(IndexOutOfRange);
      }
      if seen[shards[k].shardIndex] {
        return Err(DuplicateIndex);
      }
      seen := seen[shards[k].shardIndex := true];
    }
    r := Ok(());
  }

  // Reconstruction succeeds on complete groups only.
  method ReconstructPayloadBytes(shards: seq<Shard>) returns (r: Result<seq<Byte>, ShareError>)
    ensures r.Ok? <==> Complete(shards)
    ensures r.Ok? ==> r.value == Combined(shards)
  {
    hide XorBytes, StableSort;
    if |shards| == 0 {
      return Err(NoShards);
    }
    var expectedTotal := shards[0].totalShards;
    if |shards| != expectedTotal {
      return Err(WrongShardCount);
    }
    if !(2 <= expectedTotal <= 8) {
      return Err(InvalidGroupSize);
    }
    var expectedLen := |shards[0].data|;
    if expectedLen == 0 {
      return Err(EmptyShardData);
    }
    var checked := CheckShards(shards, expectedTotal, expectedLen);
    if checked.Err? {
      return Err(checked.error);
    }
    var sorted := StableSort(shards, IndexOf);
    SortedLengths(shards, expectedLen);
    var result := new Byte[expectedLen](i => 0);
    assert result[..] == Zeros(expectedLen);
    for k := 0 to |sorted|
      invariant result[..] == XorAll(Datas(sorted)[..k], expectedLen)
    {
      assert Datas(sorted)[..k + 1][..k] == Datas(sorted)[..k];
      assert Datas(sorted)[k] == sorted[k].data;
      XorInto(result, sorted[k].data);
    }
    assert Datas(sorted)[..|sorted|] == Datas(sorted);
    r := Ok(result[..]);
  }

  // --- shares of a signature payload ------------------------------------------------------------

  // The fixed-size form: all masks are combined first.
  method Split(payload: SignaturePayload, n: nat, base: nat, masks: seq<seq<Byte>>)
    returns (r: Result<seq<Shard>, ShareError>)
    requires payload.Valid() && (2 <= n <= 8 ==> ValidMasks(masks, n, SERIALIZED_SIZE))
    ensures |ToBytes(payload)| == SERIALIZED_SIZE
    ensures r.Ok? <==> 2 <= n <= 8 && base + (n - 1) <= 0xFFFF_FFFF_FFFF_FFFF
    ensures r.Ok? ==> r.value == Shards(ToBytes(payload), masks, base)
  {
    hide XorBytes, ToBytes;
    PayloadRoundTrip(payload);
    if n < 2 {
      return Err(TooFewShards);
    }
    if n > 8 {
      return Err(TooManyShards);
    }
    if base + (n - 1) > MAX_FRAME {
      return Err(FrameIndexOverflow);
    }
    var bytes := ToBytes(payload);
    var allMasks := new Byte[SERIALIZED_SIZE](i => 0);
    assert allMasks[..] == Zeros(SERIALIZED_SIZE);
    for k := 0 to |masks|
      invariant allMasks[..] == XorAll(masks[..k], SERIALIZED_SIZE)
    {
      assert masks[..k + 1][..k] == masks[..k];
      XorInto(allMasks, masks[k]);
    }
    assert masks[..|masks|] == masks;
    var shard0 := new Byte[SERIALIZED_SIZE](i requires 0 <= i < |bytes| => bytes[i]);
    assert shard0[..] == bytes;
    XorInto(shard0, allMasks[..]);
    var shards := [Shard(base, 0, n, shard0[..])];
    for i := 1 to n
      invariant shards == Shards(bytes, masks, base)[..i]
    {
      shards := shards + [Shard(base + i, i, n, masks[i - 1])];
    }
    r := Ok(shards);
  }

  method Reconstruct(shards: seq<Shard>) returns (r: Result<SignaturePayload, ShareError>)
    requires forall i :: 0 <= i < |shards| ==> |shards[i].data| == SERIALIZED_SIZE
    ensures !Complete(shards) ==> r.Err?
    ensures Complete(shards) ==>
      var parsed := FromBytes(Combined(shards));
      r == if parsed.Ok? then Ok(parsed.value) else Err(InvalidPayload(parsed.error))
  {
    hide StableSort, FromBytes;
    var result := ReconstructPayloadBytes(shards);
    if result.Err? {
      return Err(result.error);
    }
    var parsed := FromBytes(result.value);
    r := if parsed.Ok? then Ok(parsed.value) else Err(InvalidPayload(parsed.error));
  }

  // --- the laws of the scheme ---------------------------------------------------------------

  // `order` lists each of the n indices once.
  ghost predicate Rearranges(order: seq<nat>, n: nat) {
    |order| == n && (forall i :: 0 <= i < n ==> order[i] < n) && forall i, j :: 0 <= i < j < n ==> order[i] != order[j]
  }

  function Rearranged(shards: seq<Shard>, order: seq<nat>): (r: seq<Shard>)
    requires forall i :: 0 <= i < |order| ==> order[i] < |shards|
    ensures |r| == |order|
  {
    seq(|order|, i requires 0 <= i < |order| => shards[order[i]])
  }

  // Strictly ascending numbers that all fit below their count are the numbers from 0.
  lemma {:induction false} AscendingFrom(s: seq<Shard>, i: nat)
    requires i < |s| && forall k, l :: 0 <= k < l < |s| ==> s[k].shardIndex < s[l].shardIndex
    ensures s[i].shardIndex >= i
  {
    if i > 0 {
      AscendingFrom(s, i - 1);
    }
  }

  lemma {:induction false} AscendingTo(s: seq<Shard>, i: nat)
    requires i < |s| && forall k, l :: 0 <= k < l < |s| ==> s[k].shardIndex < s[l].shardIndex
    ensures s[|s| - 1].shardIndex >= s[i].shardIndex + (|s| - 1 - i)
    decreases |s| - i
  {
    if i < |s| - 1 {
      AscendingTo(s, i + 1);
    }
  }

  // Sorting brings rearranged shards back into their order.
  lemma SortRestores(shards: seq<Shard>, order: seq<nat>)
    requires Rearranges(order, |shards|) && forall i :: 0 <= i < |shards| ==> shards[i].shardIndex == i
    ensures DistinctBy(Rearranged(shards, order), IndexOf)
    ensures StableSort(Rearranged(shards, order), IndexOf) == shards
  {
    var s := Rearranged(shards, order);
    var t := StableSort(s, IndexOf);
    SortOrdered(s, IndexOf);
    SortDistinct(s, IndexOf, IndexOf);
    forall k | 0 <= k < |t|
      ensures t[k].shardIndex < |shards| && t[k] == shards[t[k].shardIndex]
    {
      SortMember(s, IndexOf, k);
    }
    forall k, l | 0 <= k < l < |t|
      ensures t[k].shardIndex < t[l].shardIndex
    {
      assert IndexOf(t[k]) <= IndexOf(t[l]) && IndexOf(t[k]) != IndexOf(t[l]);
    }
    forall k | 0 <= k < |t|
      ensures t[k] == shards[k]
    {
      AscendingFrom(t, k);
      AscendingTo(t, k);
    }
  }

  // All shards in any order give the payload back.
  lemma AnyOrderReconstructs(payload: seq<Byte>, masks: seq<seq<Byte>>, base: nat, order: seq<nat>)
    requires AllOfLength(masks, |payload|) && |payload| > 0 && 1 <= |masks| <= 7
    requires Rearranges(order, |masks| + 1)
    ensures var received := Rearranged(Shards(payload, masks, base), order);
            Complete(received) && Combined(received) == payload
  {
    hide XorBytes, StableSort;
    var shards := Shards(payload, masks, base);
    var received := Rearranged(shards, order);
    SortRestores(shards, order);
    assert Datas(shards) == ShareData(payload, masks);
    SharesSum(payload, masks);
  }

  lemma SharesSum(payload: seq<Byte>, masks: seq<seq<Byte>>)
    requires AllOfLength(masks, |payload|)
    ensures XorAll(ShareData(payload, masks), |payload|) == payload
  {
    hide XorBytes;
    var m := XorAll(masks, |payload|);
    var first := XorBytes(payload, m);
    FirstRow(first, masks, |payload|);
    XorSwap(payload, m, m);
    XorUnits(m, m);
    XorUnits(payload, payload);
  }

  lemma {:induction false} FirstRow(first: seq<Byte>, rest: seq<seq<Byte>>, len: nat)
    requires |first| == len && AllOfLength(rest, len)
    ensures AllOfLength([first] + rest, len) && XorAll([first] + rest, len) == XorBytes(first, XorAll(rest, len))
    decreases |rest|
  {
    hide XorBytes;
    var rows := [first] + rest;
    XorUnits(first, first);
    if |rest| == 0 {
      assert rows[..0] == [];
    } else {
      var last := |rest| - 1;
      assert rows[..|rows| - 1] == [first] + rest[..last];
      FirstRow(first, rest[..last], len);
      XorSwap(first, XorAll(rest[..last], len), rest[last]);
    }
  }

  ghost predicate Occurs(shards: seq<Shard>, k: nat) {
    exists i :: 0 <= i < |shards| && shards[i].shardIndex == k
  }

  // Distinct indices leave none out.
  lemma DistinctCovers(shards: seq<Shard>, k: nat)
    requires Complete(shards) && k < |shards|
    ensures Occurs(shards, k)
  {
    if !Occurs(shards, k) {
      var used := seq(|shards|, i requires 0 <= i < |shards| => shards[i].shardIndex) + [k];
      forall i, j | 0 <= i < j < |used|
        ensures used[i] != used[j]
      {
        if j < |shards| {
          assert IndexOf(shards[i]) != IndexOf(shards[j]);
        }
      }
      Pigeonhole(used, |shards|);
    }
  }

  ghost function PositionOf(shards: seq<Shard>, k: nat): (i: nat)
    requires Occurs(shards, k)
    ensures i < |shards| && shards[i].shardIndex == k
  {
    var i :| 0 <= i < |shards| && shards[i].shardIndex == k;
    i
  }

  // A repeated index leaves another one out.
  lemma RepeatedMisses(shards: seq<Shard>, i: nat, j: nat)
    requires Consistent(shards) && i < j < |shards| && shards[i].shardIndex == shards[j].shardIndex
    ensures exists k: nat :: k < |shards| && !Occurs(shards, k)
  {
    if forall k: nat :: k < |shards| ==> Occurs(shards, k) {
      var n := |shards|;
      var spare := if PositionOf(shards, shards[i].shardIndex) == i then j else i;
      var positions := seq(n, k requires 0 <= k < n => PositionOf(shards, k)) + [spare];
      forall k, l | 0 <= k < l < |positions|
        ensures positions[k] != positions[l]
      {
        assert shards[positions[k]].shardIndex == k;
        if l < n {
          assert shards[positions[l]].shardIndex == l;
        }
      }
      Pigeonhole(positions, n);
    }
  }

  // Missing shards and repeated indices are always refused: among consistent groups those and only those are
  // complete in which every index occurs.
  lemma CompleteExactly(shards: seq<Shard>)
    requires Consistent(shards)
    ensures Complete(shards) <==> forall k: nat :: k < |shards| ==> Occurs(shards, k)
  {
    if Complete(shards) {
      forall k: nat | k < |shards|
        ensures Occurs(shards, k)
      {
        DistinctCovers(shards, k);
      }
    } else {
      var i, j :| 0 <= i < j < |shards| && IndexOf(shards[i]) == IndexOf(shards[j]);
      RepeatedMisses(shards, i, j);
    }
  }

  // Every complete group is a split of what it combines to, under the masks that its later shards are.
  lemma CompleteIsSplit(shards: seq<Shard>) returns (masks: seq<seq<Byte>>)
    requires Complete(shards)
    ensures |masks| + 1 == |shards| && AllOfLength(masks, |Combined(shards)|)
    ensures Datas(StableSort(shards, IndexOf)) == ShareData(Combined(shards), masks)
  {
    hide XorBytes, StableSort;
    var len := |shards[0].data|;
    SortedLengths(shards, len);
    var rows := Datas(StableSort(shards, IndexOf));
    masks := rows[1..];
    assert rows == [rows[0]] + masks;
    FirstRow(rows[0], masks, len);
    var m := XorAll(masks, len);
    XorSwap(rows[0], m, m);
    XorUnits(m, m);
    XorUnits(rows[0], rows[0]);
  }

  // Two groups of share data that differ at most in row j.
  ghost predicate AgreeExcept(a: seq<seq<Byte>>, b: seq<seq<Byte>>, j: nat) {
    |a| == |b| && forall i :: 0 <= i < |a| && i != j ==> a[i] == b[i]
  }

  // The masks under which another payload shows the same shards except shard j.
  function Compensated(payload: seq<Byte>, masks: seq<seq<Byte>>, other: seq<Byte>, j: nat): (r: seq<seq<Byte>>)
    requires AllOfLength(masks, |payload|) && |other| == |payload| && j <= |masks|
  {
    if j == 0 then masks else masks[j - 1 := XorBytes(masks[j - 1], XorBytes(payload, other))]
  }

  lemma SameMasks(masks: seq<seq<Byte>>, masks': seq<seq<Byte>>, a: seq<seq<Byte>>, b: seq<seq<Byte>>, j: nat)
    requires |masks| == |masks'| && a != [] && b != [] && a[1..] == masks && b[1..] == masks' && AgreeExcept(a, b, j)
    ensures forall i :: 0 <= i < |masks| && i + 1 != j ==> masks[i] == masks'[i]
  {
    forall i | 0 <= i < |masks| && i + 1 != j
      ensures masks[i] == masks'[i]
    {
      assert masks[i] == a[i + 1] && masks'[i] == b[i + 1];
    }
  }

  // One mask replaced: the first rows agree exactly when it was changed by the difference of the payloads.
  lemma OneMaskReplaced(payload: seq<Byte>, masks: seq<seq<Byte>>, other: seq<Byte>, k: nat, mask: seq<Byte>)
    requires AllOfLength(masks, |payload|) && |other| == |payload| == |mask| && k < |masks|
    requires AllOfLength(masks[k := mask], |payload|)
    ensures XorBytes(payload, XorAll(masks, |payload|)) == XorBytes(other, XorAll(masks[k := mask], |payload|))
            <==> mask == XorBytes(masks[k], XorBytes(payload, other))
  {
    hide XorBytes;
    var d := XorBytes(masks[k], mask);
    XorUnits(masks[k], mask);
    XorAllUpdated(masks, |payload|, k, d);
    XorUnits(masks[k], XorBytes(payload, other));
    OneUnknown(payload, XorAll(masks, |payload|), other, d);
  }

  // All shards but one are compatible with every payload of their length, through exactly one choice of masks.
  lemma AllButOneTellNothing(payload: seq<Byte>, masks: seq<seq<Byte>>, other: seq<Byte>, masks': seq<seq<Byte>>, j: nat)
    requires AllOfLength(masks, |payload|) && |other| == |payload| && j <= |masks|
    requires |masks'| == |masks| && AllOfLength(masks', |payload|)
    ensures AgreeExcept(ShareData(payload, masks), ShareData(other, masks'), j)
            <==> masks' == Compensated(payload, masks, other, j)
  {
    hide XorBytes, XorAll;
    var a, b := ShareData(payload, masks), ShareData(other, masks');
    if AgreeExcept(a, b, j) {
      SameMasks(masks, masks', a, b, j);
      if j > 0 {
        assert a[0] == b[0];
        assert masks' == masks[j - 1 := masks'[j - 1]];
        OneMaskReplaced(payload, masks, other, j - 1, masks'[j - 1]);
      } else {
        assert masks' == masks;
      }
    }
    if masks' == Compensated(payload, masks, other, j) {
      if j > 0 {
        assert masks' == masks[j - 1 := masks'[j - 1]];
        OneMaskReplaced(payload, masks, other, j - 1, masks'[j - 1]);
        assert a[0] == b[0];
      }
      forall i | 0 < i < |a| && i != j
        ensures a[i] == b[i]
      {
        assert a[i] == masks[i - 1] && b[i] == masks'[i - 1];
      }
    }
  }

  lemma XorSolved(p: Byte, m: Byte, o: Byte, d: Byte)
    ensures Add(Add(o, m), Add(o, Add(m, d))) == d
    ensures Add(Add(o, m), Add(p, m)) == Add(p, o)
    ensures Add(o, Add(m, Add(p, o))) == Add(p, m)
  {}

  lemma OneUnknownByte(p: Byte, m: Byte, o: Byte, d: Byte)
    ensures Add(p, m) == Add(o, Add(m, d)) <==> d == Add(p, o)
  {
    hide Add;
    XorSolved(p, m, o, d);
  }

  lemma OneUnknown(p: seq<Byte>, m: seq<Byte>, o: seq<Byte>, d: seq<Byte>)
    requires |p| == |m| == |o| == |d|
    ensures XorBytes(p, m) == XorBytes(o, XorBytes(m, d)) <==> d == XorBytes(p, o)
  {
    hide Add;
    forall i | 0 <= i < |p|
      ensures Add(p[i], m[i]) == Add(o[i], Add(m[i], d[i])) <==> d[i] == Add(p[i], o[i])
    {
      OneUnknownByte(p[i], m[i], o[i], d[i]);
    }
    if XorBytes(p, m) == XorBytes(o, XorBytes(m, d)) {
      forall i | 0 <= i < |p|
        ensures d[i] == XorBytes(p, o)[i]
      {
        assert XorBytes(p, m)[i] == XorBytes(o, XorBytes(m, d))[i];
      }
    }
  }

  // Shard i is numbered i of all, from the base frame on; all but the first carry the masks, and all together sum to the
  // payload, which with two shards is their bytewise exclusive or.
  lemma ShardsLayout(payload: seq<Byte>, masks: seq<seq<Byte>>, base: nat, i: nat)
    requires AllOfLength(masks, |payload|) && i <= |masks|
    ensures var shards, n := Shards(payload, masks, base), |masks| + 1;
            && |shards| == n && |shards[i].data| == |payload|
            && shards[i].frameIndex == base + i && shards[i].shardIndex == i && shards[i].totalShards == n
            && (i > 0 ==> shards[i].data == masks[i - 1])
            && (n == 2 ==> forall t :: 0 <= t < |payload| ==> shards[0].data[t] ^ shards[1].data[t] == payload[t])
  {
    if |masks| == 1 {
      hide Add;
      var rows := ShareData(payload, masks);
      var len := |payload|;
      assert masks[..0] == [] && XorAll([], len) == Zeros(len);
      assert XorAll(masks, len) == XorBytes(Zeros(len), masks[0]);
      assert rows[0] == XorBytes(payload, XorAll(masks, len)) && rows[1] == masks[0];
      forall t | 0 <= t < |payload|
        ensures rows[0][t] ^ rows[1][t] == payload[t]
      {
        assert rows[0][t] == Add(payload[t], Add(0, masks[0][t]));
        MaskOnce(payload[t], masks[0][t]);
      }
    }
  }

  lemma MaskOnce(p: Byte, m: Byte)
    ensures Add(p, Add(0, m)) ^ m == p
  {}
}
