/** Content-adaptive selection of carrier bytes in adaptive.rs: local variance of masked pixels, filtered and sorted. */
module Texture {
  import opened Arithmetic
  import opened GaloisField
  import opened UnitBits
  import opened BitStreams
  import opened LsbVideo
  import opened StableSorting

  const HALF := 1

  // --- variance -----------------------------------------------------------------------------

  function Value(b: Byte): nat {
    b as nat
  }

  function Sum(values: seq<Byte>): nat {
    if |values| == 0 then 0 else Sum(values[..|values| - 1]) + Value(values[|values| - 1])
  }

  function Square(d: int): nat {
    if d >= 0 then d * d else (-d) * (-d)
  }

  function SquaredDeviations(values: seq<Byte>, mean: nat): nat {
    if |values| == 0 then 0
    else SquaredDeviations(values[..|values| - 1], mean) + Square(Value(values[|values| - 1]) - mean)
  }

  function Variance(values: seq<Byte>): nat {
    if |values| < 2 then 0
    else SquaredDeviations(values, Sum(values) / |values|) / |values|
  }

  lemma ValueBound(b: Byte)
    ensures Value(b) <= 255
  {}

  lemma {:induction false} SumBound(values: seq<Byte>)
    ensures Sum(values) <= 255 * |values|
  {
    hide Value;
    if |values| > 0 {
      SumBound(values[..|values| - 1]);
      ValueBound(values[|values| - 1]);
    }
  }

  lemma SquareBound(d: int)
    requires -255 <= d <= 255
    ensures Square(d) <= 65025
  {
    MulMonotone(if d >= 0 then d else -d, 255, if d >= 0 then d else -d);
  }

  lemma {:induction false} DeviationBound(values: seq<Byte>, mean: nat)
    requires mean <= 255
    ensures SquaredDeviations(values, mean) <= 65025 * |values|
  {
    hide Value, Square;
    if |values| > 0 {
      DeviationBound(values[..|values| - 1], mean);
      ValueBound(values[|values| - 1]);
      SquareBound(Value(values[|values| - 1]) - mean);
    }
  }

  lemma DivisionBound(x: nat, n: nat, bound: nat)
    requires n > 0 && x <= bound * n
    ensures x / n <= bound
  {
    DivMod(x, n);
    if x / n > bound {
      MulMonotone(bound + 1, x / n, n);
    }
  }

  // The variance of bytes fits its 32-bit result.
  lemma VarianceBound(values: seq<Byte>)
    ensures Variance(values) <= 65025
  {
    hide Sum, SquaredDeviations;
    if |values| >= 2 {
      SumBound(values);
      DivisionBound(Sum(values), |values|, 255);
      DeviationBound(values, Sum(values) / |values|);
      DivisionBound(SquaredDeviations(values, Sum(values) / |values|), |values|, 65025);
    }
  }

  lemma {:induction false} FlatSums(values: seq<Byte>, b: Byte)
    requires forall i :: 0 <= i < |values| ==> values[i] == b
    ensures Sum(values) == Value(b) * |values| && SquaredDeviations(values, Value(b)) == 0
  {
    hide Value;
    if |values| > 0 {
      FlatSums(values[..|values| - 1], b);
    }
  }

  // A flat window has no variance.
  lemma FlatWindow(values: seq<Byte>, b: Byte)
    requires forall i :: 0 <= i < |values| ==> values[i] == b
    ensures Variance(values) == 0
  {
    hide Sum, SquaredDeviations, Value;
    if |values| >= 2 {
      FlatSums(values, b);
      DivModUnique(Sum(values), |values|, Value(b), 0);
      SmallMod(0, |values|);
    }
  }

  lemma {:induction false} OneDeviation(values: seq<Byte>, mean: nat, i: nat)
    requires i < |values|
    ensures SquaredDeviations(values, mean) >= Square(Value(values[i]) - mean)
  {
    hide Value, Square;
    if i < |values| - 1 {
      OneDeviation(values[..|values| - 1], mean, i);
    }
  }

  lemma {:induction false} TwoDeviations(values: seq<Byte>, mean: nat, i: nat, j: nat)
    requires i < j < |values|
    ensures SquaredDeviations(values, mean) >= Square(Value(values[i]) - mean) + Square(Value(values[j]) - mean)
  {
    hide Value, Square;
    var last := |values| - 1;
    if j < last {
      TwoDeviations(values[..last], mean, i, j);
    } else {
      OneDeviation(values[..last], mean, i);
    }
  }

  // Two squares of distances to one point, doubled, are at least the square of the distance between the two.
  lemma Apart(a: int, b: int, mean: int)
    ensures 2 * (Square(a - mean) + Square(b - mean)) >= (a - b) * (a - b)
  {
    var p, q := a - mean, b - mean;
    SquareIs(p);
    SquareIs(q);
    SquareIs(p + q);
    calc {
      2 * (p * p + q * q) - (p - q) * (p - q);
      (p + q) * (p + q);
    }
  }

  lemma SquareIs(d: int)
    ensures Square(d) == d * d && d * d >= 0
  {}

  // Two values d apart in a window of n give a variance of at least d squared over 2 n.
  lemma VarianceSpread(values: seq<Byte>, i: nat, j: nat)
    requires i < |values| && j < |values|
    ensures var d := Value(values[i]) - Value(values[j]); 2 * |values| * (Variance(values) + 1) > d * d
  {
    hide Sum, SquaredDeviations, Value, Square;
    var d := Value(values[i]) - Value(values[j]);
    if i != j {
      var n, mean := |values|, Sum(values) / |values|;
      TwoDeviations(values, mean, if i < j then i else j, if i < j then j else i);
      Apart(Value(values[i]), Value(values[j]), mean);
      var total := SquaredDeviations(values, mean);
      DivMod(total, n);
      assert total < n * (total / n + 1) by {
        assert n * (total / n + 1) == (total / n) * n + n;
      }
    } else {
      assert d == 0;
      MulMonotone(1, Variance(values) + 1, 2 * |values|);
    }
  }

  // How often a value occurs.
  function Count(values: seq<Byte>, c: Byte): nat {
    if |values| == 0 then 0 else Count(values[..|values| - 1], c) + (if values[|values| - 1] == c then 1 else 0)
  }

  lemma {:induction false} TwoColourSums(values: seq<Byte>, a: Byte, b: Byte, mean: nat, k: nat, l: nat)
    requires a != b && forall i :: 0 <= i < |values| ==> values[i] == a || values[i] == b
    requires k == Count(values, a) && l == Count(values, b)
    ensures k + l == |values|
    ensures Sum(values) == k * Value(a) + l * Value(b)
    ensures SquaredDeviations(values, mean) == k * Square(Value(a) - mean) + l * Square(Value(b) - mean)
  {
    hide Value, Square;
    if |values| > 0 {
      var front, last := values[..|values| - 1], values[|values| - 1];
      if last == a {
        TwoColourSums(front, a, b, mean, k - 1, l);
        OneMore(k - 1, Value(a));
        OneMore(k - 1, Square(Value(a) - mean));
      } else {
        assert last == b;
        TwoColourSums(front, a, b, mean, k, l - 1);
        OneMore(l - 1, Value(b));
        OneMore(l - 1, Square(Value(b) - mean));
      }
    }
  }

  lemma OneMore(k: nat, x: nat)
    ensures (k + 1) * x == k * x + x
  {}

  // The exact variance of a window of two colours, from how often each occurs: the mean is rounded down, and so is the
  // mean of the squared distances to it.
  lemma TwoColourVariance(values: seq<Byte>, a: Byte, b: Byte, k: nat, l: nat, mean: nat)
    requires |values| >= 2 && a != b && forall i :: 0 <= i < |values| ==> values[i] == a || values[i] == b
    requires k == Count(values, a) && l == Count(values, b)
    requires mean == (k * (a as nat) + l * (b as nat)) / |values|
    ensures var p, q := a as nat - mean, b as nat - mean; Variance(values) == (k * (p * p) + l * (q * q)) / |values|
  {
    hide Sum, SquaredDeviations, Square;
    TwoColourSums(values, a, b, mean, k, l);
    SquareIs(Value(a) - mean);
    SquareIs(Value(b) - mean);
  }

  // --- windows ------------------------------------------------------------------------------

  function Before(x: nat): nat {
    if x < HALF then 0 else x - HALF
  }

  function Behind(x: nat, limit: nat): nat {
    Min(x + HALF + 1, limit)
  }

  // The masked byte at an offset, if there is one.
  function Cell(data: seq<Byte>, bits: nat, offset: nat): seq<Byte>
    requires bits <= 4
  {
    if offset < |data| then [Masked(data[offset], bits)] else []
  }

  function RowCells(layout: Layout, data: seq<Byte>, bits: nat, wy: nat, start: nat, end: nat): seq<Byte>
    requires bits <= 4
    decreases end
  {
    if end <= start then []
    else RowCells(layout, data, bits, wy, start, end - 1)
         + Cell(data, bits, wy * layout.stride + (end - 1) * layout.BytesPerPixel())
  }

  function WindowCells(layout: Layout, data: seq<Byte>, bits: nat, x: nat, start: nat, end: nat): seq<Byte>
    requires bits <= 4
    decreases end
  {
    if end <= start then []
    else WindowCells(layout, data, bits, x, start, end - 1)
         + RowCells(layout, data, bits, end - 1, Before(x), Behind(x, layout.width))
  }

  // Variance around pixel (x, y).
  function LocalVariance(layout: Layout, data: seq<Byte>, bits: nat, y: nat, x: nat): nat
    requires bits <= 4
  {
    Variance(WindowCells(layout, data, bits, x, Before(y), Behind(y, layout.height)))
  }

  // --- the map ------------------------------------------------------------------------------

  datatype Entry = Entry(offset: nat, variance: nat)

  // The entry of the logical colour byte l.
  function EntryAt(layout: Layout, data: seq<Byte>, bits: nat, l: nat): Entry
    requires bits <= 4
  {
    Entry(ByteOffset(layout)(l), LocalVariance(layout, data, bits, Row(layout, l), Column(layout, l) / 3))
  }

  function VarianceMap(layout: Layout, data: seq<Byte>, bits: nat): (entries: seq<Entry>)
    requires bits <= 4
    ensures |entries| == layout.Units()
  {
    seq(layout.Units(), l requires 0 <= l < layout.Units() => EntryAt(layout, data, bits, l))
  }

  method SumOf(values: seq<Byte>) returns (sum: nat)
    ensures sum == Sum(values)
  {
    hide Value;
    sum := 0;
    for i := 0 to |values|
      invariant sum == Sum(values[..i])
    {
      assert values[..i + 1][..i] == values[..i];
      sum := sum + Value(values[i]);
    }
    assert values[..|values|] == values;
  }

  method SquaresOf(values: seq<Byte>, mean: nat) returns (squares: nat)
    ensures squares == SquaredDeviations(values, mean)
  {
    hide Value, Square;
    squares := 0;
    for i := 0 to |values|
      invariant squares == SquaredDeviations(values[..i], mean)
    {
      assert values[..i + 1][..i] == values[..i];
      squares := squares + Square(Value(values[i]) - mean);
    }
    assert values[..|values|] == values;
  }

  method ComputeVariance(values: seq<Byte>) returns (variance: nat)
    ensures variance == Variance(values)
  {
    hide Sum, SquaredDeviations;
    if |values| < 2 {
      return 0;
    }
    var n := |values|;
    var sum := SumOf(values);
    var mean := sum / n;
    var squares := SquaresOf(values, mean);
    variance := squares / n;
  }

  method GatherWindow(layout: Layout, data: seq<Byte>, bits: nat, y: nat, x: nat) returns (values: seq<Byte>)
    requires bits <= 4 && y < layout.height && x < layout.width
    ensures values == WindowCells(layout, data, bits, x, Before(y), Behind(y, layout.height))
  {
    hide Masked;
    values := [];
    for wy := Before(y) to Behind(y, layout.height)
      invariant values == WindowCells(layout, data, bits, x, Before(y), wy)
    {
      ghost var start := values;
      for wx := Before(x) to Behind(x, layout.width)
        invariant values == start + RowCells(layout, data, bits, wy, Before(x), wx)
      {
        var pixelOffset := wy * layout.stride + wx * layout.BytesPerPixel();
        if pixelOffset < |data| {
          values := values + [Masked(data[pixelOffset], bits)];
        }
      }
    }
  }

  // Pixel (x, y) and its b-th colour byte, seen from the logical numbering.
  lemma LogicalPixel(layout: Layout, y: nat, x: nat, b: nat)
    requires layout.width > 0 && y < layout.height && x < layout.width && b < 3
    ensures var l := y * (3 * layout.width) + 3 * x + b;
            l < layout.Units() && Row(layout, l) == y && Column(layout, l) / 3 == x
            && ByteOffset(layout)(l) == y * layout.stride + x * layout.BytesPerPixel() + b
  {
    var l := y * (3 * layout.width) + 3 * x + b;
    DivModUnique(l, 3 * layout.width, y, 3 * x + b);
    MulMonotone(y + 1, layout.height, 3 * layout.width);
    assert layout.Units() == layout.height * (3 * layout.width);
  }

  method ComputeVarianceMap(layout: Layout, data: seq<Byte>, bits: nat) returns (entries: seq<Entry>)
    requires bits <= 4 && layout.ValidPacked(|data|)
    ensures entries == VarianceMap(layout, data, bits)
  {
    hide LocalVariance, Row, Column, ByteOffset, WindowCells;
    var w, bpp := layout.width, layout.BytesPerPixel();
    entries := [];
    for y := 0 to layout.height
      invariant |entries| == y * (3 * w)
      invariant forall l :: 0 <= l < |entries| ==> entries[l] == EntryAt(layout, data, bits, l)
    {
      for x := 0 to w
        invariant |entries| == y * (3 * w) + 3 * x
        invariant forall l :: 0 <= l < |entries| ==> entries[l] == EntryAt(layout, data, bits, l)
      {
        var values := GatherWindow(layout, data, bits, y, x);
        var variance := ComputeVariance(values);
        VarianceOf(layout, data, bits, y, x);
        var baseOffset := y * layout.stride + x * bpp;
        for b := 0 to bpp
          invariant |entries| == y * (3 * w) + 3 * x + Min(b, 3)
          invariant forall l :: 0 <= l < |entries| ==> entries[l] == EntryAt(layout, data, bits, l)
        {
          if layout.format == Bgra8 && b + 1 == bpp {
            continue;
          }
          LogicalPixel(layout, y, x, b);
          OffsetParts(layout, |data|, |entries|);
          if baseOffset + b < |data| {
            entries := entries + [Entry(baseOffset + b, variance)];
          }
        }
      }
      MulMonotone(1, y + 1, 3 * w);
    }
    UnitsByRow(layout);
  }

  lemma VarianceOf(layout: Layout, data: seq<Byte>, bits: nat, y: nat, x: nat)
    requires bits <= 4
    ensures LocalVariance(layout, data, bits, y, x) == Variance(WindowCells(layout, data, bits, x, Before(y), Behind(y, layout.height)))
  {}

  lemma UnitsByRow(layout: Layout)
    ensures layout.Units() == layout.height * (3 * layout.width)
  {}

  // --- selection ----------------------------------------------------------------------------

  function Retained(entries: seq<Entry>, threshold: nat): seq<Entry> {
    if |entries| == 0 then []
    else
      var last := entries[|entries| - 1];
      Retained(entries[..|entries| - 1], threshold) + (if last.variance >= threshold then [last] else [])
  }

  // Larger variances first.
  function Rank(e: Entry): int {
    -(e.variance as int)
  }

  function OffsetOf(e: Entry): nat {
    e.offset
  }

  function Offsets(entries: seq<Entry>): (offsets: seq<nat>)
    ensures |offsets| == |entries|
  {
    seq(|entries|, i requires 0 <= i < |entries| => entries[i].offset)
  }

  function Positions(layout: Layout, data: seq<Byte>, bits: nat, threshold: nat): seq<nat>
    requires bits <= 4
  {
    Offsets(StableSort(Retained(VarianceMap(layout, data, bits), threshold), Rank))
  }

  method SelectPositions(layout: Layout, data: seq<Byte>, bits: nat, threshold: nat) returns (positions: seq<nat>)
    requires bits <= 4 && layout.ValidPacked(|data|)
    ensures positions == Positions(layout, data, bits, threshold)
  {
    hide EntryAt, StableSort;
    var varianceMap := ComputeVarianceMap(layout, data, bits);
    var retained: seq<Entry> := [];
    for i := 0 to |varianceMap|
      invariant retained == Retained(varianceMap[..i], threshold)
    {
      assert varianceMap[..i + 1][..i] == varianceMap[..i];
      if varianceMap[i].variance >= threshold {
        retained := retained + [varianceMap[i]];
      }
    }
    assert varianceMap[..|varianceMap|] == varianceMap;
    positions := Offsets(StableSort(retained, Rank));
  }

  lemma {:induction false} RetainedFrom(entries: seq<Entry>, threshold: nat)
    ensures forall i :: 0 <= i < |Retained(entries, threshold)| ==>
              Retained(entries, threshold)[i] in entries && Retained(entries, threshold)[i].variance >= threshold
  {
    if |entries| > 0 {
      RetainedFrom(entries[..|entries| - 1], threshold);
    }
  }

  lemma {:induction false} RetainedDistinct(entries: seq<Entry>, threshold: nat)
    requires DistinctBy(entries, OffsetOf)
    ensures DistinctBy(Retained(entries, threshold), OffsetOf)
  {
    if |entries| > 0 {
      var last := |entries| - 1;
      RetainedDistinct(entries[..last], threshold);
      RetainedFrom(entries[..last], threshold);
      var r := Retained(entries[..last], threshold);
      forall i | 0 <= i < |r|
        ensures OffsetOf(r[i]) != OffsetOf(entries[last])
      {
        var k :| 0 <= k < last && entries[k] == r[i];
      }
    }
  }

  // Selected positions are different colour bytes of the frame: never alpha, never padding.
  lemma PositionsValid(layout: Layout, data: seq<Byte>, bits: nat, threshold: nat)
    requires bits <= 4 && layout.ValidPacked(|data|)
    ensures var positions := Positions(layout, data, bits, threshold);
            (forall i :: 0 <= i < |positions| ==> positions[i] < |data| && !Unowned(layout, positions[i]))
            && forall i, j :: 0 <= i < j < |positions| ==> positions[i] != positions[j]
  {
    hide StableSort, Unowned, ByteOffset, LocalVariance, Row, Column;
    var entries := VarianceMap(layout, data, bits);
    var retained := Retained(entries, threshold);
    var sorted := StableSort(retained, Rank);
    OffsetsValid(layout, |data|, layout.Units());
    assert DistinctBy(entries, OffsetOf);
    RetainedDistinct(entries, threshold);
    SortDistinct(retained, Rank, OffsetOf);
    RetainedFrom(entries, threshold);
    forall i | 0 <= i < |sorted|
      ensures sorted[i].offset < |data| && !Unowned(layout, sorted[i].offset)
    {
      SortMember(retained, Rank, i);
      var k :| 0 <= k < |retained| && retained[k] == sorted[i];
      var l :| 0 <= l < |entries| && entries[l] == sorted[i];
      UnownedIsNoOffset(layout, |data|, l);
    }
    forall i, j | 0 <= i < j < |sorted|
      ensures sorted[i].offset != sorted[j].offset
    {
      assert OffsetOf(sorted[i]) != OffsetOf(sorted[j]);
    }
  }

  lemma {:induction false} RetainedKeeps(entries: seq<Entry>, threshold: nat, i: nat)
    requires i < |entries| && entries[i].variance >= threshold
    ensures entries[i] in Retained(entries, threshold)
  {
    var last := |entries| - 1;
    if i < last {
      RetainedKeeps(entries[..last], threshold, i);
    }
  }

  // The selection is every colour byte whose surroundings vary enough, the busiest first, ties in frame order.
  lemma SelectionMeans(layout: Layout, data: seq<Byte>, bits: nat, threshold: nat, v: int)
    requires bits <= 4 && layout.ValidPacked(|data|)
    ensures var found := VarianceMap(layout, data, bits);
            var sorted := StableSort(Retained(found, threshold), Rank);
            Positions(layout, data, bits, threshold) == Offsets(sorted)
            && (forall l :: 0 <= l < |found| ==> (found[l] in sorted <==> found[l].variance >= threshold))
            && (forall i, j :: 0 <= i < j < |sorted| ==> sorted[i].variance >= sorted[j].variance)
            && OfKey(sorted, Rank, v) == OfKey(Retained(found, threshold), Rank, v)
  {
    hide StableSort, EntryAt;
    var entries := VarianceMap(layout, data, bits);
    var retained := Retained(entries, threshold);
    var sorted := StableSort(retained, Rank);
    SortOrdered(retained, Rank);
    SortStable(retained, Rank, v);
    SortContents(retained, Rank);
    RetainedFrom(entries, threshold);
    forall l | 0 <= l < |entries|
      ensures entries[l] in sorted <==> entries[l].variance >= threshold
    {
      assert entries[l] in sorted <==> entries[l] in multiset(sorted);
      assert entries[l] in retained <==> entries[l] in multiset(retained);
      if entries[l].variance >= threshold {
        RetainedKeeps(entries, threshold, l);
      }
    }
    forall i, j | 0 <= i < j < |sorted|
      ensures sorted[i].variance >= sorted[j].variance
    {
      assert Rank(sorted[i]) <= Rank(sorted[j]);
    }
  }

  // Byte b of pixel (x, y) is selected exactly when the variance around the pixel reaches the threshold, and nothing else
  // is selected.
  lemma SelectedExactly(layout: Layout, data: seq<Byte>, bits: nat, threshold: nat, x: nat, y: nat, b: nat)
    requires bits <= 4 && layout.ValidPacked(|data|) && x < layout.width && y < layout.height && b < 3
    ensures y * layout.stride + x * layout.BytesPerPixel() + b in Positions(layout, data, bits, threshold)
            <==> LocalVariance(layout, data, bits, y, x) >= threshold
  {
    hide StableSort, LocalVariance, Row, Column, ByteOffset, Retained;
    SelectionMeans(layout, data, bits, threshold, 0);
    LogicalPixel(layout, y, x, b);
    var l := y * (3 * layout.width) + 3 * x + b;
    var found := VarianceMap(layout, data, bits);
    var sorted := StableSort(Retained(found, threshold), Rank);
    var at := y * layout.stride + x * layout.BytesPerPixel() + b;
    assert found[l] == Entry(at, LocalVariance(layout, data, bits, y, x));
    if LocalVariance(layout, data, bits, y, x) >= threshold {
      var i :| 0 <= i < |sorted| && sorted[i] == found[l];
      assert Offsets(sorted)[i] == at;
    }
    if at in Offsets(sorted) {
      var i :| 0 <= i < |sorted| && Offsets(sorted)[i] == at;
      SortMember(Retained(found, threshold), Rank, i);
      RetainedFrom(found, threshold);
      OffsetsValid(layout, |data|, layout.Units());
      var m :| 0 <= m < |found| && found[m] == sorted[i];
      assert m == l;
    }
  }

  // p lies inside the frame, at most one step from (x, y) in both directions.
  ghost predicate Near(layout: Layout, x: nat, y: nat, p: Pixel) {
    p.x < layout.width && p.y < layout.height && x <= p.x + 1 && p.x <= x + 1 && y <= p.y + 1 && p.y <= y + 1
  }

  // The first byte of a pixel without its low bits.
  function FirstByte(layout: Layout, data: seq<Byte>, bits: nat, p: Pixel): Byte
    requires bits <= 4 && layout.ValidPacked(|data|) && p.x < layout.width && p.y < layout.height
  {
    PixelInside(layout, |data|, p.x, p.y);
    Masked(data[p.y * layout.stride + p.x * (if layout.format == Bgra8 then 4 else 3)], bits)
  }

  lemma PixelInside(layout: Layout, size: nat, x: nat, y: nat)
    requires layout.ValidPacked(size) && x < layout.width && y < layout.height
    ensures y * layout.stride + x * (if layout.format == Bgra8 then 4 else 3) < size
  {
    ValidExactly(layout, size);
    assert PixelEnd(layout, x, y) <= size;
  }

  datatype Pixel = Pixel(x: nat, y: nat)

  function RowPixels(y: nat, start: nat, end: nat): (pixels: seq<Pixel>)
    ensures |pixels| == if end <= start then 0 else end - start
    decreases end
  {
    if end <= start then [] else RowPixels(y, start, end - 1) + [Pixel(end - 1, y)]
  }

  function WindowPixels(left: nat, right: nat, start: nat, end: nat): (pixels: seq<Pixel>)
    decreases end
  {
    if end <= start then [] else WindowPixels(left, right, start, end - 1) + RowPixels(end - 1, left, right)
  }

  lemma {:induction false} RowPixelAt(y: nat, start: nat, end: nat, i: nat)
    requires i < |RowPixels(y, start, end)|
    ensures RowPixels(y, start, end)[i] == Pixel(start + i, y)
    decreases end
  {
    if i < |RowPixels(y, start, end)| - 1 {
      RowPixelAt(y, start, end - 1, i);
    }
  }

  lemma RowPixelsExactly(y: nat, start: nat, end: nat)
    ensures forall p :: p in RowPixels(y, start, end) <==> start <= p.x < end && p.y == y
    ensures forall i, j :: 0 <= i < j < |RowPixels(y, start, end)| ==> RowPixels(y, start, end)[i] != RowPixels(y, start, end)[j]
  {
    hide RowPixels;
    var row := RowPixels(y, start, end);
    forall i: nat | i < |row|
      ensures row[i] == Pixel(start + i, y)
    {
      RowPixelAt(y, start, end, i);
    }
    forall p
      ensures p in row <==> start <= p.x < end && p.y == y
    {
      if start <= p.x < end && p.y == y {
        assert row[p.x - start] == p;
      }
    }
  }

  lemma {:induction false} WindowSize(left: nat, right: nat, start: nat, end: nat)
    requires left <= right && start <= end
    ensures |WindowPixels(left, right, start, end)| == (end - start) * (right - left)
    decreases end
  {
    if end > start {
      WindowSize(left, right, start, end - 1);
      MulMonotone(end - start, end - start, right - left);
    }
  }

  ghost predicate Distinct(pixels: seq<Pixel>) {
    forall i, j :: 0 <= i < j < |pixels| ==> pixels[i] != pixels[j]
  }

  lemma DistinctJoined(a: seq<Pixel>, b: seq<Pixel>)
    requires Distinct(a) && Distinct(b) && forall p :: p in a ==> p !in b
    ensures Distinct(a + b)
  {
    forall i, j | 0 <= i < j < |a + b|
      ensures (a + b)[i] != (a + b)[j]
    {
      if i < |a| <= j {
        assert a[i] in a && b[j - |a|] in b;
      }
    }
  }

  // The window lists every pixel of its rectangle once.
  lemma {:induction false} WindowPixelsExactly(left: nat, right: nat, start: nat, end: nat)
    ensures forall p :: p in WindowPixels(left, right, start, end) <==> left <= p.x < right && start <= p.y < end
    ensures Distinct(WindowPixels(left, right, start, end))
    decreases end
  {
    hide Distinct, RowPixels;
    if end > start {
      WindowPixelsExactly(left, right, start, end - 1);
      RowPixelsExactly(end - 1, left, right);
      RowDistinct(end - 1, left, right);
      DistinctJoined(WindowPixels(left, right, start, end - 1), RowPixels(end - 1, left, right));
    } else {
      NoneDistinct();
    }
  }

  lemma RowDistinct(y: nat, start: nat, end: nat)
    ensures Distinct(RowPixels(y, start, end))
  {
    RowPixelsExactly(y, start, end);
  }

  lemma NoneDistinct()
    ensures Distinct([])
  {}

  // The cells are the first bytes of the listed pixels.
  lemma {:induction false} RowCellsListed(layout: Layout, data: seq<Byte>, bits: nat, wy: nat, start: nat, end: nat)
    requires bits <= 4 && layout.ValidPacked(|data|) && wy < layout.height && end <= layout.width
    ensures var cells, pixels := RowCells(layout, data, bits, wy, start, end), RowPixels(wy, start, end);
            |cells| == |pixels| && forall i :: 0 <= i < |cells| ==>
              && pixels[i].x < layout.width && pixels[i].y < layout.height
              && cells[i] == FirstByte(layout, data, bits, pixels[i])
    decreases end
  {
    hide Masked;
    if end > start {
      RowCellsListed(layout, data, bits, wy, start, end - 1);
      PixelInside(layout, |data|, end - 1, wy);
    }
  }

  lemma {:induction false} WindowListed(layout: Layout, data: seq<Byte>, bits: nat, x: nat, start: nat, end: nat)
    requires bits <= 4 && layout.ValidPacked(|data|) && end <= layout.height
    ensures var cells := WindowCells(layout, data, bits, x, start, end);
            var pixels := WindowPixels(Before(x), Behind(x, layout.width), start, end);
            |cells| == |pixels| && forall i :: 0 <= i < |cells| ==>
              && pixels[i].x < layout.width && pixels[i].y < layout.height
              && cells[i] == FirstByte(layout, data, bits, pixels[i])
    decreases end
  {
    hide RowCells, FirstByte;
    if end > start {
      WindowListed(layout, data, bits, x, start, end - 1);
      RowCellsListed(layout, data, bits, end - 1, Before(x), Behind(x, layout.width));
    }
  }

  // The variance around a pixel is that of the first bytes of the pixels near it, each once.
  lemma NearWindow(layout: Layout, data: seq<Byte>, bits: nat, x: nat, y: nat)
    returns (pixels: seq<Pixel>, values: seq<Byte>)
    requires bits <= 4 && layout.ValidPacked(|data|) && x < layout.width && y < layout.height
    ensures LocalVariance(layout, data, bits, y, x) == Variance(values)
    ensures |values| == |pixels| <= 9
    ensures forall p :: p in pixels <==> Near(layout, x, y, p)
    ensures Distinct(pixels)
    ensures forall i :: 0 <= i < |pixels| ==>
      Near(layout, x, y, pixels[i]) && values[i] == FirstByte(layout, data, bits, pixels[i])
  {
    hide FirstByte, WindowCells, Variance;
    pixels := WindowPixels(Before(x), Behind(x, layout.width), Before(y), Behind(y, layout.height));
    values := WindowCells(layout, data, bits, x, Before(y), Behind(y, layout.height));
    WindowListed(layout, data, bits, x, Before(y), Behind(y, layout.height));
    WindowPixelsExactly(Before(x), Behind(x, layout.width), Before(y), Behind(y, layout.height));
    WindowSize(Before(x), Behind(x, layout.width), Before(y), Behind(y, layout.height));
    MulMonotone(Behind(y, layout.height) - Before(y), 3, Behind(x, layout.width) - Before(x));
    forall p
      ensures p in pixels <==> Near(layout, x, y, p)
    {}
    assert forall i :: 0 <= i < |pixels| ==> pixels[i] in pixels;
  }

  // Next to an edge: where two pixels near (x, y) differ by d in their first bytes, the colour bytes of (x, y) are
  // selected at every threshold up to d squared over 18, rounded down.
  lemma EdgeSelected(layout: Layout, data: seq<Byte>, bits: nat, threshold: nat, x: nat, y: nat, p: Pixel, q: Pixel, b: nat)
    requires bits <= 4 && layout.ValidPacked(|data|) && x < layout.width && y < layout.height && b < 3
    requires Near(layout, x, y, p) && Near(layout, x, y, q)
    requires var d := FirstByte(layout, data, bits, p) as int - FirstByte(layout, data, bits, q) as int;
             18 * threshold <= d * d
    ensures y * layout.stride + x * layout.BytesPerPixel() + b in Positions(layout, data, bits, threshold)
  {
    hide FirstByte, LocalVariance, Positions, Variance;
    var pixels, values := NearWindow(layout, data, bits, x, y);
    var i :| 0 <= i < |pixels| && pixels[i] == p;
    var j :| 0 <= j < |pixels| && pixels[j] == q;
    VarianceSpread(values, i, j);
    MulMonotone(2 * |values|, 18, Variance(values) + 1);
    SelectedExactly(layout, data, bits, threshold, x, y, b);
  }

  // Away from edges: where all first bytes near (x, y) agree, its colour bytes are selected at threshold 0 only.
  lemma FlatUnselected(layout: Layout, data: seq<Byte>, bits: nat, threshold: nat, x: nat, y: nat, b: nat)
    requires bits <= 4 && layout.ValidPacked(|data|) && x < layout.width && y < layout.height && b < 3
    requires forall p :: Near(layout, x, y, p) ==>
      FirstByte(layout, data, bits, p) == FirstByte(layout, data, bits, Pixel(x, y))
    ensures y * layout.stride + x * layout.BytesPerPixel() + b in Positions(layout, data, bits, threshold) <==> threshold == 0
  {
    hide FirstByte, LocalVariance, Positions, Variance;
    var pixels, values := NearWindow(layout, data, bits, x, y);
    FlatWindow(values, FirstByte(layout, data, bits, Pixel(x, y)));
    SelectedExactly(layout, data, bits, threshold, x, y, b);
  }

  // --- invariance ---------------------------------------------------------------------------

  // Two frames that differ in the low bits only.
  ghost predicate SameHighBits(a: seq<Byte>, b: seq<Byte>, bits: nat)
    requires bits <= 4
  {
    |a| == |b| && forall p :: 0 <= p < |a| ==> Masked(a[p], bits) == Masked(b[p], bits)
  }

  lemma {:induction false} SameRow(layout: Layout, a: seq<Byte>, b: seq<Byte>, bits: nat, wy: nat, start: nat, end: nat)
    requires bits <= 4 && SameHighBits(a, b, bits)
    ensures RowCells(layout, a, bits, wy, start, end) == RowCells(layout, b, bits, wy, start, end)
    decreases end
  {
    hide Masked;
    if end > start {
      SameRow(layout, a, b, bits, wy, start, end - 1);
    }
  }

  lemma {:induction false} SameWindow(layout: Layout, a: seq<Byte>, b: seq<Byte>, bits: nat, x: nat, start: nat,
                                      end: nat)
    requires bits <= 4 && SameHighBits(a, b, bits)
    ensures WindowCells(layout, a, bits, x, start, end) == WindowCells(layout, b, bits, x, start, end)
    decreases end
  {
    hide RowCells, SameHighBits;
    if end > start {
      SameWindow(layout, a, b, bits, x, start, end - 1);
      SameRow(layout, a, b, bits, end - 1, Before(x), Behind(x, layout.width));
    }
  }

  // The selection looks at the high bits only.
  lemma SelectionIgnoresLowBits(layout: Layout, a: seq<Byte>, b: seq<Byte>, bits: nat, threshold: nat)
    requires bits <= 4 && SameHighBits(a, b, bits)
    ensures Positions(layout, a, bits, threshold) == Positions(layout, b, bits, threshold)
  {
    hide WindowCells, SameHighBits, ByteOffset, Row, Column, StableSort, Variance;
    forall l | 0 <= l < layout.Units()
      ensures EntryAt(layout, a, bits, l) == EntryAt(layout, b, bits, l)
    {
      var y := Row(layout, l);
      SameWindow(layout, a, b, bits, Column(layout, l) / 3, Before(y), Behind(y, layout.height));
    }
    assert VarianceMap(layout, a, bits) == VarianceMap(layout, b, bits);
  }

  // Whatever is embedded, wherever, leaves the high bits.
  lemma EmbeddedSameHighBits(data: seq<Byte>, slot: nat -> nat, stream: seq<bool>, bits: nat, count: nat)
    requires bits <= 4 && InBounds(slot, count, |data|)
    ensures SameHighBits(data, Embedded(data, slot, stream, bits, count), bits)
  {
    hide BitAt, Masked, Embedded;
    var after := Embedded(data, slot, stream, bits, count);
    forall p | 0 <= p < |data|
      ensures Masked(data[p], bits) == Masked(after[p], bits)
    {
      forall s {:trigger BitAt(Masked(data[p], bits), s)} | 0 <= s < 8
        ensures BitAt(Masked(data[p], bits), s) == BitAt(Masked(after[p], bits), s)
      {
        MaskedBits(data[p], bits, s);
        MaskedBits(after[p], bits, s);
        if s >= bits {
          EmbeddedHighBits(data, slot, stream, bits, count, p, s);
        }
      }
      ByteExtensional(Masked(data[p], bits), Masked(after[p], bits));
    }
  }
}
