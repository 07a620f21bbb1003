/** The keyed placement schedules of placement.rs. */
module Placement {
  import opened Results
  import opened Arithmetic
  import opened GaloisField
  import opened CycleWalking
  import opened PacketCarrier

  const ROUNDS := 8

  // --- bitwise exclusive or on natural numbers --------------------------------------------

  function Xor(a: nat, b: nat): nat {
    if a == 0 && b == 0 then 0
    else (if a % 2 == b % 2 then 0 else 1) + 2 * Xor(a / 2, b / 2)
  }

  lemma {:induction false} XorTwice(a: nat, b: nat)
    ensures Xor(Xor(a, b), b) == a
  {
    if a != 0 || b != 0 {
      XorTwice(a / 2, b / 2);
    }
  }

  lemma {:induction false} XorBound(a: nat, b: nat, k: nat)
    requires a < Pow2(k) && b < Pow2(k)
    ensures Xor(a, b) < Pow2(k)
    decreases k
  {
    if k > 0 && (a != 0 || b != 0) {
      XorBound(a / 2, b / 2, k - 1);
    }
  }

  // Binary digit k of n.
  function Digit(n: nat, k: nat): nat {
    n / Pow2(k) % 2
  }

  lemma LowestDigit(n: nat)
    ensures Digit(n, 0) == n % 2
  {
    hide Pow2;
    PowNone();
  }

  lemma NextDigit(n: nat, k: nat)
    ensures Digit(n, k + 1) == Digit(n / 2, k)
  {
    hide Pow2;
    Pow2Once(k);
    DivideTwice(n, 2, Pow2(k));
  }

  lemma XorParts(a: nat, b: nat)
    ensures Xor(a, b) % 2 == (if a % 2 == b % 2 then 0 else 1) && Xor(a, b) / 2 == Xor(a / 2, b / 2)
  {}

  // A digit of the result is set where exactly one of the two numbers has it.
  lemma {:induction false} XorDigit(a: nat, b: nat, k: nat)
    ensures Digit(Xor(a, b), k) == if Digit(a, k) == Digit(b, k) then 0 else 1
    decreases k
  {
    hide Xor, Digit;
    XorParts(a, b);
    if k == 0 {
      LowestDigit(a);
      LowestDigit(b);
      LowestDigit(Xor(a, b));
    } else {
      NextDigit(a, k - 1);
      NextDigit(b, k - 1);
      NextDigit(Xor(a, b), k - 1);
      XorDigit(a / 2, b / 2, k - 1);
    }
  }

  // Number of binary digits of n.
  function BitLength(n: nat): nat {
    if n == 0 then 0 else 1 + BitLength(n / 2)
  }

  lemma {:induction false} BitLengthBound(n: nat)
    ensures n < Pow2(BitLength(n))
  {
    if n > 0 {
      BitLengthBound(n / 2);
    }
  }

  function CeilLog2(value: nat): nat {
    if value <= 1 then 1 else BitLength(value - 1)
  }

  // --- the Feistel network --------------------------------------------------------------

  // Halves of the word; the round function is any function of round and right half.
  datatype Halves = Halves(left: nat, right: nat)

  ghost predicate Narrow(h: Halves, half: nat) {
    h.left < Pow2(half) && h.right < Pow2(half)
  }

  function Split(x: nat, half: nat): Halves {
    Halves(x / Pow2(half) % Pow2(half), x % Pow2(half))
  }

  function Join(h: Halves, half: nat): nat {
    h.left * Pow2(half) + h.right
  }

  function Round(roundFn: (nat, nat) -> nat, round: nat, h: Halves, half: nat): Halves {
    Halves(h.right, Xor(h.left, roundFn(round, h.right) % Pow2(half)))
  }

  function Unround(roundFn: (nat, nat) -> nat, round: nat, h: Halves, half: nat): Halves {
    Halves(Xor(h.right, roundFn(round, h.left) % Pow2(half)), h.left)
  }

  function Forward(roundFn: (nat, nat) -> nat, rounds: nat, h: Halves, half: nat): Halves {
    if rounds == 0 then h else Round(roundFn, rounds - 1, Forward(roundFn, rounds - 1, h, half), half)
  }

  function Backward(roundFn: (nat, nat) -> nat, rounds: nat, h: Halves, half: nat): Halves
    decreases rounds
  {
    if rounds == 0 then h else Backward(roundFn, rounds - 1, Unround(roundFn, rounds - 1, h, half), half)
  }

  lemma RoundUndone(roundFn: (nat, nat) -> nat, round: nat, h: Halves, half: nat)
    requires Narrow(h, half)
    ensures Narrow(Round(roundFn, round, h, half), half) && Narrow(Unround(roundFn, round, h, half), half)
    ensures Unround(roundFn, round, Round(roundFn, round, h, half), half) == h
    ensures Round(roundFn, round, Unround(roundFn, round, h, half), half) == h
  {
    hide Xor, Pow2;
    var f, g := roundFn(round, h.right) % Pow2(half), roundFn(round, h.left) % Pow2(half);
    XorBound(h.left, f, half);
    XorBound(h.right, g, half);
    XorTwice(h.left, f);
    XorTwice(h.right, g);
  }

  lemma {:induction false} RoundsUndone(roundFn: (nat, nat) -> nat, rounds: nat, h: Halves, half: nat)
    requires Narrow(h, half)
    ensures Narrow(Forward(roundFn, rounds, h, half), half)
    ensures Backward(roundFn, rounds, Forward(roundFn, rounds, h, half), half) == h
  {
    hide Round, Unround, Narrow;
    if rounds > 0 {
      RoundsUndone(roundFn, rounds - 1, h, half);
      RoundUndone(roundFn, rounds - 1, Forward(roundFn, rounds - 1, h, half), half);
    }
  }

  lemma {:induction false} RoundsRedone(roundFn: (nat, nat) -> nat, rounds: nat, h: Halves, half: nat)
    requires Narrow(h, half)
    ensures Narrow(Backward(roundFn, rounds, h, half), half)
    ensures Forward(roundFn, rounds, Backward(roundFn, rounds, h, half), half) == h
    decreases rounds
  {
    hide Round, Unround, Narrow;
    if rounds > 0 {
      RoundUndone(roundFn, rounds - 1, h, half);
      RoundsRedone(roundFn, rounds - 1, Unround(roundFn, rounds - 1, h, half), half);
    }
  }

  lemma SplitJoin(h: Halves, half: nat)
    requires Narrow(h, half)
    ensures Split(Join(h, half), half) == h && Join(h, half) < Pow2(half) * Pow2(half)
  {
    hide Pow2;
    TwoDigits(h.left, h.right, Pow2(half));
  }

  lemma JoinSplit(x: nat, half: nat)
    requires x < Pow2(half) * Pow2(half)
    ensures Narrow(Split(x, half), half) && Join(Split(x, half), half) == x
  {
    hide Pow2;
    DigitsOf(x, Pow2(half));
  }

  function Feistel(roundFn: (nat, nat) -> nat, half: nat): nat -> nat {
    (x: nat) => Join(Forward(roundFn, ROUNDS, Split(x, half), half), half)
  }

  function FeistelInverse(roundFn: (nat, nat) -> nat, half: nat): nat -> nat {
    (x: nat) => Join(Backward(roundFn, ROUNDS, Split(x, half), half), half)
  }

  // A trace of the network: the halves of the word, before and after each of eight rounds.
  ghost predicate Traced(roundFn: (nat, nat) -> nat, half: nat, x: nat, left: seq<nat>, right: seq<nat>) {
    && |left| == |right| == 9
    && left[0] == x / Pow2(half) % Pow2(half) && right[0] == x % Pow2(half)
    && forall i: nat :: i < 8 ==>
         left[i + 1] == right[i] && right[i + 1] == Xor(left[i], roundFn(i, right[i]) % Pow2(half))
  }

  // What the network computes is where its trace ends: eight rounds, numbered from 0.
  lemma FeistelTrace(roundFn: (nat, nat) -> nat, half: nat, x: nat, left: seq<nat>, right: seq<nat>)
    requires Traced(roundFn, half, x, left, right)
    ensures Feistel(roundFn, half)(x) == left[8] * Pow2(half) + right[8]
  {
    hide Pow2, Xor;
    TraceReaches(roundFn, half, x, left, right, 8);
  }

  lemma {:induction false} TraceReaches(roundFn: (nat, nat) -> nat, half: nat, x: nat, left: seq<nat>, right: seq<nat>,
                                        i: nat)
    requires Traced(roundFn, half, x, left, right) && i <= 8
    ensures Forward(roundFn, i, Split(x, half), half) == Halves(left[i], right[i])
  {
    hide Pow2, Xor;
    if i > 0 {
      TraceReaches(roundFn, half, x, left, right, i - 1);
    }
  }

  // Whatever the round function, the network is a permutation and its inverse undoes it.
  lemma FeistelInverses(roundFn: (nat, nat) -> nat, half: nat)
    ensures Inverses(Feistel(roundFn, half), FeistelInverse(roundFn, half), Pow2(half) * Pow2(half))
  {
    hide Pow2, Forward, Backward, Split, Join, Narrow;
    forall x: nat | x < Pow2(half) * Pow2(half)
      ensures Feistel(roundFn, half)(x) < Pow2(half) * Pow2(half)
      ensures FeistelInverse(roundFn, half)(x) < Pow2(half) * Pow2(half)
      ensures FeistelInverse(roundFn, half)(Feistel(roundFn, half)(x)) == x
      ensures Feistel(roundFn, half)(FeistelInverse(roundFn, half)(x)) == x
    {
      JoinSplit(x, half);
      var h := Split(x, half);
      RoundsUndone(roundFn, ROUNDS, h, half);
      RoundsRedone(roundFn, ROUNDS, h, half);
      SplitJoin(Forward(roundFn, ROUNDS, h, half), half);
      SplitJoin(Backward(roundFn, ROUNDS, h, half), half);
    }
  }

  // --- the keyed permutation ------------------------------------------------------------

  // Half the even bit width that the constructor chooses for a length.
  function HalfWidth(len: nat): nat {
    var bits := if CeilLog2(len) < 2 then 2 else CeilLog2(len);
    (if bits % 2 == 0 then bits else bits + 1) / 2
  }

  function Domain(len: nat): nat {
    Pow2(HalfWidth(len)) * Pow2(HalfWidth(len))
  }

  lemma DomainCovers(len: nat)
    ensures len <= Domain(len)
  {
    var h := HalfWidth(len);
    Pow2Sum(h, h);
    if len > 1 {
      BitLengthBound(len - 1);
    }
    Pow2Monotone(CeilLog2(len), h + h);
  }

  lemma {:induction false} BitLengthLeast(n: nat)
    requires n > 0
    ensures Pow2(BitLength(n) - 1) <= n
  {
    if n > 1 {
      BitLengthLeast(n / 2);
    }
  }

  lemma Pow2Four(k: nat)
    ensures Pow2(k + 2) == 4 * Pow2(k) && Pow2(2) == 4 && Pow2(1) == 2
  {
    assert Pow2(k + 2) == 2 * Pow2(k + 1);
  }

  lemma WidthBounds(len: nat)
    ensures var h := HalfWidth(len); h >= 1 && (h > 1 ==> len > 1 && BitLength(len - 1) >= 2 * h - 1)
  {
    hide BitLength;
  }

  // The network works on the least power of four that covers the range, four at least.
  lemma DomainIsLeast(len: nat)
    ensures exists k: nat :: k > 0 && Domain(len) == Pow2(2 * k)
    ensures len <= Domain(len) && Domain(len) >= 4 && (Domain(len) > 4 ==> Domain(len) < 4 * len)
  {
    hide Pow2, BitLength, HalfWidth, CeilLog2;
    var h := HalfWidth(len);
    WidthBounds(len);
    DomainCovers(len);
    Pow2Sum(h, h);
    assert Domain(len) == Pow2(2 * h);
    Pow2Four(0);
    Pow2Monotone(2, 2 * h);
    if h > 1 {
      BitLengthLeast(len - 1);
      Pow2Four(2 * h - 2);
      Pow2Monotone(2 * h - 2, BitLength(len - 1) - 1);
    } else {
      PowNone();
    }
  }

  lemma FeistelPermutes(roundFn: (nat, nat) -> nat, len: nat)
    ensures Inverses(Feistel(roundFn, HalfWidth(len)), FeistelInverse(roundFn, HalfWidth(len)), Domain(len))
    ensures Permutes(Feistel(roundFn, HalfWidth(len)), Domain(len)) && Permutes(FeistelInverse(roundFn, HalfWidth(len)), Domain(len))
    ensures len <= Domain(len)
  {
    hide Feistel, FeistelInverse, Inverses, Permutes;
    FeistelInverses(roundFn, HalfWidth(len));
    InversesPermute(Feistel(roundFn, HalfWidth(len)), FeistelInverse(roundFn, HalfWidth(len)), Domain(len));
    DomainCovers(len);
  }

  // Where the keyed permutation sends index i, and which index it sends to y.
  ghost function PermutedIndex(roundFn: (nat, nat) -> nat, len: nat, i: nat): (y: nat)
    requires i < len
    ensures y < len
  {
    FeistelPermutes(roundFn, len);
    Walk(Feistel(roundFn, HalfWidth(len)), Domain(len), len, i)
  }

  ghost function UnpermutedIndex(roundFn: (nat, nat) -> nat, len: nat, y: nat): (i: nat)
    requires y < len
    ensures i < len
  {
    FeistelPermutes(roundFn, len);
    Walk(FeistelInverse(roundFn, HalfWidth(len)), Domain(len), len, y)
  }

  // Every index below len is hit exactly once, and the inverse finds it again.
  lemma PermutesAll(roundFn: (nat, nat) -> nat, len: nat)
    ensures forall i: nat, j: nat :: i < len && j < len && PermutedIndex(roundFn, len, i) == PermutedIndex(roundFn, len, j) ==> i == j
    ensures forall i: nat :: i < len ==> UnpermutedIndex(roundFn, len, PermutedIndex(roundFn, len, i)) == i
    ensures forall y: nat :: y < len ==> PermutedIndex(roundFn, len, UnpermutedIndex(roundFn, len, y)) == y
  {
    hide Walk, Feistel, FeistelInverse;
    FeistelPermutes(roundFn, len);
    var f, g, n := Feistel(roundFn, HalfWidth(len)), FeistelInverse(roundFn, HalfWidth(len)), Domain(len);
    forall i: nat, j: nat | i < len && j < len && PermutedIndex(roundFn, len, i) == PermutedIndex(roundFn, len, j)
      ensures i == j
    {
      WalkInjective(f, n, len, i, j);
    }
    forall i: nat | i < len
      ensures UnpermutedIndex(roundFn, len, PermutedIndex(roundFn, len, i)) == i
      ensures PermutedIndex(roundFn, len, UnpermutedIndex(roundFn, len, i)) == i
    {
      WalkBack(f, g, n, len, i);
      InversesSymmetric(f, g, n);
      WalkBack(g, f, n, len, i);
    }
  }

  // Index i is sent to the first place below len that its walk through the network comes to.
  lemma PermutedWalk(roundFn: (nat, nat) -> nat, len: nat, i: nat) returns (walk: seq<nat>)
    requires i < len
    ensures |walk| >= 2 && walk[0] == i && walk[|walk| - 1] == PermutedIndex(roundFn, len, i) < len
    ensures forall j :: 0 <= j < |walk| - 1 ==> walk[j + 1] == Feistel(roundFn, HalfWidth(len))(walk[j])
    ensures forall j :: 1 <= j < |walk| - 1 ==> walk[j] >= len
  {
    hide Feistel, FeistelInverse, Iterate, Permutes, HalfWidth;
    FeistelPermutes(roundFn, len);
    var f := Feistel(roundFn, HalfWidth(len));
    var k := ReturnTime(f, Domain(len), len, i);
    walk := seq(k + 1, j requires 0 <= j => Iterate(f, i, j));
    IterateNone(f, i);
    forall j: nat | j < k
      ensures walk[j + 1] == f(walk[j])
    {
      IterateNext(f, i, j);
    }
  }

  // The object of placement.rs; its key and label act only through the round function.
  class KeyedPermutation {
    const roundFn: (nat, nat) -> nat
    const len: nat
    const half: nat

    ghost predicate Valid() {
      len > 0 && half == HalfWidth(len)
    }

    constructor (len: nat, roundFn: (nat, nat) -> nat)
      requires len > 0
      ensures Valid() && this.len == len && this.roundFn == roundFn
    {
      this.len := len;
      this.roundFn := roundFn;
      this.half := HalfWidth(len);
    }

    method Permute(i: nat) returns (y: nat)
      requires Valid() && i < len
      ensures y == PermutedIndex(roundFn, len, i)
    {
      FeistelPermutes(roundFn, len);
      var f := Feistel(roundFn, half);
      y := WalkLoop(f, Domain(len), len, i);
    }

    method InversePermute(y: nat) returns (i: nat)
      requires Valid() && y < len
      ensures i == UnpermutedIndex(roundFn, len, y)
    {
      FeistelPermutes(roundFn, len);
      var g := FeistelInverse(roundFn, half);
      i := WalkLoop(g, Domain(len), len, y);
    }
  }

  // --- labels -----------------------------------------------------------------------------

  const LABEL_SIZE := 16

  datatype PlacementError = EmptyRange | InvalidLabel

  predicate ValidLabel(name: seq<Byte>) {
    0 < |name| <= LABEL_SIZE && name[|name| - 1] != 0
  }

  // The label as the round function sees it, filled up with zero bytes.
  function PaddedLabel(name: seq<Byte>): (padded: seq<Byte>)
    requires |name| <= LABEL_SIZE
    ensures |padded| == LABEL_SIZE
  {
    name + Zeros(LABEL_SIZE - |name|)
  }

  // Sixteen bytes: the label, then zeros.
  lemma PaddedBytes(name: seq<Byte>, i: nat)
    requires ValidLabel(name) && i < 16
    ensures |PaddedLabel(name)| == 16 && PaddedLabel(name)[i] == if i < |name| then name[i] else 0
  {}

  lemma PaddedTail(name: seq<Byte>, i: nat)
    requires |name| <= i < LABEL_SIZE
    ensures PaddedLabel(name)[i] == 0
  {}

  // Without a zero byte at their end, different labels stay different when padded.
  lemma PaddingInjective(a: seq<Byte>, b: seq<Byte>)
    requires ValidLabel(a) && ValidLabel(b) && PaddedLabel(a) == PaddedLabel(b)
    ensures a == b
  {
    hide Zeros;
    var padded := PaddedLabel(a);
    var m, n := |a|, |b|;
    if m < n {
      PaddedTail(a, n - 1);
    } else if n < m {
      PaddedTail(b, m - 1);
    } else {
      assert a == padded[..m] && b == padded[..n];
    }
  }

  // Construction from key and label, through the family of round functions that they select.
  method TryNew(len: nat, key: seq<Byte>, name: seq<Byte>, family: (seq<Byte>, seq<Byte>) -> ((nat, nat) -> nat))
    returns (r: Result<KeyedPermutation, PlacementError>)
    ensures len == 0 ==> r == Err(EmptyRange)
    ensures len > 0 ==> (r == Err(InvalidLabel) <==> |name| == 0 || |name| > 16 || name[|name| - 1] == 0)
    ensures r.Ok? <==> len > 0 && ValidLabel(name)
    ensures r.Ok? ==> r.value.Valid() && r.value.len == len && r.value.roundFn == family(key, PaddedLabel(name))
  {
    if len == 0 {
      return Err(EmptyRange);
    }
    if !ValidLabel(name) {
      return Err(InvalidLabel);
    }
    var padded := Zeros(LABEL_SIZE);
    padded := name + padded[|name|..];
    assert padded == PaddedLabel(name);
    var permutation := new KeyedPermutation(len, family(key, padded));
    r := Ok(permutation);
  }

  lemma InversesSymmetric(f: nat -> nat, g: nat -> nat, n: nat)
    requires Inverses(f, g, n)
    ensures Inverses(g, f, n)
  {}

  // The loop of permute: step until the value is below len.
  method WalkLoop(f: nat -> nat, ghost n: nat, len: nat, x: nat) returns (y: nat)
    requires Permutes(f, n) && x < len <= n
    ensures y == Walk(f, n, len, x)
  {
    ghost var k := 0;
    ghost var last := ReturnTime(f, n, len, x);
    y := x;
    while true
      invariant k < last && y == Iterate(f, x, k)
      decreases last - k
    {
      y := f(y);
      k := k + 1;
      assert y == Iterate(f, x, k);
      if y < len {
        assert k == last;
        return;
      }
    }
  }

  // --- the interleaved schedule -----------------------------------------------------------

  function Gcd(a: nat, b: nat): nat
    decreases b
  {
    if b == 0 then a else Gcd(b, a % b)
  }

  // Bezout: the greatest common divisor is a combination of its arguments.
  lemma {:induction false} Bezout(a: nat, b: nat) returns (s: int, t: int)
    ensures s * a + t * b == Gcd(a, b)
    decreases b
  {
    if b == 0 {
      s, t := 1, 0;
    } else {
      var u, v := Bezout(b, a % b);
      s, t := v, u - v * (a / b);
      BezoutStep(a, b, u, v);
    }
  }

  ghost predicate Divides(g: nat, a: nat) {
    exists k: nat :: a == g * k
  }

  lemma DividesAt(g: nat, a: nat, k: nat)
    requires a == g * k
    ensures Divides(g, a)
  {}

  lemma DividesSum(g: nat, q: nat, b: nat, r: nat)
    requires Divides(g, b) && Divides(g, r)
    ensures Divides(g, q * b + r)
  {
    var m: nat :| b == g * m;
    var n: nat :| r == g * n;
    calc {
      q * b + r;
      q * (g * m) + g * n;
      g * (q * m + n);
    }
    DividesAt(g, q * b + r, q * m + n);
  }

  // And it divides both.
  lemma {:induction false} GcdDivides(a: nat, b: nat)
    ensures Divides(Gcd(a, b), a) && Divides(Gcd(a, b), b)
    decreases b
  {
    hide Divides;
    if b == 0 {
      DividesAt(a, a, 1);
      DividesAt(a, 0, 0);
    } else {
      GcdDivides(b, a % b);
      DividesSum(Gcd(b, a % b), a / b, b, a % b);
      DivMod(a, b);
    }
  }

  lemma BezoutStep(a: nat, b: nat, u: int, v: int)
    requires b > 0
    ensures v * a + (u - v * (a / b)) * b == u * b + v * (a % b)
  {
    var q, r := a / b, a % b;
    assert a == q * b + r;
    calc {
      v * a + (u - v * q) * b;
      v * (q * b + r) + (u - v * q) * b;
      v * (q * b) + v * r + u * b - (v * q) * b;
      u * b + v * r;
    }
  }

  lemma {:induction false} GcdOne(b: nat)
    ensures Gcd(1, b) == 1
  {
    if b > 1 {
      SmallMod(1, b);
      assert Gcd(1, b) == Gcd(b, 1) == Gcd(1, b % 1);
    }
  }

  // A multiple of n smaller than n in size is zero.
  lemma BoundedMultiple(d: int, k: int, n: nat)
    requires d == k * n && -d < n && d < n
    ensures d == 0
  {
    if k >= 1 {
      MulMonotone(1, k, n);
    } else if k <= -1 {
      MulMonotone(1, -k, n);
    }
  }

  lemma CoprimeCancels(d: int, stride: nat, n: nat, k: int)
    requires Gcd(stride, n) == 1 && d * stride == k * n && -d < n && d < n
    ensures d == 0
  {
    var s, t := Bezout(stride, n);
    calc {
      d;
      d * (s * stride + t * n);
      s * (d * stride) + (d * t) * n;
      s * (k * n) + (d * t) * n;
      (s * k + d * t) * n;
    }
    BoundedMultiple(d, s * k + d * t, n);
  }

  // So the test of the scan is coprimality: no number above 1 divides both.
  lemma CoprimeExactly(a: nat, b: nat)
    requires a > 0 || b > 0
    ensures Gcd(a, b) == 1 <==> forall d: nat :: Divides(d, a) && Divides(d, b) ==> d == 1
  {
    GcdDivides(a, b);
    if Gcd(a, b) == 1 {
      var s, t := Bezout(a, b);
      forall d: nat | Divides(d, a) && Divides(d, b)
        ensures d == 1
      {
        var m: nat :| a == d * m;
        var n: nat :| b == d * n;
        UnitDivisor(d, s, t, m, n);
      }
    }
  }

  lemma UnitDivisor(d: nat, s: int, t: int, m: nat, n: nat)
    requires s * (d * m) + t * (d * n) == 1
    ensures d == 1
  {
    var k := s * m + t * n;
    calc {
      s * (d * m) + t * (d * n);
      d * k;
    }
    if d >= 2 {
      NoUnit(d, k);
    }
  }

  lemma NoUnit(d: nat, k: int)
    requires d >= 2
    ensures d * k != 1
  {
    MulMonotone(1, if k >= 1 then k else 1, d);
    MulMonotone(0, if k < 0 then -k else 0, d);
  }

  lemma GcdBefore(len: nat)
    requires len > 1
    ensures Gcd(len - 1, len) == 1
  {
    SmallMod(len - 1, len);
    assert len % (len - 1) == 1 % (len - 1) by {
      if len > 2 {
        DivModUnique(len, len - 1, 1, 1);
        SmallMod(1, len - 1);
      }
    }
    GcdOne(len - 1);
    if len == 2 {
      assert Gcd(1, 2) == 1 by {
        GcdOne(2);
      }
    } else {
      assert Gcd(len - 1, len) == Gcd(len, len - 1) == Gcd(len - 1, 1) == Gcd(1, 0);
    }
  }

  function StrideStart(len: nat, rawStride: nat): nat
    requires len > 0
  {
    if len == 1 then 1 else 1 + rawStride % (len - 1)
  }

  class InterleavedSchedule {
    const len: nat
    const stride: nat
    const phase: nat

    predicate Valid() {
      len > 0 ==> Gcd(stride, len) == 1
    }

    // The stride is the first number from the derived start on that is coprime with the length; the scan
    // never wraps, because the length minus one is coprime.
    constructor (len: nat, rawStride: nat, rawPhase: nat)
      ensures Valid() && this.len == len
      ensures len == 0 ==> stride == 1 && phase == 0
      ensures len == 1 ==> stride == 1
      ensures len > 1 ==> 1 + rawStride % (len - 1) <= stride < len
      ensures len > 0 ==> forall c :: StrideStart(len, rawStride) <= c < stride ==> Gcd(c, len) != 1
      ensures len > 0 ==> phase == rawPhase % len
    {
      this.len := len;
      if len == 0 {
        stride, phase := 1, 0;
      } else {
        var candidate := StrideStart(len, rawStride);
        GcdOne(len);
        if len > 1 {
          GcdBefore(len);
        }
        while Gcd(candidate, len) != 1
          invariant StrideStart(len, rawStride) <= candidate
          invariant if len == 1 then candidate == 1 else candidate < len
          invariant forall c :: StrideStart(len, rawStride) <= c < candidate ==> Gcd(c, len) != 1
          decreases len - candidate
        {
          candidate := if candidate + 1 == len then 1 else candidate + 1;
        }
        stride := candidate;
        phase := if len == 1 then 0 else rawPhase % len;
      }
    }

    function Slot(logical: nat): nat {
      if len == 0 then 0 else (logical * stride + phase) % len
    }

    // Unit i goes to i times the stride, shifted by the phase, around the range.
    lemma SlotSteps(i: nat)
      requires len > 0 && Valid()
      ensures Slot(0) == phase % len && Slot(i + 1) == (Slot(i) + stride) % len
    {
      var a := i * stride + phase;
      assert (i + 1) * stride + phase == a + stride;
      DivMod(a, len);
      DivMod(a % len + stride, len);
      var q := a / len + (a % len + stride) / len;
      assert q * len == (a / len) * len + ((a % len + stride) / len) * len;
      DivModUnique(a + stride, len, q, (a % len + stride) % len);
    }

    // A coprime stride visits every unit exactly once.
    lemma SlotsDistinct()
      requires Valid()
      ensures forall i: nat :: i < len ==> Slot(i) < len
      ensures forall i: nat, j: nat :: i < j < len ==> Slot(i) != Slot(j)
    {
      forall i: nat, j: nat | i < j < len
        ensures Slot(i) != Slot(j)
      {
        if Slot(i) == Slot(j) {
          var a, b := i * stride + phase, j * stride + phase;
          DivMod(a, len);
          DivMod(b, len);
          assert (j - i) * stride == b - a;
          assert b - a == (b / len - a / len) * len;
          CoprimeCancels(j - i, stride, len, b / len - a / len);
        }
      }
    }
  }

  // --- the schedules the keyed carriers use -------------------------------------------------

  // The schedule that a keyed permutation of len units stands for.
  ghost function PermutationSlots(roundFn: (nat, nat) -> nat, len: nat): nat -> nat {
    (i: nat) => if i < len then PermutedIndex(roundFn, len, i) else 0
  }

  // Both schedules meet what the carriers of carrier.rs and lsb_audio.rs rely on.
  lemma PermutationIsSchedule(roundFn: (nat, nat) -> nat, len: nat)
    ensures Schedule(PermutationSlots(roundFn, len), len)
  {
    hide PermutedIndex, UnpermutedIndex;
    PermutesAll(roundFn, len);
  }

  lemma InterleavedIsSchedule(s: InterleavedSchedule, slot: nat -> nat)
    requires s.Valid() && forall i: nat :: i < s.len ==> slot(i) == s.Slot(i)
    ensures Schedule(slot, s.len)
  {
    s.SlotsDistinct();
  }
}
