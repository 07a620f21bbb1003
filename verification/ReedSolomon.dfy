/** The Reed-Solomon codec of error_correction.rs. */
module ReedSolomon {
  import opened Results
  import opened GaloisField
  import opened FieldPowers
  import opened GfArithmetic
  import opened Polynomials
  import opened LinearSystems
  import opened GaussJordan
  import opened PolynomialDivision
  import opened Interpolation
  import opened KeyEquations

  const MAX_PARITY_COUNT := 16

  datatype CodecError =
    | ParityTooHigh
    | CodewordTooLong
    | EncodedTooShort
    | NotEnoughSymbols
    | SystemFailed(solve: SolveError)
    | DivisionFailed(division: DivisionError)
    | Uncorrectable

  // --- the rows of the Berlekamp-Welch system ---------------------------------------

  function Powers(c: Byte, x: Byte, n: nat): (row: Row)
    ensures |row| == n
  {
    seq(n, j requires 0 <= j < n => Mul(c, Pow(x, j)))
  }

  lemma {:induction false} DotPowers(c: Byte, x: Byte, rest: Row, s: seq<Byte>)
    ensures Dot(Powers(c, x, |s|) + rest, s) == Mul(c, Eval(s, x))
    decreases |s|
  {
    hide Add, Mul, Pow;
    var row := Powers(c, x, |s|) + rest;
    if |s| == 0 {
      MulZero(c);
    } else {
      PowOnce(x, 0);
      MulOne(c);
      forall j | 0 <= j < |s| - 1
        ensures row[1..][j] == (Powers(Mul(c, x), x, |s| - 1) + rest)[j]
      {
        PowOnce(x, j);
        MulAssociates(c, x, Pow(x, j));
      }
      assert row[1..] == Powers(Mul(c, x), x, |s| - 1) + rest;
      DotPowers(Mul(c, x), x, rest, s[1..]);
      DotPowersStep(c, x, s[0], Eval(s[1..], x));
    }
  }

  lemma DotPowersStep(c: Byte, x: Byte, s0: Byte, e: Byte)
    ensures Add(Mul(c, s0), Mul(Mul(c, x), e)) == Mul(c, Add(Mul(e, x), s0))
  {
    hide *;
    MulAssociates(c, x, e);
    MulCommutes(x, e);
    MulDistributes(c, Mul(e, x), s0);
    AddCommutes(Mul(c, s0), Mul(c, Mul(e, x)));
  }

  lemma {:induction false} DotAppend(front: Row, back: Row, s: seq<Byte>)
    requires |front| <= |s| <= |front| + |back|
    ensures Dot(front + back, s) == Add(Dot(front, s[..|front|]), Dot(back, s[|front|..]))
  {
    hide Add, Mul;
    if |front| == 0 {
      assert front + back == back && s[0..] == s;
      AddNothing(Dot(back, s));
    } else {
      assert (front + back)[1..] == front[1..] + back;
      DotAppend(front[1..], back, s[1..]);
      assert s[1..][..|front| - 1] == s[..|front|][1..];
      assert s[1..][|front| - 1..] == s[|front|..];
      AddAssociates(Mul(front[0], s[0]), Dot(front[1..], s[..|front|][1..]), Dot(back, s[|front|..]));
    }
  }

  // Q's powers, then y times E's powers, then y x^e.
  function SystemRow(y: Byte, x: Byte, q: nat, e: nat): (row: Row)
    ensures |row| == q + e + 1
  {
    Powers(1, x, q) + (Powers(y, x, e) + [Mul(y, Pow(x, e))])
  }

  lemma SystemRowMeans(y: Byte, x: Byte, q: nat, e: nat, s: seq<Byte>)
    requires |s| == q + e
    ensures RowHolds(SystemRow(y, x, q, e), s) <==> Eval(s[..q], x) == Mul(y, Eval(s[q..] + [1], x))
  {
    hide Add, Mul, Pow, Dot, Eval, Powers;
    var back := Powers(y, x, e) + [Mul(y, Pow(x, e))];
    DotAppend(Powers(1, x, q), back, s);
    DotPowers(1, x, [], s[..q]);
    assert Powers(1, x, q) + [] == Powers(1, x, q);
    MulOne(Eval(s[..q], x));
    DotPowers(y, x, [Mul(y, Pow(x, e))], s[q..]);
    EvalAppend(s[q..], 1, x);
    MulOne(Pow(x, e));
    MulDistributes(y, Eval(s[q..], x), Pow(x, e));
    AddMoves(Eval(s[..q], x), Mul(y, Eval(s[q..], x)), Mul(y, Pow(x, e)));
  }

  lemma AddMoves(a: Byte, b: Byte, c: Byte)
    ensures Add(a, b) == c <==> a == Add(b, c)
  {
    hide Add;
    AddTwice(a, b);
    AddCommutes(b, c);
    AddTwice(c, b);
  }

  ghost predicate IsSystem(a: Matrix, received: seq<Byte>, q: nat, e: nat) {
    |a| == |received| && forall i :: 0 <= i < |a| ==> a[i] == SystemRow(received[i], Point(i), q, e)
  }

  // s lists the coefficients of Q and then those of E without its leading one.
  ghost predicate SolvesKey(received: seq<Byte>, q: nat, e: nat, s: seq<Byte>) {
    |s| == q + e && KeyEquation(received, s[..q], s[q..] + [1])
  }

  lemma SystemShaped(a: Matrix, received: seq<Byte>, q: nat, e: nat)
    requires IsSystem(a, received, q, e)
    ensures Shaped(a, q + e)
  {
    hide SystemRow;
  }

  lemma SystemMeans(a: Matrix, received: seq<Byte>, q: nat, e: nat, s: seq<Byte>)
    requires IsSystem(a, received, q, e) && |s| == q + e && Shaped(a, q + e)
    ensures Solves(a, s) <==> SolvesKey(received, q, e, s)
  {
    hide RowHolds, SystemRow, Eval, Point, Mul;
    forall i | 0 <= i < |a|
      ensures RowHolds(a[i], s) <==> Eval(s[..q], Point(i)) == Mul(received[i], Eval(s[q..] + [1], Point(i)))
    {
      SystemRowMeans(received[i], Point(i), q, e, s);
    }
  }

  // The coefficients of m E and of E without its leading one.
  function TrueSolution(m: Poly, errors: seq<nat>): (s: seq<Byte>)
    ensures |s| == |m| + 2 * |errors|
  {
    Product(m, Locator(errors)) + Locator(errors)[..|errors|]
  }

  lemma TrueSolutionParts(m: Poly, errors: seq<nat>)
    ensures var s := TrueSolution(m, errors); var q := |m| + |errors|;
            s[..q] == Product(m, Locator(errors)) && s[q..] + [1] == Locator(errors)
  {
    hide Product, Locator;
    LocatorMonic(errors);
    var l := Locator(errors);
    assert l == l[..|errors|] + [l[|errors|]];
  }

  lemma TrueSolutionSolves(m: Poly, received: seq<Byte>, errors: seq<nat>)
    requires errors == Differing(Codeword(m, |received|), received)
    ensures SolvesKey(received, |m| + |errors|, |errors|, TrueSolution(m, errors))
  {
    hide KeyEquation, TrueSolution, Differing, Codeword, Locator, Product;
    TrueSolutionParts(m, errors);
    KeySolved(m, received);
  }

  lemma OnlyTrueSolution(m: Poly, received: seq<Byte>, errors: seq<nat>, t: seq<Byte>)
    requires |received| <= 255 && errors == Differing(Codeword(m, |received|), received)
    requires |m| + 2 * |errors| <= |received|
    requires SolvesKey(received, |m| + |errors|, |errors|, t)
    ensures t == TrueSolution(m, errors)
  {
    hide KeyEquation, TrueSolution, Differing, Codeword, Locator, Product;
    var q := |m| + |errors|;
    KeyForced(m, received, t[..q], t[q..], errors);
    TrueSolutionParts(m, errors);
    SameParts(t, TrueSolution(m, errors), q);
  }

  lemma SameParts(s: seq<Byte>, t: seq<Byte>, q: nat)
    requires q <= |s| == |t| && s[..q] == t[..q] && s[q..] + [1] == t[q..] + [1]
    ensures s == t
  {
    assert s[q..] == (s[q..] + [1])[..|s| - q];
    assert t[q..] == (t[q..] + [1])[..|s| - q];
    assert s == s[..q] + s[q..];
    assert t == t[..q] + t[q..];
  }

  // With the true number of errors the system has no solution but the true one.
  lemma SystemUnique(a: Matrix, m: Poly, received: seq<Byte>, errors: seq<nat>)
    requires |received| <= 255 && errors == Differing(Codeword(m, |received|), received)
    requires |m| + 2 * |errors| <= |received| && Shaped(a, |m| + 2 * |errors|)
    requires IsSystem(a, received, |m| + |errors|, |errors|)
    ensures UniqueSolution(a, |m| + 2 * |errors|, TrueSolution(m, errors))
  {
    hide Solves, TrueSolution, Differing, Codeword, IsSystem, SolvesKey;
    var q := |m| + |errors|;
    TrueSolutionSolves(m, received, errors);
    SystemMeans(a, received, q, |errors|, TrueSolution(m, errors));
    forall t | |t| == q + |errors| && Solves(a, t)
      ensures t == TrueSolution(m, errors)
    {
      SystemMeans(a, received, q, |errors|, t);
      OnlyTrueSolution(m, received, errors, t);
    }
  }

  // --- the methods -------------------------------------------------------------------

  method GfPolyEval(polynomial: Poly, x: Byte) returns (result: Byte)
    ensures result == Eval(polynomial, x)
  {
    hide Add, Mul;
    result := 0;
    for i := |polynomial| downto 0
      invariant result == Eval(polynomial[i..], x)
    {
      assert polynomial[i..][1..] == polynomial[i + 1..];
      result := GfMul(result, x);
      result := Add(result, polynomial[i]);
    }
    assert polynomial[0..] == polynomial;
  }

  predicate ValidLengths(dataLen: nat, parity: nat) {
    parity <= MAX_PARITY_COUNT && dataLen + parity <= MAX_CODEWORD_LEN
  }

  function LengthError(dataLen: nat, parity: nat): CodecError {
    if parity > MAX_PARITY_COUNT then ParityTooHigh else CodewordTooLong
  }

  method Encode(data: seq<Byte>, parity: nat) returns (r: Result<seq<Byte>, CodecError>)
    ensures parity == 0 ==> r == Ok(data)
    ensures parity > 16 ==> r == Err(ParityTooHigh)
    ensures 1 <= parity <= 16 && |data| + parity > 255 ==> r == Err(CodewordTooLong)
    ensures 1 <= parity <= 16 && |data| + parity <= 255 ==> r == Ok(Codeword(data, |data| + parity))
  {
    hide Mul, Point, Eval;
    if parity == 0 {
      return Ok(data);
    }
    if !ValidLengths(|data|, parity) {
      return Err(LengthError(|data|, parity));
    }
    var n := |data| + parity;
    var codeword: seq<Byte> := [];
    var point: Byte := 1;
    PointNext(0);
    for i := 0 to n
      invariant point == Point(i)
      invariant codeword == Codeword(data, i)
    {
      PointNext(i);
      var symbol := GfPolyEval(data, point);
      codeword := codeword + [symbol];
      point := GfMul(point, ALPHA);
    }
    r := Ok(codeword);
  }

  method MismatchCount(message: Poly, received: seq<Byte>) returns (mismatches: nat)
    ensures mismatches == Hamming(Codeword(message, |received|), received)
  {
    hide Mul, Point, Eval;
    var point: Byte := 1;
    mismatches := 0;
    PointNext(0);
    for i := 0 to |received|
      invariant point == Point(i)
      invariant mismatches == Hamming(Codeword(message, i), received[..i])
    {
      PointNext(i);
      var symbol := GfPolyEval(message, point);
      assert Codeword(message, i + 1)[..i] == Codeword(message, i);
      assert received[..i + 1][..i] == received[..i];
      if symbol != received[i] {
        mismatches := mismatches + 1;
      }
      point := GfMul(point, ALPHA);
    }
    assert received[..|received|] == received;
  }

  method BuildSystemRow(y: Byte, i: nat, q: nat, e: nat) returns (row: Row)
    ensures row == SystemRow(y, Point(i), q, e)
  {
    hide Mul, Pow;
    var x := GfPow(ALPHA, i);
    row := seq(q + e + 1, j => 0);
    var power: Byte := 1;
    PowOnce(x, 0);
    for j := 0 to q
      invariant |row| == q + e + 1 && power == Pow(x, j)
      invariant forall t :: 0 <= t < j ==> row[t] == Mul(1, Pow(x, t))
    {
      PowOnce(x, j);
      MulOne(power);
      row := row[j := power];
      power := GfMul(power, x);
      MulCommutes(x, Pow(x, j));
    }
    power := 1;
    for j := 0 to e
      invariant |row| == q + e + 1 && power == Pow(x, j)
      invariant forall t :: 0 <= t < q ==> row[t] == Mul(1, Pow(x, t))
      invariant forall t :: 0 <= t < j ==> row[q + t] == Mul(y, Pow(x, t))
    {
      PowOnce(x, j);
      var cell := GfMul(y, power);
      row := row[q + j := cell];
      power := GfMul(power, x);
      MulCommutes(x, Pow(x, j));
    }
    var top := GfPow(x, e);
    top := GfMul(y, top);
    row := row[q + e := top];
    RowAssembled(row, y, x, q, e);
  }

  lemma RowAssembled(row: Row, y: Byte, x: Byte, q: nat, e: nat)
    requires |row| == q + e + 1 && row[q + e] == Mul(y, Pow(x, e))
    requires forall t :: 0 <= t < q ==> row[t] == Mul(1, Pow(x, t))
    requires forall t :: 0 <= t < e ==> row[q + t] == Mul(y, Pow(x, t))
    ensures row == SystemRow(y, x, q, e)
  {
    hide Mul, Pow;
    assert row[..q] == Powers(1, x, q);
    assert row[q..q + e] == Powers(y, x, e);
    assert row == row[..q] + (row[q..q + e] + [row[q + e]]);
  }

  method BuildSystem(received: seq<Byte>, q: nat, e: nat) returns (matrix: Matrix)
    ensures IsSystem(matrix, received, q, e)
  {
    hide SystemRow, Point;
    matrix := [];
    for i := 0 to |received|
      invariant |matrix| == i
      invariant forall t :: 0 <= t < i ==> matrix[t] == SystemRow(received[t], Point(t), q, e)
    {
      var row := BuildSystemRow(received[i], i, q, e);
      matrix := matrix + [row];
    }
  }

  method BerlekampWelch(received: seq<Byte>, dataLen: nat, errorCount: nat) returns (r: Result<Poly, CodecError>)
    requires |received| <= MAX_CODEWORD_LEN
    ensures r.Ok? ==> |r.value| == dataLen
    ensures |received| < dataLen + 2 * errorCount ==> r == Err(NotEnoughSymbols)
    ensures |received| >= dataLen + 2 * errorCount ==>
      forall m :: |m| == dataLen && Hamming(Codeword(m, |received|), received) == errorCount ==> r == Ok(m)
  {
    hide Solves, IsSystem, Product, Locator, Codeword, Differing, TrueSolution;
    var q := dataLen + errorCount;
    var n := q + errorCount;
    if |received| < n {
      return Err(NotEnoughSymbols);
    }
    var matrix := BuildSystem(received, q, errorCount);
    SystemShaped(matrix, received, q, errorCount);
    var solved := SolveLinearSystem(matrix, n);
    forall m: Poly | |m| == dataLen && Hamming(Codeword(m, |received|), received) == errorCount
      ensures solved == Ok(TrueSolution(m, Differing(Codeword(m, |received|), received)))
    {
      var errors := Differing(Codeword(m, |received|), received);
      SystemUnique(matrix, m, received, errors);
    }
    if solved.Err? {
      return Err(SystemFailed(solved.error));
    }
    var solution := solved.value;
    var divided := PolynomialDivideExact(solution[..q], solution[q..] + [1], dataLen);
    assert ValidDivisor(solution[q..] + [1]);
    forall m: Poly | |m| == dataLen && Hamming(Codeword(m, |received|), received) == errorCount
      ensures divided == Ok(m)
    {
      TrueSolutionParts(m, Differing(Codeword(m, |received|), received));
      assert ExactQuotient(solution[..q], solution[q..] + [1], dataLen, m);
    }
    if divided.Err? {
      return Err(DivisionFailed(divided.error));
    }
    assert ExactQuotient(solution[..q], solution[q..] + [1], dataLen, divided.value);
    r := Ok(divided.value);
  }

  // m has the requested length and its codeword differs from the received word in at most half as many
  // symbols as there is parity.
  ghost predicate Nearest(m: Poly, encoded: seq<Byte>, dataLen: nat, parity: nat)
    requires |encoded| >= dataLen + parity
  {
    WithinRadius(m, encoded[..dataLen + parity], dataLen, parity / 2)
  }

  // What the decoder returns, as a function of the received word.
  ghost function Decoded(encoded: seq<Byte>, dataLen: nat, parity: nat): Result<seq<Byte>, CodecError> {
    if parity == 0 then
      if |encoded| < dataLen then Err(EncodedTooShort) else Ok(encoded[..dataLen])
    else if !ValidLengths(dataLen, parity) then Err(LengthError(dataLen, parity))
    else if |encoded| < dataLen + parity then Err(EncodedTooShort)
    else if exists m: Poly :: Nearest(m, encoded, dataLen, parity) then
      var m: Poly :| Nearest(m, encoded, dataLen, parity);
      Ok(m)
    else Err(Uncorrectable)
  }

  // An encoded message survives any damage to at most half as many symbols as there is parity.
  lemma Corrects(data: seq<Byte>, parity: nat, received: seq<Byte>)
    requires parity > 0 && ValidLengths(|data|, parity) && |received| == |data| + parity
    requires Hamming(Codeword(data, |data| + parity), received) <= parity / 2
    ensures Decoded(received, |data|, parity) == Ok(data)
  {
    hide Codeword, Hamming;
    assert received[..|data| + parity] == received;
    assert Nearest(data, received, |data|, parity);
    forall m: Poly | Nearest(m, received, |data|, parity)
      ensures m == data
    {
      RadiusUnique(m, data, received, |data|, parity / 2);
    }
  }

  // The decoder is exactly a bounded-distance decoder.
  method Decode(encoded: seq<Byte>, dataLen: nat, parity: nat) returns (r: Result<seq<Byte>, CodecError>)
    ensures parity == 0 && |encoded| < dataLen ==> r == Err(EncodedTooShort)
    ensures parity == 0 && |encoded| >= dataLen ==> r == Ok(encoded[..dataLen])
    ensures parity > 16 ==> r == Err(ParityTooHigh)
    ensures 1 <= parity <= 16 && dataLen + parity > 255 ==> r == Err(CodewordTooLong)
    ensures 1 <= parity <= 16 && dataLen + parity <= 255 && |encoded| < dataLen + parity ==> r == Err(EncodedTooShort)
    ensures 1 <= parity <= 16 && dataLen + parity <= 255 && |encoded| >= dataLen + parity ==>
      && (forall m :: r == Ok(m) <==> Nearest(m, encoded, dataLen, parity))
      && (r.Err? ==> r == Err(Uncorrectable))
    ensures r == Decoded(encoded, dataLen, parity)
  {
    hide Codeword, Hamming, Eval, Point;
    if parity == 0 {
      if |encoded| < dataLen {
        return Err(EncodedTooShort);
      }
      return Ok(encoded[..dataLen]);
    }
    if !ValidLengths(dataLen, parity) {
      return Err(LengthError(dataLen, parity));
    }
    var n := dataLen + parity;
    if |encoded| < n {
      return Err(EncodedTooShort);
    }
    var received := encoded[..n];
    forall m: Poly, m': Poly | Nearest(m, encoded, dataLen, parity) && Nearest(m', encoded, dataLen, parity)
      ensures m == m'
    {
      RadiusUnique(m, m', received, dataLen, parity / 2);
    }
    var intact := LagrangeInterpolate(received, dataLen);
    if intact.Ok? {
      var mismatches := MismatchCount(intact.value, received);
      if mismatches == 0 {
        assert Nearest(intact.value, encoded, dataLen, parity);
        return Ok(intact.value);
      }
    }
    forall m: Poly | |m| == dataLen
      ensures Hamming(Codeword(m, n), received) >= 1
    {
      if Hamming(Codeword(m, n), received) == 0 {
        IntactIsInterpolated(m, intact.value, received);
      }
    }
    for errorCount := 1 to parity / 2 + 1
      invariant forall m: Poly :: |m| == dataLen ==> Hamming(Codeword(m, n), received) >= errorCount
    {
      var candidate := BerlekampWelch(received, dataLen, errorCount);
      if candidate.Ok? {
        var mismatches := MismatchCount(candidate.value, received);
        if mismatches <= errorCount {
          assert Nearest(candidate.value, encoded, dataLen, parity);
          return Ok(candidate.value);
        }
      }
    }
    r := Err(Uncorrectable);
  }

  // An undamaged codeword is reproduced by interpolation through its first symbols.
  lemma IntactIsInterpolated(m: Poly, p: Poly, received: seq<Byte>)
    requires |m| == |p| <= |received| <= 255 && Hamming(Codeword(m, |received|), received) == 0
    requires forall i :: 0 <= i < |p| ==> Eval(p, Point(i)) == received[i]
    ensures p == m
  {
    hide Eval, Point, Differing, Agreeing;
    var k := |m|;
    var positions := seq(k, i => i);
    Positions(Codeword(m, |received|), received);
    PointsAtDistinct(positions);
    forall i | 0 <= i < k
      ensures Eval(p, PointsAt(positions)[i]) == Eval(m, PointsAt(positions)[i])
    {
      assert i !in Differing(Codeword(m, |received|), received);
    }
    AgreementUnique(p, m, PointsAt(positions));
  }
}
