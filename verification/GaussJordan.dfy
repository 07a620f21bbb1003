/** Gauss-Jordan elimination: the solver of error_correction.rs and what its verdicts mean. */
module GaussJordan {
  import opened Results
  import opened GaloisField
  import opened FieldPowers
  import opened GfArithmetic
  import opened LinearSystems

  datatype SolveError = Inconsistent | Singular

  // Row r of a is the pivot row of column cols[r]; rows past the pivots vanish left of `done`.
  ghost predicate Reduced(a: Matrix, n: nat, done: nat, cols: seq<nat>) {
    && Shaped(a, n)
    && |cols| <= |a| && done <= n
    && (forall r :: 0 <= r < |cols| ==> cols[r] < done && a[r][cols[r]] == 1)
    && (forall r, i :: 0 <= r < |cols| && 0 <= i < |a| && i != r ==> a[i][cols[r]] == 0)
    && (forall i, j :: |cols| <= i < |a| && 0 <= j < done ==> a[i][j] == 0)
  }

  ghost predicate PivotsMatch(pivots: seq<Option<nat>>, n: nat, cols: seq<nat>) {
    && |pivots| == n
    && (forall r :: 0 <= r < |cols| ==> cols[r] < n && pivots[cols[r]] == Some(r))
    && (forall j :: 0 <= j < n && pivots[j].Some? ==> pivots[j].value < |cols| && cols[pivots[j].value] == j)
  }

  // --- one column -------------------------------------------------------------

  // The matrix after column `column` was processed with the pivot found in row p.
  function Step(a: Matrix, n: nat, column: nat, next: nat, p: nat): (b: Matrix)
    requires Shaped(a, n) && column < n && next < |a| && p < |a|
    ensures |b| == |a| && Shaped(b, n)
  {
    var swapped := Swapped(a, next, p);
    var scaled := swapped[next := ScaleRow(swapped[next], Inv(swapped[next][column]))];
    Cleared(scaled, n, next, column)
  }

  lemma StepKeepsSolutions(a: Matrix, n: nat, column: nat, next: nat, p: nat)
    requires Shaped(a, n) && column < n && next < |a| && p < |a| && a[p][column] != 0
    ensures SameSolutions(a, Step(a, n, column, next, p), n)
  {
    hide Inv, SameSolutions, ScaleRow, Cleared, Swapped;
    var swapped := Swapped(a, next, p);
    SwapKeepsSolutions(a, n, next, p);
    assert swapped[next] == a[p] by {
      SwappedRow(a, next, p);
    }
    InverseLaw(a[p][column]);
    var f := Inv(swapped[next][column]);
    ScaleKeepsSolutions(swapped, n, next, f);
    var scaled := swapped[next := ScaleRow(swapped[next], f)];
    ClearKeepsSolutions(scaled, n, next, column);
    SameSolutionsTransitive(a, swapped, scaled, n);
    SameSolutionsTransitive(a, scaled, Cleared(scaled, n, next, column), n);
  }

  lemma SwappedRow(a: Matrix, i: nat, j: nat)
    requires i < |a| && j < |a|
    ensures Swapped(a, i, j)[i] == a[j]
  {}

  lemma SameSolutionsTransitive(a: Matrix, b: Matrix, c: Matrix, n: nat)
    requires Shaped(a, n) && Shaped(b, n) && Shaped(c, n)
    requires SameSolutions(a, b, n) && SameSolutions(b, c, n)
    ensures SameSolutions(a, c, n)
  {
    hide Solves;
  }

  // What happens to one cell of a row that is not the pivot row.
  lemma ClearedCell(cell: Byte, factor: Byte, pivotCell: Byte)
    ensures pivotCell == 0 ==> Add(cell, Mul(factor, pivotCell)) == cell
    ensures factor == 0 ==> Add(cell, Mul(factor, pivotCell)) == cell
    ensures pivotCell == 1 ==> Add(cell, Mul(factor, pivotCell)) == Add(cell, factor)
    ensures Add(cell, cell) == 0
  {
    hide Add, Mul;
    MulZero(factor);
    MulZero(pivotCell);
    MulOne(factor);
    AddLaws();
  }

  lemma StepReduces(a: Matrix, n: nat, column: nat, cols: seq<nat>, p: nat)
    requires Reduced(a, n, column, cols) && column < n
    requires |cols| <= p < |a| && a[p][column] != 0
    ensures Reduced(Step(a, n, column, |cols|, p), n, column + 1, cols + [column])
  {
    hide Add, Mul, Inv;
    var next := |cols|;
    var swapped := Swapped(a, next, p);
    var f := Inv(swapped[next][column]);
    var scaled := swapped[next := ScaleRow(swapped[next], f)];
    var b := Cleared(scaled, n, next, column);
    InverseLaw(a[p][column]);
    MulZero(f);
    assert scaled[next][column] == 1;
    assert forall j :: 0 <= j < column ==> scaled[next][j] == 0;
    forall i, j | 0 <= i < |a| && i != next && 0 <= j <= n
      ensures j < column ==> b[i][j] == swapped[i][j]
      ensures j == column ==> b[i][j] == 0
    {
      ClearedCell(scaled[i][j], scaled[i][column], scaled[next][j]);
    }
    assert b[next] == scaled[next];
  }

  lemma SkipReduces(a: Matrix, n: nat, column: nat, cols: seq<nat>)
    requires Reduced(a, n, column, cols) && column < n
    requires forall i :: |cols| <= i < |a| ==> a[i][column] == 0
    ensures Reduced(a, n, column + 1, cols)
  {}

  // --- reading off the answer -------------------------------------------------

  lemma {:induction false} DotSingle(row: Row, s: seq<Byte>, k: nat)
    requires k < |s| <= |row|
    requires forall j :: 0 <= j < |s| && j != k ==> row[j] == 0 || s[j] == 0
    ensures Dot(row, s) == Mul(row[k], s[k])
  {
    hide Add, Mul;
    AddNothings(Mul(row[0], s[0]), Dot(row[1..], s[1..]));
    if k == 0 {
      DotNone(row[1..], s[1..]);
    } else {
      MulZero(s[0]);
      MulZero(row[0]);
      DotSingle(row[1..], s[1..], k - 1);
    }
  }

  lemma AddNothings(a: Byte, b: Byte)
    ensures a == 0 ==> Add(a, b) == b
    ensures b == 0 ==> Add(a, b) == a
  {}

  lemma {:induction false} DotNone(row: Row, s: seq<Byte>)
    requires |s| <= |row|
    requires forall j :: 0 <= j < |s| ==> row[j] == 0 || s[j] == 0
    ensures Dot(row, s) == 0
  {
    hide Add, Mul;
    if |s| > 0 {
      AddNothings(Mul(row[0], s[0]), Dot(row[1..], s[1..]));
      MulZero(s[0]);
      MulZero(row[0]);
      DotNone(row[1..], s[1..]);
    }
  }

  // Changing a zero entry of s to one adds that coefficient.
  lemma {:induction false} DotWithOne(row: Row, s: seq<Byte>, k: nat)
    requires k < |s| <= |row| && s[k] == 0
    ensures Dot(row, s[k := 1]) == Add(Dot(row, s), row[k])
  {
    hide Add, Mul;
    var t := s[k := 1];
    if k == 0 {
      assert t[1..] == s[1..];
      MulOne(row[0]);
      MulZero(row[0]);
      AddLaws();
    } else {
      assert t[1..] == s[1..][k - 1 := 1];
      DotWithOne(row[1..], s[1..], k - 1);
      AddLaws();
    }
  }

  // Pivot entries are read from the right-hand side plus `free` times column f; the rest is zero.
  function Candidate(a: Matrix, n: nat, pivots: seq<Option<nat>>, f: nat, free: bool): (s: seq<Byte>)
    requires Shaped(a, n) && |pivots| == n && f <= n
    requires forall j :: 0 <= j < n && pivots[j].Some? ==> pivots[j].value < |a|
    ensures |s| == n
  {
    seq(n, j requires 0 <= j < n =>
      if pivots[j].None? then 0
      else if free then Add(a[pivots[j].value][n], a[pivots[j].value][f])
      else a[pivots[j].value][n])
  }

  predicate ZeroRow(row: Row, n: nat)
    requires |row| == n + 1
  {
    forall j :: 0 <= j < n ==> row[j] == 0
  }

  lemma PivotRowDot(a: Matrix, n: nat, cols: seq<nat>, pivots: seq<Option<nat>>, r: nat, s: seq<Byte>)
    requires Reduced(a, n, n, cols) && PivotsMatch(pivots, n, cols) && r < |cols| && |s| == n
    requires forall j :: 0 <= j < n && pivots[j].None? ==> s[j] == 0
    ensures Dot(a[r], s) == s[cols[r]]
  {
    hide Dot, Mul;
    var k := cols[r];
    forall j | 0 <= j < n && j != k
      ensures a[r][j] == 0 || s[j] == 0
    {
      if pivots[j].Some? {
        assert cols[pivots[j].value] == j;
      }
    }
    DotSingle(a[r], s, k);
    MulOne(s[k]);
  }

  lemma CandidateSolves(a: Matrix, n: nat, cols: seq<nat>, pivots: seq<Option<nat>>)
    requires Reduced(a, n, n, cols) && PivotsMatch(pivots, n, cols)
    requires forall i :: 0 <= i < |a| && ZeroRow(a[i], n) ==> a[i][n] == 0
    ensures Solves(a, Candidate(a, n, pivots, n, false))
  {
    hide Dot;
    var s := Candidate(a, n, pivots, n, false);
    forall i | 0 <= i < |a|
      ensures RowHolds(a[i], s)
    {
      if i < |cols| {
        PivotRowDot(a, n, cols, pivots, i, s);
      } else {
        assert ZeroRow(a[i], n);
        DotNone(a[i], s);
      }
    }
  }

  lemma FreeCandidateSolves(a: Matrix, n: nat, cols: seq<nat>, pivots: seq<Option<nat>>, f: nat)
    requires Reduced(a, n, n, cols) && PivotsMatch(pivots, n, cols)
    requires forall i :: 0 <= i < |a| && ZeroRow(a[i], n) ==> a[i][n] == 0
    requires f < n && pivots[f].None?
    ensures Solves(a, Candidate(a, n, pivots, f, true)[f := 1])
  {
    hide Dot, Add;
    var s := Candidate(a, n, pivots, f, true);
    forall i | 0 <= i < |a|
      ensures RowHolds(a[i], s[f := 1])
    {
      DotWithOne(a[i], s, f);
      if i < |cols| {
        PivotRowDot(a, n, cols, pivots, i, s);
        AddTwice(a[i][n], a[i][f]);
      } else {
        assert ZeroRow(a[i], n);
        DotNone(a[i], s);
        AddNothings(0, a[i][f]);
      }
    }
  }

  lemma AddTwice(a: Byte, b: Byte)
    ensures Add(Add(a, b), b) == a
  {}

  lemma AllPivotsUnique(a: Matrix, n: nat, cols: seq<nat>, pivots: seq<Option<nat>>)
    requires Reduced(a, n, n, cols) && PivotsMatch(pivots, n, cols)
    requires forall i :: 0 <= i < |a| && ZeroRow(a[i], n) ==> a[i][n] == 0
    requires forall j :: 0 <= j < n ==> pivots[j].Some?
    ensures UniqueSolution(a, n, Candidate(a, n, pivots, n, false))
  {
    hide Dot;
    var s := Candidate(a, n, pivots, n, false);
    CandidateSolves(a, n, cols, pivots);
    forall t | |t| == n && Solves(a, t)
      ensures t == s
    {
      forall j | 0 <= j < n
        ensures t[j] == s[j]
      {
        var r := pivots[j].value;
        assert RowHolds(a[r], t);
        PivotRowDot(a, n, cols, pivots, r, t);
      }
    }
  }

  lemma FreeColumnSeveral(a: Matrix, n: nat, cols: seq<nat>, pivots: seq<Option<nat>>, f: nat)
    requires Reduced(a, n, n, cols) && PivotsMatch(pivots, n, cols)
    requires forall i :: 0 <= i < |a| && ZeroRow(a[i], n) ==> a[i][n] == 0
    requires f < n && pivots[f].None?
    ensures SeveralSolutions(a, n)
  {
    hide Solves;
    var s, t := Candidate(a, n, pivots, n, false), Candidate(a, n, pivots, f, true)[f := 1];
    CandidateSolves(a, n, cols, pivots);
    FreeCandidateSolves(a, n, cols, pivots, f);
    assert s[f] != t[f];
  }

  lemma ZeroRowNone(a: Matrix, n: nat, i: nat)
    requires Shaped(a, n) && i < |a| && ZeroRow(a[i], n) && a[i][n] != 0
    ensures NoSolution(a, n)
  {
    hide Dot;
    forall t: seq<Byte> | |t| == n
      ensures !Solves(a, t)
    {
      DotNone(a[i], t);
      assert !RowHolds(a[i], t);
    }
  }

  // --- the solver, in place -----------------------------------------------------

  method NormalizePivotRow(matrix: array<Row>, n: nat, next: nat, column: nat)
    requires Shaped(matrix[..], n) && next < matrix.Length && column < n
    requires forall j :: 0 <= j < column ==> matrix[next][j] == 0
    modifies matrix
    ensures matrix[..] == old(matrix[..])[next := ScaleRow(old(matrix[next]), Inv(old(matrix[next])[column]))]
  {
    hide Mul, Inv;
    ghost var before := matrix[..];
    ghost var row := matrix[next];
    var inverse := GfInv(matrix[next][column]);
    MulZero(inverse);
    for j := column to n + 1
      invariant Shaped(matrix[..], n)
      invariant forall i :: 0 <= i < matrix.Length && i != next ==> matrix[i] == before[i]
      invariant forall k :: 0 <= k <= n ==>
        matrix[next][k] == if k < j then Mul(row[k], inverse) else row[k]
    {
      var cell := GfMul(matrix[next][j], inverse);
      matrix[next] := matrix[next][j := cell];
    }
    assert matrix[next] == ScaleRow(row, inverse);
  }

  method SubtractPivotRow(matrix: array<Row>, n: nat, row: nat, pivot: nat, column: nat)
    requires Shaped(matrix[..], n) && row < matrix.Length && pivot < matrix.Length && row != pivot && column < n
    requires forall j :: 0 <= j < column ==> matrix[pivot][j] == 0
    modifies matrix
    ensures matrix[..] == old(matrix[..])[row := SubtractRow(old(matrix[row]), old(matrix[row])[column], old(matrix[pivot]))]
  {
    hide Mul, Add;
    ghost var before := matrix[..];
    ghost var old_row := matrix[row];
    var factor := matrix[row][column];
    forall k | 0 <= k <= n
      ensures k < column || factor == 0 ==> Add(old_row[k], Mul(factor, before[pivot][k])) == old_row[k]
    {
      ClearedCell(old_row[k], factor, before[pivot][k]);
    }
    if factor == 0 {
      assert matrix[row] == SubtractRow(old_row, factor, before[pivot]);
      return;
    }
    for j := column to n + 1
      invariant Shaped(matrix[..], n)
      invariant forall i :: 0 <= i < matrix.Length && i != row ==> matrix[i] == before[i]
      invariant forall k :: 0 <= k <= n ==>
        matrix[row][k] == if k < j then Add(old_row[k], Mul(factor, before[pivot][k])) else old_row[k]
    {
      var product := GfMul(factor, matrix[pivot][j]);
      matrix[row] := matrix[row][j := Add(matrix[row][j], product)];
    }
    assert matrix[row] == SubtractRow(old_row, factor, before[pivot]);
  }

  method ClearColumn(matrix: array<Row>, n: nat, pivot: nat, column: nat)
    requires Shaped(matrix[..], n) && pivot < matrix.Length && column < n
    requires forall j :: 0 <= j < column ==> matrix[pivot][j] == 0
    modifies matrix
    ensures matrix[..] == Cleared(old(matrix[..]), n, pivot, column)
  {
    hide SubtractRow;
    ghost var before := matrix[..];
    for row := 0 to matrix.Length
      invariant Shaped(matrix[..], n)
      invariant matrix[pivot] == before[pivot]
      invariant forall i :: row <= i < matrix.Length ==> matrix[i] == before[i]
      invariant forall i :: 0 <= i < row ==> matrix[i] == Cleared(before, n, pivot, column)[i]
    {
      if row != pivot {
        SubtractPivotRow(matrix, n, row, pivot, column);
      }
    }
  }

  method FindPivot(matrix: array<Row>, n: nat, next: nat, column: nat) returns (p: nat)
    requires Shaped(matrix[..], n) && next <= matrix.Length && column < n
    ensures next <= p <= matrix.Length
    ensures p < matrix.Length ==> matrix[p][column] != 0
    ensures forall i :: next <= i < p ==> matrix[i][column] == 0
  {
    p := next;
    while p < matrix.Length && matrix[p][column] == 0
      invariant next <= p <= matrix.Length
      invariant forall i :: next <= i < p ==> matrix[i][column] == 0
    {
      p := p + 1;
    }
  }

  method ReduceColumn(matrix: array<Row>, n: nat, column: nat, next: nat, p: nat, ghost cols: seq<nat>)
    requires Reduced(matrix[..], n, column, cols) && column < n && next == |cols|
    requires next <= p < matrix.Length && matrix[p][column] != 0
    modifies matrix
    ensures matrix[..] == Step(old(matrix[..]), n, column, next, p)
  {
    hide ScaleRow, Cleared, Inv;
    ghost var before := matrix[..];
    matrix[next], matrix[p] := matrix[p], matrix[next];
    assert matrix[..] == Swapped(before, next, p);
    NormalizePivotRow(matrix, n, next, column);
    ScaledZeros(before[p], Inv(before[p][column]), column);
    ClearColumn(matrix, n, next, column);
  }

  lemma ScaledZeros(row: Row, f: Byte, column: nat)
    requires column <= |row| && forall j :: 0 <= j < column ==> row[j] == 0
    ensures forall j :: 0 <= j < column ==> ScaleRow(row, f)[j] == 0
  {
    hide Mul;
    MulZero(f);
  }

  lemma ReducedAtEnd(a: Matrix, n: nat, done: nat, cols: seq<nat>)
    requires Reduced(a, n, done, cols) && |cols| == |a|
    ensures Reduced(a, n, n, cols)
  {}

  method Eliminate(matrix: array<Row>, n: nat) returns (pivots: seq<Option<nat>>, ghost cols: seq<nat>)
    requires Shaped(matrix[..], n)
    modifies matrix
    ensures Reduced(matrix[..], n, n, cols) && PivotsMatch(pivots, n, cols)
    ensures SameSolutions(old(matrix[..]), matrix[..], n)
  {
    hide Solves, SameSolutions, Step;
    ghost var before := matrix[..];
    cols := [];
    pivots := seq(n, i => None);
    var next := 0;
    SameSolutionsReflexive(before, n);
    var column := 0;
    while column < n
      invariant column <= n && next == |cols|
      invariant Reduced(matrix[..], n, column, cols)
      invariant PivotsMatch(pivots, n, cols)
      invariant SameSolutions(before, matrix[..], n)
    {
      var p := FindPivot(matrix, n, next, column);
      if p < matrix.Length {
        ghost var a := matrix[..];
        StepKeepsSolutions(a, n, column, next, p);
        StepReduces(a, n, column, cols, p);
        ReduceColumn(matrix, n, column, next, p, cols);
        SameSolutionsTransitive(before, a, matrix[..], n);
        PivotAdded(pivots, n, cols, column);
        pivots := pivots[column := Some(next)];
        cols := cols + [column];
        next := next + 1;
        if next == matrix.Length {
          ReducedAtEnd(matrix[..], n, column + 1, cols);
          return;
        }
      } else {
        SkipReduces(matrix[..], n, column, cols);
      }
      column := column + 1;
    }
  }

  // Exactly one solution, none, or several: the three outcomes are told apart.
  method SolveLinearSystem(rows: Matrix, n: nat) returns (r: Result<seq<Byte>, SolveError>)
    requires Shaped(rows, n)
    ensures forall v :: r == Ok(v) <==> UniqueSolution(rows, n, v)
    ensures r == Err(Inconsistent) <==> NoSolution(rows, n)
    ensures r == Err(Singular) <==> SeveralSolutions(rows, n)
  {
    hide Solves, Candidate, ZeroRow;
    var matrix := new Row[|rows|](i requires 0 <= i < |rows| => rows[i]);
    assert matrix[..] == rows;
    var pivots, cols := Eliminate(matrix, n);
    ghost var after := matrix[..];
    for i := 0 to matrix.Length
      invariant forall k :: 0 <= k < i && ZeroRow(matrix[k], n) ==> matrix[k][n] == 0
    {
      if ZeroRow(matrix[i], n) && matrix[i][n] != 0 {
        ZeroRowNone(after, n, i);
        return Err(Inconsistent);
      }
    }
    if f :| 0 <= f < n && pivots[f].None? {
      FreeColumnSeveral(after, n, cols, pivots, f);
      return Err(Singular);
    }
    AllPivotsUnique(after, n, cols, pivots);
    r := Ok(Candidate(matrix[..], n, pivots, n, false));
    assert UniqueSolution(rows, n, r.value);
  }

  lemma SameSolutionsReflexive(a: Matrix, n: nat)
    requires Shaped(a, n)
    ensures SameSolutions(a, a, n)
  {}

  lemma PivotAdded(pivots: seq<Option<nat>>, n: nat, cols: seq<nat>, column: nat)
    requires PivotsMatch(pivots, n, cols) && column < n
    requires forall r :: 0 <= r < |cols| ==> cols[r] < column
    ensures PivotsMatch(pivots[column := Some(|cols|)], n, cols + [column])
  {}
}
