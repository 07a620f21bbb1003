module Results {
  datatype Option<+T> = None | Some(value: T)

  datatype Result<+T, +E> = Ok(value: T) | Err(error: E)
}

/** Linear systems over GF(2^8): solution sets and what row operations do to them. */
module LinearSystems {
  import opened GaloisField
  import opened FieldPowers

  // Coefficients followed by the right-hand side.
  type Row = seq<Byte>

  type Matrix = seq<Row>

  function Dot(row: Row, s: seq<Byte>): Byte
    requires |s| <= |row|
  {
    if |s| == 0 then 0 else Add(Mul(row[0], s[0]), Dot(row[1..], s[1..]))
  }

  ghost predicate Shaped(a: Matrix, n: nat) {
    forall i :: 0 <= i < |a| ==> |a[i]| == n + 1
  }

  ghost predicate RowHolds(row: Row, s: seq<Byte>)
    requires |row| == |s| + 1
  {
    Dot(row, s) == row[|s|]
  }

  ghost predicate Solves(a: Matrix, s: seq<Byte>)
    requires Shaped(a, |s|)
  {
    forall i :: 0 <= i < |a| ==> RowHolds(a[i], s)
  }

  ghost predicate UniqueSolution(a: Matrix, n: nat, s: seq<Byte>)
    requires Shaped(a, n)
  {
    |s| == n && Solves(a, s) && forall t :: |t| == n && Solves(a, t) ==> t == s
  }

  ghost predicate NoSolution(a: Matrix, n: nat)
    requires Shaped(a, n)
  {
    forall t :: |t| == n ==> !Solves(a, t)
  }

  ghost predicate SeveralSolutions(a: Matrix, n: nat)
    requires Shaped(a, n)
  {
    exists s, t :: |s| == n && |t| == n && s != t && Solves(a, s) && Solves(a, t)
  }

  ghost predicate SameSolutions(a: Matrix, b: Matrix, n: nat)
    requires Shaped(a, n) && Shaped(b, n)
  {
    forall s :: |s| == n ==> (Solves(a, s) <==> Solves(b, s))
  }

  // --- row operations ---------------------------------------------------------

  function ScaleRow(row: Row, f: Byte): (r: Row)
    ensures |r| == |row|
  {
    seq(|row|, j requires 0 <= j < |row| => Mul(row[j], f))
  }

  function SubtractRow(row: Row, f: Byte, pivot: Row): (r: Row)
    requires |row| == |pivot|
    ensures |r| == |row|
  {
    seq(|row|, j requires 0 <= j < |row| => Add(row[j], Mul(f, pivot[j])))
  }

  lemma {:induction false} DotScale(row: Row, f: Byte, s: seq<Byte>)
    requires |s| <= |row|
    ensures Dot(ScaleRow(row, f), s) == Mul(f, Dot(row, s))
  {
    hide Add, Mul;
    if |s| == 0 {
      MulZero(f);
    } else {
      assert ScaleRow(row, f)[1..] == ScaleRow(row[1..], f);
      DotScale(row[1..], f, s[1..]);
      MulCommutes(row[0], f);
      MulAssociates(f, row[0], s[0]);
      MulDistributes(f, Mul(row[0], s[0]), Dot(row[1..], s[1..]));
    }
  }

  lemma {:induction false} DotSubtract(row: Row, f: Byte, pivot: Row, s: seq<Byte>)
    requires |s| <= |row| == |pivot|
    ensures Dot(SubtractRow(row, f, pivot), s) == Add(Dot(row, s), Mul(f, Dot(pivot, s)))
  {
    hide Add, Mul;
    if |s| == 0 {
      MulZero(f);
      AddLaws();
    } else {
      assert SubtractRow(row, f, pivot)[1..] == SubtractRow(row[1..], f, pivot[1..]);
      DotSubtract(row[1..], f, pivot[1..], s[1..]);
      SubtractStep(row[0], f, pivot[0], s[0], Dot(row[1..], s[1..]), Dot(pivot[1..], s[1..]));
    }
  }

  lemma SubtractStep(r: Byte, f: Byte, p: Byte, s: Byte, dr: Byte, dp: Byte)
    ensures Add(Mul(Add(r, Mul(f, p)), s), Add(dr, Mul(f, dp)))
         == Add(Add(Mul(r, s), dr), Mul(f, Add(Mul(p, s), dp)))
  {
    hide *;
    MulDistributes(r, Mul(f, p), s);
    MulAssociates(f, p, s);
    MulDistributes(f, Mul(p, s), dp);
    AddInterchange(Mul(r, s), Mul(f, Mul(p, s)), dr, Mul(f, dp));
  }

  lemma ScaleKeepsRow(row: Row, f: Byte, s: seq<Byte>)
    requires f != 0 && |row| == |s| + 1
    ensures RowHolds(ScaleRow(row, f), s) <==> RowHolds(row, s)
  {
    hide Add, Mul, Dot;
    DotScale(row, f, s);
    MulCommutes(row[|s|], f);
    if RowHolds(ScaleRow(row, f), s) {
      MulCancels(f, Dot(row, s), row[|s|]);
    }
  }

  lemma SubtractKeepsRow(row: Row, f: Byte, pivot: Row, s: seq<Byte>)
    requires |row| == |pivot| == |s| + 1 && RowHolds(pivot, s)
    ensures RowHolds(SubtractRow(row, f, pivot), s) <==> RowHolds(row, s)
  {
    hide Add, Mul, Dot;
    DotSubtract(row, f, pivot, s);
    AddCancels(Dot(row, s), row[|s|], Mul(f, pivot[|s|]));
  }

  lemma AddCancels(a: Byte, b: Byte, c: Byte)
    ensures Add(a, c) == Add(b, c) <==> a == b
  {}

  // --- one elimination step ---------------------------------------------------

  function Swapped(a: Matrix, i: nat, j: nat): (b: Matrix)
    requires i < |a| && j < |a|
    ensures |b| == |a|
  {
    a[i := a[j]][j := a[i]]
  }

  function Cleared(a: Matrix, n: nat, pivot: nat, column: nat): (b: Matrix)
    requires Shaped(a, n) && pivot < |a| && column <= n
    ensures |b| == |a| && Shaped(b, n)
  {
    seq(|a|, i requires 0 <= i < |a| => if i == pivot then a[i] else SubtractRow(a[i], a[i][column], a[pivot]))
  }

  lemma SwapKeepsSolutions(a: Matrix, n: nat, i: nat, j: nat)
    requires Shaped(a, n) && i < |a| && j < |a|
    ensures Shaped(Swapped(a, i, j), n) && SameSolutions(a, Swapped(a, i, j), n)
  {
    hide RowHolds;
    var b := Swapped(a, i, j);
    assert a == Swapped(b, i, j);
    forall s: seq<Byte> | |s| == n
      ensures Solves(a, s) <==> Solves(b, s)
    {
      assert forall k :: 0 <= k < |a| ==> b[k] == a[if k == i then j else if k == j then i else k];
      assert forall k :: 0 <= k < |a| ==> a[k] == b[if k == i then j else if k == j then i else k];
    }
  }

  lemma ScaleKeepsSolutions(a: Matrix, n: nat, r: nat, f: Byte)
    requires Shaped(a, n) && r < |a| && f != 0
    ensures Shaped(a[r := ScaleRow(a[r], f)], n) && SameSolutions(a, a[r := ScaleRow(a[r], f)], n)
  {
    hide RowHolds, ScaleRow;
    var b := a[r := ScaleRow(a[r], f)];
    forall s: seq<Byte> | |s| == n
      ensures Solves(a, s) <==> Solves(b, s)
    {
      ScaleKeepsRow(a[r], f, s);
      assert b[r] == ScaleRow(a[r], f);
      assert forall k :: 0 <= k < |a| && k != r ==> a[k] == b[k];
    }
  }

  lemma ClearKeepsSolutions(a: Matrix, n: nat, pivot: nat, column: nat)
    requires Shaped(a, n) && pivot < |a| && column <= n
    ensures SameSolutions(a, Cleared(a, n, pivot, column), n)
  {
    hide RowHolds, SubtractRow;
    var b := Cleared(a, n, pivot, column);
    forall s: seq<Byte> | |s| == n
      ensures Solves(a, s) <==> Solves(b, s)
    {
      assert b[pivot] == a[pivot];
      if RowHolds(a[pivot], s) {
        forall k | 0 <= k < |a|
          ensures RowHolds(b[k], s) <==> RowHolds(a[k], s)
        {
          if k != pivot {
            SubtractKeepsRow(a[k], a[k][column], a[pivot], s);
          }
        }
      }
    }
  }
}
