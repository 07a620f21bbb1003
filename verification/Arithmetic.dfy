/** Integer division facts that index arithmetic needs. */
module Arithmetic {
  lemma MulMonotone(a: nat, b: nat, c: nat)
    requires a <= b
    ensures a * c <= b * c
    ensures a >= 1 ==> a * c == (a - 1) * c + c
  {}

  // Quotient and remainder are determined by their equation.
  lemma DivModUnique(x: nat, d: nat, q: nat, r: nat)
    requires r < d && x == q * d + r
    ensures x / d == q && x % d == r
  {
    var q', r' := x / d, x % d;
    assert x == q' * d + r';
    if q' > q {
      MulMonotone(q + 1, q', d);
    } else if q' < q {
      MulMonotone(q' + 1, q, d);
    }
  }

  function Quotient(x: nat, d: nat): nat
    requires d > 0
  {
    x / d
  }

  lemma DivMod(x: nat, d: nat)
    requires d > 0
    ensures x == (x / d) * d + x % d
  {}

  lemma SmallMod(x: nat, d: nat)
    requires x < d
    ensures x % d == x && x / d == 0
  {}

  // Two digits base p.
  lemma TwoDigits(l: nat, r: nat, p: nat)
    requires l < p && r < p
    ensures l * p + r < p * p
    ensures (l * p + r) / p % p == l && (l * p + r) % p == r
  {
    MulMonotone(l + 1, p, p);
    DivModUnique(l * p + r, p, l, r);
    SmallMod(l, p);
  }

  lemma DigitsOf(x: nat, p: nat)
    requires x < p * p
    ensures p > 0 && x / p < p && x / p % p == x / p && x == (x / p) * p + x % p
  {
    DivMod(x, p);
    if x / p >= p {
      MulMonotone(p, x / p, p);
    }
    SmallMod(x / p, p);
  }

  function Pow2(k: nat): (p: nat)
    ensures p > 0
  {
    if k == 0 then 1 else 2 * Pow2(k - 1)
  }

  lemma PowNone()
    ensures Pow2(0) == 1
  {}

  lemma Pow2Once(k: nat)
    ensures Pow2(k + 1) == 2 * Pow2(k)
  {}

  lemma {:induction false} Pow2Sum(a: nat, b: nat)
    ensures Pow2(a + b) == Pow2(a) * Pow2(b)
    decreases b
  {
    if b > 0 {
      Pow2Sum(a, b - 1);
      assert a + b - 1 == a + (b - 1);
      calc {
        Pow2(a + b);
        2 * Pow2(a + (b - 1));
        2 * (Pow2(a) * Pow2(b - 1));
        Pow2(a) * (2 * Pow2(b - 1));
      }
    }
  }

  lemma {:induction false} Pow2Monotone(a: nat, b: nat)
    requires a <= b
    ensures Pow2(a) <= Pow2(b)
  {
    if a < b {
      Pow2Monotone(a, b - 1);
    }
  }

  // Which of `rows` rows of `width` cells a cell lies in.
  lemma RowOf(x: nat, width: nat, rows: nat)
    requires x < rows * width
    ensures width > 0 && x / width < rows && x % width < width && x == (x / width) * width + x % width
  {
    DivMod(x, width);
    if x / width >= rows {
      MulMonotone(rows, x / width, width);
    }
  }

  // A cell of an earlier row ends before the last row does.
  lemma CellBound(row: nat, rows: nat, stride: nat, c: nat, rowBytes: nat, size: nat)
    requires row < rows && c < rowBytes && (rows - 1) * stride + rowBytes <= size
    ensures row * stride + c < size
  {
    MulMonotone(row, rows - 1, stride);
  }

  // Dividing twice is dividing by the product.
  lemma DivideTwice(n: nat, a: nat, p: nat)
    requires a > 0 && p > 0
    ensures n / a / p == n / (a * p)
  {
    var q, r := n / a, n % a;
    DivMod(n, a);
    DivMod(q, p);
    MulMonotone(q % p + 1, p, a);
    DivModUnique(n, a * p, q / p, (q % p) * a + r) by {
      assert n == ((q / p) * p + q % p) * a + r;
      assert ((q / p) * p) * a == (q / p) * (a * p);
    }
  }
}
