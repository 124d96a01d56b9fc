/** The range of 64-bit integers, and facts about products that the solver does not find by itself. */
module Arithmetic {

  const I64_MIN: int := -0x8000_0000_0000_0000
  const I64_MAX: int := 0x7fff_ffff_ffff_ffff

  lemma MulPositive(a: int, b: int)
    requires a >= 0 && b >= 0
    ensures a * b >= 0
  {}

  lemma MulMonotone(a: int, b: int, c: int)
    requires a <= b && c >= 0
    ensures a * c <= b * c
  {
    MulPositive(b - a, c);
    assert (b - a) * c == b * c - a * c;
  }

  /** A quotient is known from a multiple and a rest. */
  lemma DivUnique(n: int, d: int, q: int, r: int)
    requires d > 0 && n == q * d + r && 0 <= r < d
    ensures n / d == q && n % d == r
  {
    var q', r' := n / d, n % d;
    assert n == q' * d + r';
    if q' < q {
      MulMonotone(q' + 1, q, d);
    } else if q' > q {
      MulMonotone(q + 1, q', d);
    }
  }

  lemma DivExact(n: nat, d: nat)
    requires d > 0
    ensures n * d / d == n
  {
    DivUnique(n * d, d, n, 0);
  }

  lemma MulAtMost(a: nat, b: nat, d: nat)
    requires d > 0
    ensures Mul(a, d) + d <= Mul(b, d) <==> a < b
  {
    assert (a + 1) * d == a * d + d;
    if a < b { MulMonotone(a + 1, b, d); } else { MulMonotone(b, a, d); }
  }

  /** A product, named so that it can be hidden. */
  function Mul(a: nat, b: nat): (c: nat) { a * b }

  lemma MulStep(a: nat, d: nat)
    ensures Mul(0, d) == 0 && Mul(a + 1, d) == Mul(a, d) + d
  {
    assert (a + 1) * d == a * d + d;
  }

  lemma MulSplit(a: nat, b: nat, d: nat)
    ensures Mul(a + b, d) == Mul(a, d) + Mul(b, d)
  {
    assert (a + b) * d == a * d + b * d;
  }

  lemma MulDiv(a: nat, d: nat)
    requires d > 0
    ensures Mul(a, d) / d == a
  {
    DivExact(a, d);
  }

  lemma DivHalf(b: nat, p: nat)
    requires p > 0
    ensures 2 * (b / (2 * p)) <= b / p
  {
    var q, q' := b / (2 * p), b / p;
    assert b == q * (2 * p) + b % (2 * p) && b == q' * p + b % p;
    assert q * (2 * p) == 2 * q * p && (q' + 1) * p == q' * p + p;
    if 2 * q > q' {
      MulMonotone(q' + 1, 2 * q, p);
    }
  }

  lemma ModStep(n: nat, d: nat)
    requires n > 0 && d > 0
    ensures n % d != 0 ==> (n - 1) % d == n % d - 1
    ensures n % d == 0 ==> n >= d && (n - 1) % d == d - 1
  {
    var q, r := n / d, n % d;
    assert n == q * d + r;
    if r != 0 {
      DivUnique(n - 1, d, q, r - 1);
    } else {
      assert n == (q - 1) * d + d;
      DivUnique(n - 1, d, q - 1, d - 1);
      MulMonotone(1, q, d);
    }
  }

  lemma MultiplesApart(a: nat, b: nat, d: nat)
    requires d > 0 && a % d == 0 && b % d == 0 && a < b
    ensures a + d <= b
  {
    assert a == (a / d) * d && b == (b / d) * d;
    assert (a / d + 1) * d == a + d;
    if b / d < a / d + 1 { MulMonotone(b / d, a / d, d); } else { MulMonotone(a / d + 1, b / d, d); }
  }

  lemma MulTwice(a: nat, x: nat)
    ensures Mul(a, 2 * x) == 2 * Mul(a, x) && Mul(2 * a, x) == 2 * Mul(a, x)
    ensures Mul(a, 1) == a && Mul(1, x) == x && Mul(a, 0) == 0 && Mul(0, x) == 0
  {
    assert a * (2 * x) == 2 * (a * x) && (2 * a) * x == 2 * (a * x);
  }

  lemma MulIs(a: nat, b: nat)
    ensures Mul(a, b) == a * b
  {}

  lemma MulSwap(a: nat, b: nat)
    ensures Mul(a, b) == Mul(b, a)
  {}

  lemma MulGroup(a: nat, b: nat, c: nat)
    ensures Mul(Mul(a, b), c) == Mul(a, Mul(b, c))
  {
    assert (a * b) * c == a * (b * c);
  }

  lemma DivMod(n: nat, d: nat)
    requires d > 0
    ensures n == Mul(n / d, d) + n % d
  {}

  lemma MulDivUnique(n: nat, d: nat, q: nat, r: nat)
    requires d > 0 && n == Mul(q, d) + r && r < d
    ensures n / d == q && n % d == r
  {
    DivUnique(n, d, q, r);
  }

  lemma MulOrder(a: nat, b: nat, c: nat)
    requires a <= b
    ensures Mul(c, a) <= Mul(c, b)
  {
    MulMonotone(a, b, c);
    MulSwap(a, c);
    MulSwap(b, c);
  }

  lemma DivPositive(n: nat, d: nat)
    requires d > 0
    ensures n / d >= 0
  {}
}
