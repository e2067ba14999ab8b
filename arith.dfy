/** Facts about powers, Euclidean division and remainders that the proofs of
    the octet encodings rely on. */
module Arith {

  function Pow256(n: nat): (r: nat)
    ensures r >= 1
  {
    if n == 0 then 1 else 256 * Pow256(n - 1)
  }

  function Pow128(n: nat): (r: nat)
    ensures r >= 1
  {
    if n == 0 then 1 else 128 * Pow128(n - 1)
  }

  lemma Pow256Values()
    ensures Pow256(0) == 1 && Pow256(1) == 0x100 && Pow256(2) == 0x1_0000
    ensures Pow256(3) == 0x100_0000 && Pow256(4) == 0x1_0000_0000
  {
  }

  lemma {:induction false} Pow256Monotone(m: nat, n: nat)
    requires m <= n
    ensures Pow256(m) <= Pow256(n)
  {
    if m < n {
      Pow256Monotone(m, n - 1);
    }
  }

  /** Quotient and remainder are determined by the division equation. */
  lemma DivModUnique(x: int, d: int, q: int, r: int)
    requires d > 0 && 0 <= r < d && x == q * d + r
    ensures x / d == q && x % d == r
  {
    var k := x / d - q;
    assert k * d == r - x % d;
    if k > 0 {
    } else if k < 0 {
    }
  }

  /** Dividing by a*b is dividing by a, then by b; the remainders compose. */
  lemma Breakdown(x: nat, a: nat, b: nat)
    requires a > 0 && b > 0
    ensures x / (a * b) == x / a / b
    ensures x % (a * b) == a * (x / a % b) + x % a
  {
    var q, r1 := x / a, x % a;
    var q2, r2 := q / b, q % b;
    assert x == (a * b) * q2 + (a * r2 + r1) by {
      assert x == a * q + r1;
      assert q == b * q2 + r2;
      assert a * q == a * (b * q2) + a * r2;
    }
    assert a * r2 <= a * (b - 1);
    DivModUnique(x, a * b, q2, a * r2 + r1);
  }

  /** x / d >= c exactly when x >= c * d. */
  lemma DivAtLeast(x: nat, d: nat, c: nat)
    requires d > 0
    ensures x / d >= c <==> x >= c * d
  {
    var q, r := x / d, x % d;
    assert x == q * d + r;
    if q >= c {
      assert (q - c) * d >= 0;
    } else {
      assert (c - 1 - q) * d >= 0;
    }
  }

  lemma {:induction false} Pow128Monotone(m: nat, n: nat)
    requires m <= n
    ensures Pow128(m) <= Pow128(n)
  {
    if m < n {
      Pow128Monotone(m, n - 1);
    }
  }

  /** Numbers that differ by a multiple of d leave the same remainder. */
  lemma ModCongruent(x: int, y: int, d: int)
    requires d > 0 && (x - y) % d == 0
    ensures x % d == y % d
  {
    var k := (x - y) / d;
    assert x - y == k * d;
    DivModUnique(x, d, y / d + k, y % d);
  }

  lemma MulModZero(m: int, d: int)
    requires d > 0
    ensures (m * d) % d == 0
  {
    DivModUnique(m * d, d, m, 0);
  }

  /** Scaling by a maps remainders modulo b to remainders modulo a*b. */
  lemma MulMod(x: int, a: nat, b: nat)
    requires a > 0 && b > 0
    ensures (x * a) % (a * b) == (x % b) * a
  {
    var q, r := x / b, x % b;
    assert x * a == (a * b) * q + r * a by {
      assert x == b * q + r;
    }
    assert r * a <= (b - 1) * a;
    DivModUnique(x * a, a * b, q, r * a);
  }

  /** Reducing modulo a*b and then modulo a is reducing modulo a. */
  lemma ModMod(x: int, a: nat, b: nat)
    requires a > 0 && b > 0
    ensures x % (a * b) % a == x % a
  {
    var q, r := x / (a * b), x % (a * b);
    assert x == a * (b * q) + r;
    DivModUnique(x, a, b * q + r / a, r % a);
  }

  lemma {:induction false} Pow256Add(m: nat, n: nat)
    ensures Pow256(m + n) == Pow256(m) * Pow256(n)
  {
    if m > 0 {
      Pow256Add(m - 1, n);
    }
  }

  /** Reassociating a scaled product (a left shift of a shifted value). */
  lemma Reassociate(a: int, b: int, c: int)
    ensures a * (c * b) == (a * b) * c
  {
  }

  lemma ScaleDifference(x: int, r: int, k: int, m: int, d: int)
    requires x - r == k * d
    ensures r * m == x * m - (k * m) * d
  {
    assert r == x - k * d;
    assert (x - k * d) * m == x * m - (k * d) * m;
  }

  lemma Distribute(a: int, p: int, u: int, m: int)
    ensures (a * p + u) * m == a * (m * p) + u * m
  {
  }

  lemma MulLeq(a: int, b: int, p: nat)
    requires a <= b
    ensures a * p <= b * p
  {
  }

  /** A digit below b followed by a remainder below p stays below b * p. */
  lemma DigitBelow(a: int, p: nat, u: int, b: int)
    requires 0 <= u < p && a < b
    ensures a * p + u < b * p
  {
    MulLeq(a + 1, b, p);
    assert (a + 1) * p == a * p + p;
  }

  lemma MulSub(a: int, b: int, h: int)
    ensures a * h - b * h == (a - b) * h
  {
  }

  /** With a digit u below the place value p, a * p + u reaches b * p
      exactly when a reaches b. */
  lemma LeadDigit(a: int, p: nat, u: int, b: int)
    requires 0 <= u < p
    ensures a >= b <==> a * p + u >= b * p
  {
    if a >= b {
      MulLeq(b, a, p);
    } else {
      DigitBelow(a, p, u, b);
    }
  }

  /** Clearing the top bit of the leading digit b of x = b * h + u. */
  lemma ClearLead(b: int, h: int, u: int, x: int, y: int)
    requires 0 <= b < 256
    requires x == b * h + u && y == (b % 128) * h + u
    ensures y == x - (if b >= 128 then 128 * h else 0)
  {
    MulSub(b, b % 128, h);
    if b >= 128 {
      assert b - b % 128 == 128;
    } else {
      assert b % 128 == b;
    }
  }
}
