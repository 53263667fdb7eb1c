/**
  Machine-integer bounds and the integer facts the emulated-field chip rests on:
  Euclidean division is unique, reduction modulo n commutes with a
  multiply-accumulate, and the products of 64-bit values fit the widths the
  chip computes them in.
*/
module Arith {

  /** 2^64: one past the largest `u64`. */
  const U64: nat := 0x1_0000_0000_0000_0000

  /** 2^128: one past the largest `u128`. */
  const U128: nat := 0x1_0000_0000_0000_0000_0000_0000_0000_0000

  /** Rust's `u128`: arithmetic on it that leaves the range is an overflow. */
  newtype u128 = x: int | 0 <= x < 0x1_0000_0000_0000_0000_0000_0000_0000_0000

  /** Rust's `x as u64` on a non-negative value: keeps the low 64 bits. */
  function TruncateU64(x: nat): (r: nat)
    ensures r < U64
    ensures x < U64 ==> r == x
  {
    x % U64
  }

  /** 2^k: one past the largest value of `k` bits. */
  function Pow2(k: nat): (r: nat)
    ensures 0 < r
  {
    if k == 0 then 1 else 2 * Pow2(k - 1)
  }

  /** Widths add: 2^(i + j) == 2^i * 2^j. */
  lemma {:induction false} Pow2Add(i: nat, j: nat)
    ensures Pow2(i + j) == Pow2(i) * Pow2(j)
  {
    if j > 0 {
      Pow2Add(i, j - 1);
      assert Pow2(i + j) == 2 * Pow2(i + j - 1);
    }
  }

  /** The 64-bit width is the `u64` range. */
  lemma Pow2Of64()
    ensures Pow2(64) == U64
  {
    assert Pow2(1) == 2;
    Pow2Add(1, 1);
    assert Pow2(2) == 4;
    Pow2Add(2, 2);
    assert Pow2(4) == 0x10;
    Pow2Add(4, 4);
    assert Pow2(8) == 0x100;
    Pow2Add(8, 8);
    assert Pow2(16) == 0x1_0000;
    Pow2Add(16, 16);
    assert Pow2(32) == 0x1_0000_0000;
    Pow2Add(32, 32);
  }

  /** Multiplication is monotone in both (non-negative) arguments. */
  lemma MulLe(a: int, b: int, c: int, d: int)
    requires 0 <= a <= c && 0 <= b <= d
    ensures a * b <= c * d
  {
    assert c * b - a * b == (c - a) * b;
    assert c * d - c * b == c * (d - b);
  }

  /** A multiple of a positive p that lies strictly between -p and p is zero. */
  lemma SmallMultipleIsZero(p: int, k: int)
    requires 0 < p
    requires -p < p * k < p
    ensures k == 0
  {
    if k >= 1 {
      MulLe(p, 1, p, k);
    } else if k <= -1 {
      MulLe(p, 1, p, -k);
    }
  }

  /** Euclidean division is unique: any decomposition s == p*q + r with
      0 <= r < p is the one given by `/` and `%`. */
  lemma DivModUnique(s: int, p: int, q: int, r: int)
    requires 0 < p
    requires 0 <= r < p
    requires s == p * q + r
    ensures s / p == q && s % p == r
  {
    var q', r' := s / p, s % p;
    assert s == p * q' + r';
    assert p * (q - q') == r' - r;
    SmallMultipleIsZero(p, q - q');
  }

  /** A value already in [0, n) is its own residue. */
  lemma ModOfSmall(x: int, n: int)
    requires 0 <= x < n
    ensures x % n == x && x / n == 0
  {
    DivModUnique(x, n, 0, x);
  }

  /** Reduction never increases a non-negative value. */
  lemma ModLe(x: int, n: int)
    requires 0 <= x && 0 < n
    ensures x % n <= x
  {
    if x < n {
      ModOfSmall(x, n);
    }
  }

  /** Adding a multiple of n does not change the residue modulo n. */
  lemma ModAddMultiple(m: int, n: int, k: int)
    requires 0 < n
    ensures (m + n * k) % n == m % n
  {
    assert m == n * (m / n) + m % n;
    assert m + n * k == n * (m / n + k) + m % n;
    DivModUnique(m + n * k, n, m / n + k, m % n);
  }

  /** The product of two values written as n*q + r, expanded around n. */
  lemma MulExpand(qx: int, rx: int, qy: int, ry: int, n: int)
    ensures (n * qx + rx) * (n * qy + ry) == n * (qx * (n * qy + ry) + rx * qy) + rx * ry
  {
    assert (n * qx + rx) * (n * qy + ry) == n * qx * (n * qy + ry) + rx * (n * qy + ry);
    assert rx * (n * qy + ry) == n * (rx * qy) + rx * ry;
  }

  /** Reducing the operands of a multiply-accumulate modulo n first does not
      change the result modulo n. */
  lemma ModMulAdd(x: int, y: int, z: int, n: int)
    requires 0 < n
    ensures (x % n * (y % n) + z % n) % n == (x * y + z) % n
  {
    var qx, rx := x / n, x % n;
    var qy, ry := y / n, y % n;
    var qz, rz := z / n, z % n;
    assert x == n * qx + rx;
    assert y == n * qy + ry;
    assert z == n * qz + rz;
    MulExpand(qx, rx, qy, ry, n);
    var k := qx * y + rx * qy + qz;
    assert x * y == n * (qx * y + rx * qy) + rx * ry;
    assert x * y + z == rx * ry + rz + n * k;
    ModAddMultiple(rx * ry + rz, n, k);
  }

  /** The `u128` multiply-accumulate of three `u64` values never overflows:
      (2^64 - 1)^2 + (2^64 - 1) == 2^128 - 2^64. */
  lemma MulAddFitsU128(a: nat, b: nat, c: nat)
    requires a < U64 && b < U64 && c < U64
    ensures a * b < U128 && a * b + c < U128
  {
    MulLe(a, b, U64 - 1, U64 - 1);
  }

  /** With a, b, c below p, a*b + c stays below p^2. */
  lemma MulAddBelowSquare(a: nat, b: nat, c: nat, p: nat)
    requires a < p && b < p && c < p
    ensures a * b + c < p * p
  {
    MulLe(a, b, p - 1, p - 1);
    var t := (p - 1) * (p - 1);
    assert p * p == t + 2 * (p - 1) + 1;
  }

  /** With q and r below p, p*q + r stays below p^2. */
  lemma QuotientRemainderBelowSquare(q: nat, r: nat, p: nat)
    requires q < p && r < p
    ensures p * q + r < p * p
  {
    MulLe(p, q, p, p - 1);
    assert p * p == p * (p - 1) + p;
  }

  /** With operands below p, a*b + c <= p*(p-1), so the quotient by p is below p. */
  lemma {:induction false} MulAddQuotientBelow(a: nat, b: nat, c: nat, p: nat)
    requires a < p && b < p && c < p
    ensures a * b + c <= p * (p - 1)
    ensures (a * b + c) / p < p
  {
    MulLe(a, b, p - 1, p - 1);
    assert (p - 1) * (p - 1) + (p - 1) == p * (p - 1);
    var s := a * b + c;
    if s / p >= p {
      assert s == p * (s / p) + s % p;
      MulLe(p, p, p, s / p);
      assert false;
    }
  }
}
