/** Integer facts shared by the numeric modules: powers, products, quotients and machine-word wrap-around. */
module Arithmetic {

  const TWO32: int := 0x1_0000_0000
  const TWO64: int := 0x1_0000_0000_0000_0000

  type Byte = x: int | 0 <= x < 256
  type Uint32 = x: int | 0 <= x < TWO32
  type Uint64 = x: int | 0 <= x < TWO64

  /** Truncation of an unsigned result to 32 bits, as a cast to uint32_t does. */
  function Wrap32(x: int): (r: Uint32) {
    x % TWO32
  }

  /** Truncation of an unsigned result to 64 bits, as uint64_t arithmetic does. */
  function Wrap64(x: int): (r: Uint64) {
    x % TWO64
  }

  function Min(x: int, y: int): int {
    if x <= y then x else y
  }

  function Max(x: int, y: int): int {
    if x >= y then x else y
  }

  function Abs(x: int): nat {
    if x < 0 then -x else x
  }

  function Pow(b: nat, e: nat): nat {
    if e == 0 then 1 else b * Pow(b, e - 1)
  }

  lemma MulMono(x: int, y: int, z: int)
    requires x <= y && 0 <= z
    ensures x * z <= y * z
  {
  }

  lemma MulStrictMono(x: int, y: int, z: int)
    requires x < y && 0 < z
    ensures x * z < y * z
  {
  }

  lemma {:induction false} PowPositive(b: nat, e: nat)
    requires b > 0
    ensures Pow(b, e) > 0
  {
    if e > 0 {
      PowPositive(b, e - 1);
      MulMono(1, b, Pow(b, e - 1));
    }
  }

  lemma {:induction false} PowAdd(b: nat, m: nat, n: nat)
    ensures Pow(b, m + n) == Pow(b, m) * Pow(b, n)
  {
    if m > 0 {
      PowAdd(b, m - 1, n);
      assert Pow(b, m + n) == b * Pow(b, m - 1 + n);
      MulAssoc(b, Pow(b, m - 1), Pow(b, n));
    }
  }

  lemma MulAssoc(x: int, y: int, z: int)
    ensures (x * y) * z == x * (y * z)
  {
  }

  lemma MulRearrange(a: int, b: int, c: int)
    ensures (a * b) * c == (a * c) * b
  {
    MulAssoc(a, b, c);
    MulAssoc(a, c, b);
    assert b * c == c * b;
  }

  lemma Distribute(x: int, y: int, a: int)
    ensures (x + y) * a == x * a + y * a
    ensures a * (x + y) == a * x + a * y
  {
  }

  lemma MulCongruent(x: int, y: int, z: int)
    requires x == y
    ensures x * z == y * z
  {
  }

  lemma {:induction false} PowMul(b: nat, m: nat, n: nat)
    ensures Pow(b, m * n) == Pow(Pow(b, m), n)
  {
    if n > 0 {
      PowMul(b, m, n - 1);
      assert m * n == m + m * (n - 1);
      PowAdd(b, m, m * (n - 1));
    }
  }

  lemma {:induction false} PowBaseMul(a: nat, b: nat, e: nat)
    ensures Pow(a * b, e) == Pow(a, e) * Pow(b, e)
  {
    if e > 0 {
      PowBaseMul(a, b, e - 1);
      MulSwap(a, b, Pow(a, e - 1), Pow(b, e - 1));
    }
  }

  lemma MulSwap(a: int, b: int, x: int, y: int)
    ensures (a * b) * (x * y) == (a * x) * (b * y)
  {
    MulAssoc(a, b, x * y);
    MulAssoc(b, x, y);
    MulAssoc(x, b, y);
    MulAssoc(a, x, b * y);
  }

  lemma {:induction false} PowMono(b: nat, m: nat, n: nat)
    requires b > 0 && m <= n
    ensures Pow(b, m) <= Pow(b, n)
  {
    PowAdd(b, m, n - m);
    PowPositive(b, m);
    PowPositive(b, n - m);
    MulMono(1, Pow(b, n - m), Pow(b, m));
  }

  lemma {:induction false} PowStrictMono(b: nat, m: nat, n: nat)
    requires b > 1 && m < n
    ensures Pow(b, m) < Pow(b, n)
  {
    PowMono(b, m, n - 1);
    PowPositive(b, n - 1);
    MulStrictMono(1, b, Pow(b, n - 1));
  }

  /** The exponent can be read off a power. */
  lemma PowInverse(b: nat, m: nat, n: nat)
    requires b > 1 && Pow(b, m) <= Pow(b, n)
    ensures m <= n
  {
    if m > n {
      PowStrictMono(b, n, m);
    }
  }

  /** Quotient and remainder are determined by the division identity. */
  lemma DivModUnique(x: int, d: int, q: int, r: int)
    requires d > 0 && x == q * d + r && 0 <= r < d
    ensures x / d == q && x % d == r
  {
    var e := x / d - q;
    assert x == (x / d) * d + x % d;
    assert e * d == r - x % d by { assert e * d == (x / d) * d - q * d; }
    if e > 0 {
      MulMono(1, e, d);
    } else if e < 0 {
      MulMono(e, -1, d);
    }
  }

  /** Dividing by a product is dividing twice. */
  lemma DivDiv(x: nat, a: nat, b: nat)
    requires a > 0 && b > 0
    ensures a * b > 0 && x / (a * b) == x / a / b
    ensures x % (a * b) == x / a % b * a + x % a
  {
    MulMono(1, b, a);
    var q, r := x / a / b, x / a % b;
    assert x == (x / a) * a + x % a;
    assert x / a == q * b + r;
    assert (q * b + r) * a == q * (a * b) + r * a;
    MulMono(r, b - 1, a);
    assert (b - 1) * a == a * b - a;
    DivModUnique(x, a * b, q, r * a + x % a);
  }

  lemma ModAddMultiple(x: int, k: int, m: int)
    requires m > 0
    ensures (x + k * m) % m == x % m
  {
    assert x + k * m == (x / m + k) * m + x % m by {
      assert x == (x / m) * m + x % m;
    }
    DivModUnique(x + k * m, m, x / m + k, x % m);
  }

  /** Numbers that differ by a multiple of m have the same remainder. */
  lemma ModEqIf(x: int, y: int, k: int, m: int)
    requires m > 0 && x == y + k * m
    ensures x % m == y % m
  {
    ModAddMultiple(y, k, m);
  }

  lemma ModMulLeft(x: int, y: int, m: int)
    requires m > 0
    ensures (x % m) * y % m == x * y % m
  {
    var a, r := x / m, x % m;
    assert x * y == r * y + (a * y) * m by {
      assert x == a * m + r;
      assert (a * m) * y == (a * y) * m;
    }
    ModAddMultiple(r * y, a * y, m);
  }

  /** A product may be reduced factor by factor. */
  lemma ModMul(x: int, y: int, m: int)
    requires m > 0
    ensures (x % m) * (y % m) % m == x * y % m
    ensures (x % m) * y % m == x * y % m
  {
    ModMulLeft(x, y, m);
    ModMulLeft(y, x % m, m);
    assert y * (x % m) == (x % m) * y && (y % m) * (x % m) == (x % m) * (y % m);
  }

  lemma ModAdd(x: int, y: int, m: int)
    requires m > 0
    ensures (x % m + y) % m == (x + y) % m
  {
    assert x == (x / m) * m + x % m;
    ModAddMultiple(x % m + y, x / m, m);
  }

  lemma ModMulCongruent(x: int, x': int, y: int, y': int, m: int)
    requires m > 0 && x % m == x' % m && y % m == y' % m
    ensures x * y % m == x' * y' % m
  {
    ModMul(x, y, m);
    ModMul(x', y', m);
  }

  lemma ModTwice(x: int, m: int)
    requires m > 0
    ensures x % m % m == x % m
  {
    DivModUnique(x % m, m, 0, x % m);
  }

  lemma {:induction false} PowMod(b: nat, e: nat, m: int)
    requires m > 0
    ensures Pow(b % m, e) % m == Pow(b, e) % m
  {
    if e > 0 {
      PowMod(b, e - 1, m);
      ModTwice(b, m);
      ModMulCongruent(b % m, b, Pow(b % m, e - 1), Pow(b, e - 1), m);
    }
  }

  lemma {:induction false} PowOdd(b: nat, e: nat)
    requires b % 2 == 1
    ensures Pow(b, e) % 2 == 1
  {
    if e > 0 {
      PowOdd(b, e - 1);
      ModMulCongruent(b, 1, Pow(b, e - 1), 1, 2);
    }
  }

  lemma CancelRight(x: int, y: int, z: int)
    requires z > 0
    ensures x * z == y * z ==> x == y
  {
    if x < y {
      MulStrictMono(x, y, z);
    } else if y < x {
      MulStrictMono(y, x, z);
    }
  }
}
