/** Division by multiplying with a modular inverse: divisibility tests and the removal of trailing zeros. */
module ModularInverse {
  import opened Arithmetic

  /** inv undoes multiplication by d modulo m, and maxQuotient is the largest quotient by d. */
  predicate IsInverse(d: nat, inv: nat, maxQuotient: nat, m: nat) {
    0 < d <= m && d * inv % m == 1 % m && maxQuotient == (m - 1) / d
  }

  /** x * inv mod m is small exactly when d divides x, and then it is the quotient. */
  lemma InverseDivides(x: nat, d: nat, inv: nat, maxQuotient: nat, m: nat)
    requires IsInverse(d, inv, maxQuotient, m) && x < m
    ensures x * inv % m <= maxQuotient <==> x % d == 0
    ensures x % d == 0 ==> x * inv % m == x / d
  {
    if x % d == 0 {
      var q := x / d;
      assert x == d * q;
      QuotientBelow(q, d, m);
      UndoProduct(q, d, inv, m);
    } else if x * inv % m <= maxQuotient {
      TimesInverse(x, d, inv, m);
      SmallProduct(x * inv % m, d, maxQuotient, m);
      DivModUnique(x, m, 0, x);
      MultipleOf(x, d, x * inv % m);
    }
  }

  lemma MultipleOf(x: nat, d: nat, y: nat)
    requires d > 0 && x == d * y
    ensures x % d == 0
  {
    DivModUnique(x, d, y, 0);
  }

  lemma SmallProduct(y: nat, d: nat, maxQuotient: nat, m: nat)
    requires d > 0 && m > 0 && y <= maxQuotient == (m - 1) / d
    ensures d * y % m == d * y
  {
    MulMono(y, maxQuotient, d);
    assert m - 1 == maxQuotient * d + (m - 1) % d;
    DivModUnique(d * y, m, 0, d * y);
  }

  lemma QuotientBelow(q: nat, d: nat, m: nat)
    requires d > 0 && d * q < m
    ensures q <= (m - 1) / d && q < m
  {
    MulMono(1, d, q);
    var k := (m - 1) / d;
    assert m - 1 == k * d + (m - 1) % d;
    assert (k + 1) * d == k * d + d;
    if q > k {
      MulMono(k + 1, q, d);
    }
  }

  /** d * (x * inv) is x again, modulo m. */
  lemma TimesInverse(x: nat, d: nat, inv: nat, m: nat)
    requires m > 0 && d * inv % m == 1 % m
    ensures d * (x * inv % m) % m == x % m
  {
    ModMulLeft(x * inv, d, m);
    assert (x * inv % m) * d == d * (x * inv % m);
    assert (x * inv) * d == (d * inv) * x by {
      MulAssoc(x, inv, d);
      assert x * (inv * d) == (inv * d) * x && inv * d == d * inv;
    }
    ModMulCongruent(d * inv, 1, x, x, m);
  }

  lemma UndoProduct(q: nat, d: nat, inv: nat, m: nat)
    requires m > 0 && d * inv % m == 1 % m && q < m
    ensures (d * q) * inv % m == q
  {
    assert (d * q) * inv == (d * inv) * q by {
      MulAssoc(d, q, inv);
      MulAssoc(d, inv, q);
      assert q * inv == inv * q;
    }
    ModMulCongruent(d * inv, 1, q, q, m);
    DivModUnique(q, m, 0, q);
  }

  const MOD_INVERSES_32: seq<int> := [
    0x00000001, 0xcccccccd, 0xc28f5c29, 0x26e978d5, 0x3afb7e91, 0x0bcbe61d,
    0x68c26139, 0xae8d46a5, 0x22e90e21, 0x3a2e9c6d, 0x3ed61f49]

  const MAX_QUOTIENTS_32: seq<int> := [
    0xffffffff, 0x33333333, 0x0a3d70a3, 0x020c49ba, 0x0068db8b, 0x0014f8b5,
    0x000431bd, 0x0000d6bf, 0x00002af3, 0x00000897, 0x000001b7]

  const MOD_INVERSES_64: seq<int> := [
    0x0000000000000001, 0xcccccccccccccccd, 0x8f5c28f5c28f5c29, 0x1cac083126e978d5,
    0xd288ce703afb7e91, 0x5d4e8fb00bcbe61d, 0x790fb65668c26139, 0xe5032477ae8d46a5,
    0xc767074b22e90e21, 0x8e47ce423a2e9c6d, 0x4fa7f60d3ed61f49, 0x0fee64690c913975,
    0x3662e0e1cf503eb1, 0xa47a2cf9f6433fbd, 0x54186f653140a659, 0x7738164770402145,
    0xe4a4d1417cd9a041, 0xc75429d9e5c5200d, 0xc1773b91fac10669, 0x26b172506559ce15,
    0xd489e3a9addec2d1, 0x90e860bb892c8d5d, 0x502e79bf1b6f4f79, 0xdcd618596be30fe5]

  const MAX_QUOTIENTS_64: seq<int> := [
    0xffffffffffffffff, 0x3333333333333333, 0x0a3d70a3d70a3d70, 0x020c49ba5e353f7c,
    0x0068db8bac710cb2, 0x0014f8b588e368f0, 0x000431bde82d7b63, 0x0000d6bf94d5e57a,
    0x00002af31dc46118, 0x0000089705f4136b, 0x000001b7cdfd9d7b, 0x00000057f5ff85e5,
    0x000000119799812d, 0x0000000384b84d09, 0x00000000b424dc35, 0x0000000024075f3d,
    0x000000000734aca5, 0x000000000170ef54, 0x000000000049c977, 0x00000000000ec1e4,
    0x000000000002f394, 0x000000000000971d, 0x0000000000001e39, 0x000000000000060b]

  lemma PowersOf5()
    ensures Pow(5, 0) == 1 && Pow(5, 1) == 5 && Pow(5, 2) == 25 && Pow(5, 3) == 125
    ensures Pow(5, 4) == 625 && Pow(5, 5) == 3125 && Pow(5, 6) == 15625 && Pow(5, 7) == 78125
    ensures Pow(5, 8) == 390625 && Pow(5, 9) == 1953125 && Pow(5, 10) == 9765625
  {
    assert Pow(5, 8) == 390625;
  }

  /** Every entry of the 32-bit table is an inverse with its largest quotient. */
  lemma Table32(exp: nat)
    requires exp <= 10
    ensures IsInverse(Pow(5, exp), MOD_INVERSES_32[exp], MAX_QUOTIENTS_32[exp], TWO32)
  {
    PowersOf5();
  }

  function DivisibleByPowerOf5_32(x: Uint32, exp: nat): (r: bool)
    requires exp <= 10
    ensures r <==> x % Pow5(exp) == 0
  {
    Table32(exp);
    InverseDivides(x, Pow(5, exp), MOD_INVERSES_32[exp], MAX_QUOTIENTS_32[exp], TWO32);
    Wrap32(x * MOD_INVERSES_32[exp]) <= MAX_QUOTIENTS_32[exp]
  }

  function Pow5(e: nat): (p: nat)
    ensures p > 0
  {
    PowPositive(5, e);
    Pow(5, e)
  }

  lemma MorePowersOf5()
    ensures Pow(5, 11) == 48828125 && Pow(5, 12) == 244140625 && Pow(5, 13) == 1220703125
    ensures Pow(5, 14) == 6103515625 && Pow(5, 15) == 30517578125 && Pow(5, 16) == 152587890625
    ensures Pow(5, 17) == 762939453125 && Pow(5, 18) == 3814697265625 && Pow(5, 19) == 19073486328125
    ensures Pow(5, 20) == 95367431640625 && Pow(5, 21) == 476837158203125
    ensures Pow(5, 22) == 2384185791015625 && Pow(5, 23) == 11920928955078125
  {
    PowersOf5();
    PowAdd(5, 8, 6);
    PowAdd(5, 8, 8);
    PowAdd(5, 10, 10);
    assert Pow(5, 17) == 5 * Pow(5, 16) && Pow(5, 18) == 5 * Pow(5, 17) && Pow(5, 19) == 5 * Pow(5, 18);
    assert Pow(5, 21) == 5 * Pow(5, 20) && Pow(5, 22) == 5 * Pow(5, 21) && Pow(5, 23) == 5 * Pow(5, 22);
    assert Pow(5, 11) == 5 * Pow(5, 10) && Pow(5, 12) == 5 * Pow(5, 11) && Pow(5, 13) == 5 * Pow(5, 12);
    assert Pow(5, 15) == 5 * Pow(5, 14);
  }

  lemma Table64Low(exp: nat)
    requires exp <= 10
    ensures IsInverse(Pow(5, exp), MOD_INVERSES_64[exp], MAX_QUOTIENTS_64[exp], TWO64)
  {
    PowersOf5();
  }

  lemma Table64High(exp: nat)
    requires 11 <= exp <= 23
    ensures IsInverse(Pow(5, exp), MOD_INVERSES_64[exp], MAX_QUOTIENTS_64[exp], TWO64)
  {
    MorePowersOf5();
  }

  /** Every entry of the 64-bit table is an inverse with its largest quotient. */
  lemma Table64(exp: nat)
    requires exp <= 23
    ensures IsInverse(Pow(5, exp), MOD_INVERSES_64[exp], MAX_QUOTIENTS_64[exp], TWO64)
  {
    if exp <= 10 {
      Table64Low(exp);
    } else {
      Table64High(exp);
    }
  }

  function DivisibleByPowerOf5_64(x: Uint64, exp: nat): (r: bool)
    requires exp <= 23
    ensures r <==> x % Pow5(exp) == 0
  {
    Table64(exp);
    InverseDivides(x, Pow(5, exp), MOD_INVERSES_64[exp], MAX_QUOTIENTS_64[exp], TWO64);
    Wrap64(x * MOD_INVERSES_64[exp]) <= MAX_QUOTIENTS_64[exp]
  }

  // ---- Removing trailing zeros ----

  /** Number of zero bits below the lowest one bit. */
  function TrailingZeroBits(n: nat): nat
    requires n > 0
  {
    if n % 2 == 1 then 0 else 1 + TrailingZeroBits(n / 2)
  }

  /** What the zero bits leave. */
  function OddPart(n: nat): nat
    requires n > 0
  {
    if n % 2 == 1 then n else OddPart(n / 2)
  }

  lemma PullTwo(y: int, p: int)
    ensures y * (2 * p) == 2 * (y * p)
  {
  }

  lemma {:induction false} OddPartMeans(n: nat)
    requires n > 0
    ensures n == OddPart(n) * Pow(2, TrailingZeroBits(n)) && OddPart(n) % 2 == 1
  {
    if n % 2 == 0 {
      OddPartMeans(n / 2);
      PullTwo(OddPart(n), Pow(2, TrailingZeroBits(n / 2)));
    } else {
      assert Pow(2, 0) == 1;
    }
  }

  /** Capping the count of zero bits keeps that many factors of two. */
  lemma CappedFactors(y: nat, cap: nat, t: nat)
    requires cap <= t
    ensures y * Pow(2, t) == (y * Pow(2, t - cap)) * Pow(2, cap)
  {
    PowAdd(2, t - cap, cap);
    MulAssoc(y, Pow(2, t - cap), Pow(2, cap));
  }

  lemma TwiceFive(z: int)
    ensures 2 * z % 5 == 0 <==> z % 5 == 0
  {
  }

  /** A factor of five is not among the factors of two. */
  lemma {:induction false} FiveThrough(y: nat, t: nat)
    ensures y * Pow(2, t) % 5 == 0 <==> y % 5 == 0
  {
    if t > 0 {
      FiveThrough(y, t - 1);
      PullTwo(y, Pow(2, t - 1));
      TwiceFive(y * Pow(2, t - 1));
    }
  }

  /** n0 is x times 5^s, and x is y times 2^t. */
  predicate Stripped(n0: nat, x: nat, s: nat, y: nat, t: nat) {
    n0 == x * Pow(5, s) && x == y * Pow(2, t) && s <= t
  }

  lemma StripFive(n0: nat, x: nat, s: nat, y: nat, t: nat)
    requires Stripped(n0, x, s, y, t) && s < t && x % 5 == 0
    ensures y % 5 == 0 && Stripped(n0, x / 5, s + 1, y / 5, t)
    ensures y % 2 == 1 ==> y / 5 % 2 == 1
  {
    assert Pow(5, s + 1) == 5 * Pow(5, s);
    hide Pow;
    FiveThrough(y, t);
    StripFactors(x, y, Pow(2, t), Pow(5, s));
    OddQuotient(y, y / 5);
  }

  lemma OddQuotient(y: nat, z: nat)
    requires y == 5 * z
    ensures y % 2 == 1 ==> z % 2 == 1
  {
    if z % 2 == 0 {
      ModEqIf(y, 0, 5 * (z / 2), 2);
    }
  }

  lemma StripFactors(x: nat, y: nat, p2: nat, p5: nat)
    requires x == y * p2 && x % 5 == 0 && y % 5 == 0
    ensures x / 5 == (y / 5) * p2 && x * p5 == (x / 5) * (5 * p5)
  {
    var z, w := y / 5, x / 5;
    MulCongruent(y, 5 * z, p2);
    MulCongruent(x, w * 5, p5);
    MulAssoc(5, z, p2);
    MulAssoc(w, 5, p5);
  }

  /** Shifting out the factors of two leaves n0 without s trailing zeros. */
  lemma ShiftOut(n0: nat, x: nat, s: nat, y: nat, t: nat)
    requires Stripped(n0, x, s, y, t)
    ensures Pow(2, s) > 0 && x / Pow(2, s) == y * Pow(2, t - s)
    ensures n0 == (y * Pow(2, t - s)) * Pow(10, s)
  {
    PowPositive(2, s);
    CappedFactors(y, s, t);
    DivModUnique(x, Pow(2, s), y * Pow(2, t - s), 0);
    PowBaseMul(2, 5, s);
    MulAssoc(y * Pow(2, t - s), Pow(2, s), Pow(5, s));
  }

  /** No zero is left: five does not divide, or all factors of two are used up. */
  lemma NoZeroLeft(y: nat, k: nat)
    requires y % 5 != 0 || (k == 0 && y % 2 == 1)
    ensures y * Pow(2, k) % 10 != 0
  {
    FiveThrough(y, k);
    assert Pow(2, 0) == 1;
    hide Pow;
    TenDivides(y * Pow(2, k));
    assert k == 0 ==> y * Pow(2, k) == y;
  }

  lemma TenDivides(x: nat)
    ensures x % 10 == 0 ==> x % 5 == 0 && x % 2 == 0
  {
    if x % 10 == 0 {
      ModEqIf(x, 0, 2 * (x / 10), 5);
      ModEqIf(x, 0, 5 * (x / 10), 2);
    }
  }

  /** x is n0 without s factors of five and still has t factors of two: all of them, unless capped. */
  ghost predicate Strippable(n0: nat, x: nat, s: nat, t: nat, cap: nat) {
    t <= cap && exists y: nat :: Stripped(n0, x, s, y, t) && (t < cap ==> y % 2 == 1)
  }

  lemma StripStart(n0: nat, cap: nat)
    requires n0 > 0
    ensures Strippable(n0, n0, 0, if TrailingZeroBits(n0) > cap then cap else TrailingZeroBits(n0), cap)
  {
    OddPartMeans(n0);
    var y, t := OddPart(n0), TrailingZeroBits(n0);
    assert Pow(5, 0) == 1;
    if t > cap {
      CappedFactors(y, cap, t);
      assert Stripped(n0, n0, 0, y * Pow(2, t - cap), cap);
    } else {
      assert Stripped(n0, n0, 0, y, t);
    }
  }

  lemma StripOne(n0: nat, x: nat, s: nat, t: nat, cap: nat)
    requires Strippable(n0, x, s, t, cap) && s < t && x % 5 == 0
    ensures Strippable(n0, x / 5, s + 1, t, cap)
  {
    var y: nat :| Stripped(n0, x, s, y, t) && (t < cap ==> y % 2 == 1);
    StripFive(n0, x, s, y, t);
  }

  /** What the final shift returns, when as many fives as possible were divided out. */
  lemma ShiftedResult(n0: nat, x: nat, s: nat, t: nat, cap: nat) returns (r: nat)
    requires Strippable(n0, x, s, t, cap)
    requires s == t || x % 5 != 0
    ensures Pow(2, s) > 0 && x / Pow(2, s) == r <= x
    ensures n0 == r * Pow(10, s)
    ensures s < cap ==> r % 10 != 0
  {
    var y: nat :| Stripped(n0, x, s, y, t) && (t < cap ==> y % 2 == 1);
    r := y * Pow(2, t - s);
    FiveThrough(y, t);
    ShiftOut(n0, x, s, y, t);
    if s < cap {
      NoZeroLeft(y, t - s);
    }
    CappedFactors(y, s, t);
    MulMono(1, Pow(2, s), r);
  }

  const MOD_INV_5: Uint32 := 0xcccccccd
  const MAX_QUOTIENT_5: Uint32 := 0x33333333
  const MOD_INV_25: Uint32 := 0xc28f5c29
  const MAX_QUOTIENT_25: Uint32 := 0x0a3d70a3
  const MOD_INV_5_TO_8: Uint64 := 0xc767074b22e90e21
  const MAX_QUOTIENT_5_TO_8: Uint64 := 0x00002af31dc46118

  /** Tests and divides by five in one multiplication modulo 2^32. */
  method DivideByFive(x: Uint32) returns (exact: bool, q: Uint32)
    ensures exact <==> x % 5 == 0
    ensures exact ==> q == x / 5
  {
    InverseDivides(x, 5, MOD_INV_5, MAX_QUOTIENT_5, TWO32);
    q := Wrap32(x * MOD_INV_5);
    exact := q <= MAX_QUOTIENT_5;
  }

  lemma TwiceByFive(x: nat)
    ensures x % 25 == 0 <==> x % 5 == 0 && x / 5 % 5 == 0
    ensures x / 25 == x / 5 / 5
  {
  }

  /** The same for twenty-five. */
  method DivideByTwentyFive(x: Uint32) returns (exact: bool, q: Uint32)
    ensures exact <==> x % 5 == 0 && x / 5 % 5 == 0
    ensures exact ==> q == x / 5 / 5
  {
    InverseDivides(x, 25, MOD_INV_25, MAX_QUOTIENT_25, TWO32);
    TwiceByFive(x);
    q := Wrap32(x * MOD_INV_25);
    exact := q <= MAX_QUOTIENT_25;
  }

  /** The final shift, by as many bits as factors of five were divided out. */
  method ShiftRight(ghost n0: nat, x: Uint32, s: nat, ghost t: nat, ghost cap: nat) returns (n: Uint32)
    requires Strippable(n0, x, s, t, cap)
    requires s == t || x % 5 != 0
    ensures n0 == n * Pow(10, s)
    ensures s < cap ==> n % 10 != 0
  {
    ghost var r := ShiftedResult(n0, x, s, t, cap);
    n := x / Pow(2, s);
  }

  lemma PowersOf10()
    ensures Pow(10, 8) == 100000000 && Pow(10, 17) == 100000000000000000
  {
    assert Pow(10, 4) == 10000;
    PowAdd(10, 4, 4);
    PowAdd(10, 8, 8);
    assert Pow(10, 17) == 10 * Pow(10, 16);
  }

  /** Removing as many zeros as the cap allows leaves none in a number with at most one digit more. */
  lemma AllZerosRemoved(n0: nat, n: nat, s: nat, cap: nat)
    requires 0 < n0 == n * Pow(10, s) && n0 < Pow(10, cap + 1) && (s == cap || n % 10 != 0)
    ensures n % 10 != 0
  {
    if s == cap {
      assert n != 0;
      if n >= 10 {
        MulMono(10, n, Pow(10, cap));
      }
    }
  }

  const MAX_TRAILING_ZEROS_FLOAT: nat := 7

  /** For 32-bit significands: steps of 25, then one of 5, then a shift. */
  method RemoveTrailingZeros32(n0: Uint32) returns (n: Uint32, s: nat)
    requires n0 > 0
    ensures n0 == n * Pow(10, s) && s <= MAX_TRAILING_ZEROS_FLOAT
    ensures s == MAX_TRAILING_ZEROS_FLOAT || n % 10 != 0
    ensures n0 < 100000000 ==> n % 10 != 0
  {
    var t := TrailingZeroBits(n0);
    StripStart(n0, MAX_TRAILING_ZEROS_FLOAT);
    if t > MAX_TRAILING_ZEROS_FLOAT {
      t := MAX_TRAILING_ZEROS_FLOAT;
    }
    n, s := n0, 0;
    var more := true;
    while more && s < t - 1
      invariant s <= t && Strippable(n0, n, s, t, MAX_TRAILING_ZEROS_FLOAT)
      invariant !more ==> s < t - 1 && !(n % 5 == 0 && n / 5 % 5 == 0)
      decreases more, t - s
    {
      var exact, q := DivideByTwentyFive(n);
      if !exact {
        more := false;
      } else {
        StripOne(n0, n, s, t, MAX_TRAILING_ZEROS_FLOAT);
        StripOne(n0, n / 5, s + 1, t, MAX_TRAILING_ZEROS_FLOAT);
        n, s := q, s + 2;
      }
    }
    if s < t {
      var exact, q := DivideByFive(n);
      if exact {
        StripOne(n0, n, s, t, MAX_TRAILING_ZEROS_FLOAT);
        n, s := q, s + 1;
      }
    }
    n := ShiftRight(n0, n, s, t, MAX_TRAILING_ZEROS_FLOAT);
    if n0 < 100000000 {
      PowersOf10();
      AllZerosRemoved(n0, n, s, MAX_TRAILING_ZEROS_FLOAT);
    }
  }

  /** Removing zeros until none is left removes the most any count k could. */
  lemma MostZeros(n: nat, s: nat, q: nat, k: nat)
    requires n % 10 != 0 && n * Pow(10, s) == q * Pow(10, k)
    ensures k <= s
  {
    if k > s {
      PowAdd(10, k - s, s);
      PowPositive(10, s);
      MulAssoc(q, Pow(10, k - s), Pow(10, s));
      CancelRight(n, q * Pow(10, k - s), Pow(10, s));
      TenMultiple(q, k - s - 1);
    }
  }

  lemma TenMultiple(q: nat, k: nat)
    ensures q * Pow(10, k + 1) % 10 == 0
  {
    assert q * (10 * Pow(10, k)) == 10 * (q * Pow(10, k));
  }

  const MAX_TRAILING_ZEROS_DOUBLE: nat := 16
  const TEN_TO_8: nat := 100000000

  /** The test for 5^8 in one 64-bit multiplication. */
  method DivideByFiveToThe8(x: Uint64) returns (exact: bool, q: Uint64)
    ensures exact <==> x % 390625 == 0
    ensures exact ==> q == x / 390625
  {
    InverseDivides(x, 390625, MOD_INV_5_TO_8, MAX_QUOTIENT_5_TO_8, TWO64);
    q := Wrap64(x * MOD_INV_5_TO_8);
    exact := q <= MAX_QUOTIENT_5_TO_8;
  }

  lemma {:induction false} StripMany(n0: nat, x: nat, s: nat, t: nat, cap: nat, k: nat)
    requires Strippable(n0, x, s, t, cap) && s + k <= t && x % Pow5(k) == 0
    ensures Strippable(n0, x / Pow5(k), s + k, t, cap)
    decreases k
  {
    if k > 0 {
      var p := Pow5(k - 1);
      DivDiv(x, 5, p);
      MulMono(0, x / 5 % p, 5);
      StripOne(n0, x, s, t, cap);
      StripMany(n0, x / 5, s + 1, t, cap, k - 1);
    }
  }

  /** Eight zero bits below: the quotient of the shift carries the number. */
  lemma EightBits(n0: nat, x: nat, s: nat, t: nat, cap: nat)
    requires Strippable(n0, x, s, t, cap) && t >= 8
    ensures x == Times256(x / 256)
  {
    var y: nat :| Stripped(n0, x, s, y, t) && (t < cap ==> y % 2 == 1);
    CappedFactors(y, 8, t);
    assert Pow(2, 8) == 256;
    Multiple256(x, y * Pow(2, t - 8));
  }

  function Times256(x: nat): nat {
    x * 256
  }

  lemma Multiple256(x: nat, z: nat)
    requires x == z * 256
    ensures x == Times256(x / 256)
  {
  }

  /** Divisible by 10^8: the rest of the work is on the 32-bit quotient. */
  method StripQuotient(ghost n0: nat, quotient0: Uint32, t: nat) returns (n: Uint32, s: nat)
    requires 8 <= t <= 16 && Strippable(n0, Times256(quotient0), 8, t, 16)
    ensures n0 == n * Pow(10, s) && 8 <= s <= 16
    ensures s == 16 || n % 10 != 0
  {
    var quotient := quotient0;
    s := 8;
    var more := true;
    while more && s < t
      invariant 8 <= s <= t && Strippable(n0, Times256(quotient), s, t, 16)
      invariant !more ==> quotient % 5 != 0
      decreases more, t - s
    {
      var exact, q := DivideByFive(quotient);
      FiveIn256(quotient);
      if !exact {
        more := false;
      } else {
        StripOne(n0, Times256(quotient), s, t, 16);
        quotient, s := q, s + 1;
      }
    }
    FiveIn256(quotient);
    ghost var r := ShiftedResult(n0, Times256(quotient), s, t, 16);
    ShiftTwice(quotient, s);
    n := ShiftDown(quotient, s - 8);
  }

  lemma FiveIn256(q: nat)
    ensures Times256(q) % 5 == 0 <==> q % 5 == 0
    ensures q % 5 == 0 ==> Times256(q) / 5 == Times256(q / 5)
  {
  }

  /** The first eight of the s bits to shift out are already gone. */
  lemma ShiftTwice(q: nat, s: nat)
    requires s >= 8
    ensures Pow(2, s) > 0 && Pow(2, s - 8) > 0
    ensures Times256(q) / Pow(2, s) == q / Pow(2, s - 8)
  {
    PowAdd(2, 8, s - 8);
    assert Pow(2, 8) == 256;
    PowPositive(2, s - 8);
    PowPositive(2, s);
    DivDiv(Times256(q), 256, Pow(2, s - 8));
  }

  method ShiftDown(x: Uint32, k: nat) returns (r: Uint32)
    ensures Pow(2, k) > 0 && r == x / Pow(2, k)
  {
    PowPositive(2, k);
    QuotientNotLarger(x, Pow(2, k));
    r := x / Pow(2, k);
  }

  lemma QuotientNotLarger(x: nat, d: nat)
    requires d > 0
    ensures 0 <= x / d <= x
  {
    var q := x / d;
    assert x == q * d + x % d;
    if q < 0 {
      MulMono(q, -1, d);
    } else {
      MulMono(1, d, q);
    }
  }

  /** What the high part contributes once k factors of five are gone. */
  function HighWeight(k: nat): nat
    requires k <= 8
  {
    Pow(2, k) * Pow(10, 8 - k)
  }

  lemma TwoTimesFive(p: int, w: int)
    ensures p * (10 * w) == 5 * ((2 * p) * w)
  {
    MulAssoc(2, p, w);
    MulAssoc(p, 10, w);
  }

  lemma HighWeightStep(k: nat)
    requires k < 8
    ensures HighWeight(k) == 5 * HighWeight(k + 1)
  {
    assert Pow(2, k + 1) == 2 * Pow(2, k) && Pow(10, 8 - k) == 10 * Pow(10, 7 - k);
    hide Pow;
    TwoTimesFive(Pow(2, k), Pow(10, 7 - k));
  }

  /** The number without k factors of five, in a high and a low part. */
  ghost predicate Parts(n0: nat, quotient: nat, rem: nat, k: nat, t: nat) {
    k <= 8 && Strippable(n0, rem + quotient * HighWeight(k), k, t, 16)
  }

  lemma PartsFive(quotient: nat, rem: nat, k: nat)
    requires k < 8
    ensures (rem + quotient * HighWeight(k)) % 5 == 0 <==> rem % 5 == 0
    ensures rem % 5 == 0 ==> (rem + quotient * HighWeight(k)) / 5 == rem / 5 + quotient * HighWeight(k + 1)
  {
    HighWeightStep(k);
    hide HighWeight;
    var z := quotient * HighWeight(k + 1);
    MulCongruent(HighWeight(k), 5 * HighWeight(k + 1), quotient);
    MulAssoc(quotient, HighWeight(k + 1), 5);
    assert quotient * HighWeight(k) == z * 5;
    ModAddMultiple(rem, z, 5);
    AddMultiple(rem, z, 5);
  }

  lemma PartsStep(n0: nat, quotient: nat, rem: nat, k: nat, t: nat)
    requires k < 8 && k < t && Parts(n0, quotient, rem, k, t) && rem % 5 == 0
    ensures Parts(n0, quotient, rem / 5, k + 1, t)
  {
    PartsFive(quotient, rem, k);
    StripOne(n0, rem + quotient * HighWeight(k), k, t, 16);
  }

  lemma PartsShift(quotient: nat, rem: nat, k: nat, r: nat)
    requires k <= 8 && Pow(2, k) > 0 && (rem + quotient * HighWeight(k)) / Pow(2, k) == r
    ensures r == rem / Pow(2, k) + quotient * Pow(10, 8 - k)
  {
    hide Pow;
    MulAssoc(quotient, Pow(10, 8 - k), Pow(2, k));
    MulCongruent(HighWeight(k), Pow(10, 8 - k) * Pow(2, k), quotient);
    AddMultiple(rem, quotient * Pow(10, 8 - k), Pow(2, k));
  }

  lemma AddMultiple(rem: nat, z: nat, p: nat)
    requires p > 0
    ensures (rem + z * p) / p == rem / p + z
  {
    var q := rem / p;
    Distribute(q, z, p);
    assert rem == q * p + rem % p;
    DivModUnique(rem + z * p, p, q + z, rem % p);
  }

  /** Shifts the low part and puts the high part back on top. */
  method JoinParts(ghost n0: nat, quotient: Uint32, rem: Uint32, k: nat, ghost t: nat) returns (n: nat)
    requires k < 8 && Parts(n0, quotient, rem, k, t)
    requires k == t || rem % 5 != 0
    ensures n0 == n * Pow(10, k) && n % 10 != 0
  {
    hide Pow, HighWeight, Strippable;
    PartsFive(quotient, rem, k);
    ghost var r := ShiftedResult(n0, rem + quotient * HighWeight(k), k, t, 16);
    PartsShift(quotient, rem, k, r);
    var low := ShiftDown(rem, k);
    n := low + quotient * Pow(10, 8 - k);
  }

  /** Quotient and remainder by 10^8, in 32-bit arithmetic that wraps. */
  method SplitAt10To8(n0: Uint64) returns (quotient: Uint32, remainder: Uint32)
    requires n0 < 100000000000000000
    ensures n0 == remainder + quotient * TEN_TO_8
  {
    quotient := n0 / TEN_TO_8;
    var product := Wrap32(TEN_TO_8 * quotient);
    remainder := Wrap32(Wrap64(n0 - product));
    var r := n0 % TEN_TO_8;
    assert n0 == r + TEN_TO_8 * quotient;
    ModEqIf(n0 - product, r, TEN_TO_8 * quotient / TWO32, TWO32);
    assert product <= n0;
    DivModUnique(n0 - product, TWO64, 0, n0 - product);
    DivModUnique(r, TWO32, 0, r);
  }

  /** Not divisible by 10^8: at most seven zeros, taken off the low eight digits one by one. */
  method StripRemainder(n0: Uint64, t: nat) returns (n: nat, s: nat)
    requires 0 < n0 < 100000000000000000 && Strippable(n0, n0, 0, t, 16)
    requires t < 8 || n0 % 390625 != 0
    ensures n0 == n * Pow(10, s) && s <= 7 && n % 10 != 0
  {
    var quotient, remainder := SplitAt10To8(n0);
    assert HighWeight(0) == TEN_TO_8;
    s := 0;
    // The code spells the seven rounds out, with their constants.
    while s < 7
      invariant s <= 7 && s <= t && Parts(n0, quotient, remainder, s, t)
      decreases 7 - s
    {
      var exact, q := DivideByFive(remainder);
      if t == s || !exact {
        n := JoinParts(n0, quotient, remainder, s, t);
        return;
      }
      PartsStep(n0, quotient, remainder, s, t);
      remainder, s := q, s + 1;
    }
    if t > 7 {
      NotEight(n0, quotient, remainder, t);
    }
    n := JoinParts(n0, quotient, remainder, 7, t);
  }

  lemma NotEight(n0: nat, quotient: nat, rem: nat, t: nat)
    requires Parts(n0, quotient, rem, 7, t) && n0 % 390625 != 0
    ensures rem % 5 != 0
  {
    PartsFive(quotient, rem, 7);
    var x := rem + quotient * HighWeight(7);
    PowersOf5();
    EighthFive(n0, x);
  }

  lemma EighthFive(n0: nat, x: nat)
    requires n0 == x * 78125 && n0 % 390625 != 0
    ensures x % 5 != 0
  {
    if x % 5 == 0 {
      DivModUnique(n0, 390625, x / 5, 0);
    }
  }

  /** For 64-bit significands below 10^17. */
  method RemoveTrailingZeros64(n0: Uint64) returns (n: nat, s: nat)
    requires 0 < n0 < 100000000000000000
    ensures n0 == n * Pow(10, s) && s <= MAX_TRAILING_ZEROS_DOUBLE
    ensures n % 10 != 0
  {
    PowersOf10();
    var t := TrailingZeroBits(n0);
    StripStart(n0, MAX_TRAILING_ZEROS_DOUBLE);
    if t > MAX_TRAILING_ZEROS_DOUBLE {
      t := MAX_TRAILING_ZEROS_DOUBLE;
    }
    if t >= 8 {
      var exact, candidate := DivideByFiveToThe8(n0);
      if exact {
        PowersOf5();
        StripMany(n0, n0, 0, t, MAX_TRAILING_ZEROS_DOUBLE, 8);
        EightBits(n0, candidate, 8, t, MAX_TRAILING_ZEROS_DOUBLE);
        n, s := StripQuotient(n0, candidate / 256, t);
        AllZerosRemoved(n0, n, s, MAX_TRAILING_ZEROS_DOUBLE);
        return;
      }
    }
    n, s := StripRemainder(n0, t);
    AllZerosRemoved(n0, n, s, MAX_TRAILING_ZEROS_DOUBLE);
  }
}
