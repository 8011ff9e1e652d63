/** Counting, printing and parsing the decimal digits of machine integers. */
module DecimalDigits {
  import opened Arithmetic
  import opened DecimalText

  const INT_MAX: int := 0x7fff_ffff

  const POWERS_OF_10: seq<int> := [
    1, 10, 100, 1000, 10000, 100000, 1000000, 10000000, 100000000, 1000000000,
    10000000000, 100000000000, 1000000000000, 10000000000000, 100000000000000,
    1000000000000000, 10000000000000000, 100000000000000000, 1000000000000000000, 10000000000000000000]

  lemma NextEntry(i: nat)
    requires i < 19
    ensures POWERS_OF_10[i + 1] == 10 * POWERS_OF_10[i]
  {
  }

  lemma {:induction false} PowersOf10(i: nat)
    requires i < 20
    ensures POWERS_OF_10[i] == Pow(10, i)
  {
    if i > 0 {
      PowersOf10(i - 1);
      NextEntry(i - 1);
    }
  }

  // ---- The true number of digits ----

  function NumDigits(n: nat): nat {
    if n < 10 then 1 else 1 + NumDigits(n / 10)
  }

  lemma {:induction false} NumDigitsBounds(n: nat)
    ensures NumDigits(n) >= 1 && n < Pow(10, NumDigits(n))
    ensures n > 0 ==> n >= Pow(10, NumDigits(n) - 1)
  {
    if n >= 10 {
      NumDigitsBounds(n / 10);
    }
  }

  lemma NumDigitsFrom(n: nat, d: nat)
    requires d >= 1 && n < Pow(10, d)
    requires d > 1 ==> n >= Pow(10, d - 1)
    ensures NumDigits(n) == d
  {
    NumDigitsBounds(n);
    var m := NumDigits(n);
    if m < d {
      PowMono(10, m, d - 1);
    } else if d < m {
      PowMono(10, d, m - 1);
    }
  }

  /** The portable loop: four digits at a time. */
  method CountDigitsFallback(value: nat) returns (r: nat)
    ensures r == NumDigits(value)
  {
    var n, count := value, 1;
    while true
      invariant NumDigits(value) == NumDigits(n) + count - 1
      decreases n
    {
      SmallDigits(n);
      if n < 10 { return count; }
      if n < 100 { return count + 1; }
      if n < 1000 { return count + 2; }
      if n < 10000 { return count + 3; }
      FourDigits(n);
      n := n / 10000;
      count := count + 4;
    }
  }

  lemma SmallDigits(n: nat)
    ensures NumDigits(n) == if n < 10 then 1 else 1 + NumDigits(n / 10)
    ensures 10 <= n < 100 ==> NumDigits(n) == 2
    ensures 100 <= n < 1000 ==> NumDigits(n) == 3
    ensures 1000 <= n < 10000 ==> NumDigits(n) == 4
  {
    assert NumDigits(n / 10 / 10) == if n / 10 / 10 < 10 then 1 else 1 + NumDigits(n / 10 / 10 / 10);
  }

  lemma FourDigits(n: nat)
    requires n >= 10000
    ensures NumDigits(n) == 4 + NumDigits(n / 10000)
  {
    assert n / 10 / 10 / 10 / 10 == n / 10000;
    assert NumDigits(n) == 1 + NumDigits(n / 10);
    assert NumDigits(n / 10) == 1 + NumDigits(n / 10 / 10);
    assert NumDigits(n / 10 / 10) == 1 + NumDigits(n / 10 / 10 / 10);
  }

  /** Index of the highest one bit, what the processor's bit scan finds. */
  function BitScanReverse(x: nat): nat
    requires x > 0
  {
    if x == 1 then 0 else 1 + BitScanReverse(x / 2)
  }

  lemma {:induction false} BitScanBounds(x: nat)
    requires x > 0
    ensures Pow(2, BitScanReverse(x)) <= x < 2 * Pow(2, BitScanReverse(x))
  {
    if x > 1 {
      BitScanBounds(x / 2);
    }
  }

  function OrOne(n: nat): nat {
    if n % 2 == 0 then n + 1 else n
  }

  /** The scan of n | 1: below 2^63 n lies between the found power of two and the next. */
  lemma ScanOfOrOne(n: nat)
    ensures var k := BitScanReverse(OrOne(n));
            n < 2 * Pow(2, k) && (k > 0 ==> Pow(2, k) <= n)
  {
    BitScanBounds(OrOne(n));
    var k := BitScanReverse(OrOne(n));
    if k > 0 {
      assert Pow(2, k) == 2 * Pow(2, k - 1);
    }
  }

  const BSR2LOG10: seq<int> := BSR2LOG10_LOW + BSR2LOG10_HIGH

  const BSR2LOG10_LOW: seq<int> := [
    1, 1, 1, 2, 2, 2, 3, 3, 3, 4, 4, 4, 4, 5, 5, 5,
    6, 6, 6, 7, 7, 7, 7, 8, 8, 8, 9, 9, 9, 10, 10, 10]

  const BSR2LOG10_HIGH: seq<int> := [
    10, 11, 11, 11, 12, 12, 12, 13, 13, 13, 13, 14, 14, 14, 15, 15,
    15, 16, 16, 16, 16, 17, 17, 17, 18, 18, 18, 19, 19, 19, 19, 20]

  const ZERO_OR_POWERS_OF_10: seq<int> := [0, 0] + POWERS_OF_10[1..]

  /** Table-driven digit count of a 64-bit number. */
  function CountDigits64(n: Uint64): (r: int)
    ensures r == NumDigits(n)
  {
    ScanOfOrOne(n);
    ScanBelow(n, 64);
    var k := BitScanReverse(OrOne(n));
    var t := BSR2LOG10[k];
    Entry64(k);
    DecadeRow64(k);
    DecadeDecides(n, k, t);
    t - if n < ZERO_OR_POWERS_OF_10[t] then 1 else 0
  }

  /** The entries hold the number of digits of a threshold above its 32 low bits, less the threshold. */
  function Increment(digits: int, threshold: int): int {
    digits * TWO32 - threshold
  }

  const INCREMENTS: seq<int> := [
    Increment(1, 0), Increment(1, 0), Increment(1, 0),
    Increment(2, 10), Increment(2, 10), Increment(2, 10),
    Increment(3, 100), Increment(3, 100), Increment(3, 100),
    Increment(4, 1000), Increment(4, 1000), Increment(4, 1000),
    Increment(5, 10000), Increment(5, 10000), Increment(5, 10000),
    Increment(6, 100000), Increment(6, 100000), Increment(6, 100000),
    Increment(7, 1000000), Increment(7, 1000000), Increment(7, 1000000),
    Increment(8, 10000000), Increment(8, 10000000), Increment(8, 10000000),
    Increment(9, 100000000), Increment(9, 100000000), Increment(9, 100000000),
    Increment(10, 1000000000), Increment(10, 1000000000), Increment(10, 1000000000),
    Increment(10, 1000000000), Increment(10, 1000000000)]

  /** Table-driven digit count of a 32-bit number. */
  function CountDigits32(n: Uint32): (r: int)
    ensures r == NumDigits(n)
  {
    ScanBelow(n, 32);
    Count32(n);
    (n + INCREMENTS[BitScanReverse(OrOne(n))]) / TWO32
  }

  lemma Count32(n: Uint32)
    requires BitScanReverse(OrOne(n)) < 32
    ensures (n + INCREMENTS[BitScanReverse(OrOne(n))]) / TWO32 == NumDigits(n)
  {
    hide Pow, BitScanReverse, NumDigits;
    var k := BitScanReverse(OrOne(n));
    var d := Min(k / 3, 9) + 1;
    var t := if k < 3 then 0 else POWERS_OF_10[d - 1];
    ScanOfOrOne(n);
    Entry32(k);
    DecadeRow32(k);
    DecadeDecides(n, k, d);
    PowersOf10(9);
    PowMono(10, d - 1, 9);
    if n < t {
      DivModUnique(n + (d * TWO32 - t), TWO32, d - 1, n - t + TWO32);
    } else {
      DivModUnique(n + (d * TWO32 - t), TWO32, d, n - t);
    }
  }

  lemma ScanBelow(n: nat, w: nat)
    requires (w == 32 && n < TWO32) || (w == 64 && n < TWO64)
    ensures BitScanReverse(OrOne(n)) < w
  {
    BitScanBounds(OrOne(n));
    LowThresholds();
    HighThresholds();
    if BitScanReverse(OrOne(n)) >= w {
      PowMono(2, w, BitScanReverse(OrOne(n)));
    }
  }

  /** If 2^k and 2^(k+1) lie within two decades, comparing with the power between them counts the digits. */
  lemma DecadeDecides(n: nat, k: nat, t: nat)
    requires n < 2 * Pow(2, k) && (k > 0 ==> Pow(2, k) <= n)
    requires 1 <= t <= 20 && 2 * Pow(2, k) <= Pow(10, t) && (t >= 2 ==> k > 0 && Pow(10, t - 2) <= Pow(2, k))
    ensures NumDigits(n) == if t >= 2 && n < Pow(10, t - 1) then t - 1 else t
    ensures t >= 2 ==> POWERS_OF_10[t - 1] == Pow(10, t - 1)
  {
    if t >= 2 {
      PowersOf10(t - 1);
    }
    if t >= 2 && n < Pow(10, t - 1) {
      NumDigitsFrom(n, t - 1);
    } else {
      NumDigitsFrom(n, t);
    }
  }

  /** The powers of two at which the number of decimal digits may change. */
  lemma LowThresholds()
    ensures Pow(2, 0) == 0x1
    ensures Pow(2, 3) == 0x8
    ensures Pow(2, 6) == 0x40
    ensures Pow(2, 9) == 0x200
    ensures Pow(2, 12) == 0x1000
    ensures Pow(2, 13) == 0x2000
    ensures Pow(2, 15) == 0x8000
    ensures Pow(2, 16) == 0x10000
    ensures Pow(2, 18) == 0x40000
    ensures Pow(2, 19) == 0x80000
    ensures Pow(2, 21) == 0x200000
    ensures Pow(2, 23) == 0x800000
    ensures Pow(2, 24) == 0x1000000
    ensures Pow(2, 26) == 0x4000000
    ensures Pow(2, 27) == 0x8000000
    ensures Pow(2, 29) == 0x20000000
    ensures Pow(2, 30) == 0x40000000
    ensures Pow(2, 32) == 0x100000000
  {
    assert Pow(2, 3) == 0x8;
    assert Pow(2, 6) == 0x40 by { PowAdd(2, 3, 3); }
    assert Pow(2, 9) == 0x200 by { PowAdd(2, 6, 3); }
    assert Pow(2, 12) == 0x1000 by { PowAdd(2, 9, 3); }
    assert Pow(2, 13) == 0x2000 by { PowAdd(2, 12, 1); }
    assert Pow(2, 15) == 0x8000 by { PowAdd(2, 13, 2); }
    assert Pow(2, 16) == 0x10000 by { PowAdd(2, 15, 1); }
    assert Pow(2, 18) == 0x40000 by { PowAdd(2, 16, 2); }
    assert Pow(2, 19) == 0x80000 by { PowAdd(2, 18, 1); }
    assert Pow(2, 21) == 0x200000 by { PowAdd(2, 19, 2); }
    assert Pow(2, 23) == 0x800000 by { PowAdd(2, 21, 2); }
    assert Pow(2, 24) == 0x1000000 by { PowAdd(2, 23, 1); }
    assert Pow(2, 26) == 0x4000000 by { PowAdd(2, 24, 2); }
    assert Pow(2, 27) == 0x8000000 by { PowAdd(2, 26, 1); }
    assert Pow(2, 29) == 0x20000000 by { PowAdd(2, 27, 2); }
    assert Pow(2, 30) == 0x40000000 by { PowAdd(2, 29, 1); }
    assert Pow(2, 32) == 0x100000000 by { PowAdd(2, 30, 2); }
  }

  lemma HighThresholds()
    ensures Pow(2, 32) == 0x100000000
    ensures Pow(2, 33) == 0x200000000
    ensures Pow(2, 36) == 0x1000000000
    ensures Pow(2, 39) == 0x8000000000
    ensures Pow(2, 43) == 0x80000000000
    ensures Pow(2, 46) == 0x400000000000
    ensures Pow(2, 49) == 0x2000000000000
    ensures Pow(2, 53) == 0x20000000000000
    ensures Pow(2, 56) == 0x100000000000000
    ensures Pow(2, 59) == 0x800000000000000
    ensures Pow(2, 63) == 0x8000000000000000
    ensures Pow(2, 64) == 0x10000000000000000
  {
    LowThresholds();
    assert Pow(2, 33) == 0x200000000 by { PowAdd(2, 32, 1); }
    assert Pow(2, 36) == 0x1000000000 by { PowAdd(2, 33, 3); }
    assert Pow(2, 39) == 0x8000000000 by { PowAdd(2, 36, 3); }
    assert Pow(2, 43) == 0x80000000000 by { PowAdd(2, 39, 4); }
    assert Pow(2, 46) == 0x400000000000 by { PowAdd(2, 43, 3); }
    assert Pow(2, 49) == 0x2000000000000 by { PowAdd(2, 46, 3); }
    assert Pow(2, 53) == 0x20000000000000 by { PowAdd(2, 49, 4); }
    assert Pow(2, 56) == 0x100000000000000 by { PowAdd(2, 53, 3); }
    assert Pow(2, 59) == 0x800000000000000 by { PowAdd(2, 56, 3); }
    assert Pow(2, 63) == 0x8000000000000000 by { PowAdd(2, 59, 4); }
    assert Pow(2, 64) == 0x10000000000000000 by { PowAdd(2, 63, 1); }
  }

  lemma PowerGroup(k: nat, lo: nat, hi: nat)
    requires lo <= k < hi
    ensures Pow(2, lo) <= Pow(2, k) && 2 * Pow(2, k) <= Pow(2, hi)
  {
    PowMono(2, lo, k);
    PowMono(2, k + 1, hi);
  }

  predicate DecadeRow(k: nat, t: int) {
    1 <= t <= 20 && 2 * Pow(2, k) <= Pow(10, t) && (t >= 2 ==> k > 0 && Pow(10, t - 2) <= Pow(2, k))
  }

  /** Bounds of a group of bit numbers, all with the same entry t. */
  lemma GroupRow(k: nat, lo: nat, hi: nat, t: nat, l: nat, h: nat)
    requires lo <= k < hi && 1 <= t <= 20 && (t >= 2 ==> lo > 0)
    requires l <= Pow(2, lo) && Pow(2, hi) <= h
    requires h <= if t < 20 then POWERS_OF_10[t] else 10 * POWERS_OF_10[19]
    requires t >= 2 ==> POWERS_OF_10[t - 2] <= l
    ensures DecadeRow(k, t)
  {
    PowerGroup(k, lo, hi);
    if t < 20 {
      PowersOf10(t);
    } else {
      PowersOf10(19);
    }
    if t >= 2 {
      PowersOf10(t - 2);
    }
  }

  /** The number of digits of 2^(k+1) - 1. */
  function Decade(k: nat): int {
    if k < 3 then 1 else
    if k < 6 then 2 else
    if k < 9 then 3 else
    if k < 13 then 4 else
    if k < 16 then 5 else
    if k < 19 then 6 else
    if k < 23 then 7 else
    if k < 26 then 8 else
    if k < 29 then 9 else
    if k < 33 then 10 else
    if k < 36 then 11 else
    if k < 39 then 12 else
    if k < 43 then 13 else
    if k < 46 then 14 else
    if k < 49 then 15 else
    if k < 53 then 16 else
    if k < 56 then 17 else
    if k < 59 then 18 else
    if k < 63 then 19 else
    20
  }

  lemma Entry64(k: nat)
    requires k < 64
    ensures BSR2LOG10[k] == Decade(k)
    ensures ZERO_OR_POWERS_OF_10[Decade(k)] == if k < 3 then 0 else POWERS_OF_10[Decade(k) - 1]
  {
    if k < 32 {
      assert BSR2LOG10[k] == BSR2LOG10_LOW[k];
    } else {
      assert BSR2LOG10[k] == BSR2LOG10_HIGH[k - 32];
    }
  }

  lemma DecadeRowLow(k: nat)
    requires k < 16
    ensures DecadeRow(k, Decade(k))
  {
    LowThresholds();
    match Decade(k) {
      case 1 => GroupRow(k, 0, 3, 1, 0x1, 0x8);
      case 2 => GroupRow(k, 3, 6, 2, 0x8, 0x40);
      case 3 => GroupRow(k, 6, 9, 3, 0x40, 0x200);
      case 4 => GroupRow(k, 9, 13, 4, 0x200, 0x2000);
      case _ => GroupRow(k, 13, 16, 5, 0x2000, 0x10000);
    }
  }

  lemma DecadeRowMiddle(k: nat)
    requires 16 <= k < 29
    ensures DecadeRow(k, Decade(k))
  {
    LowThresholds();
    match Decade(k) {
      case 6 => GroupRow(k, 16, 19, 6, 0x10000, 0x80000);
      case 7 => GroupRow(k, 19, 23, 7, 0x80000, 0x800000);
      case 8 => GroupRow(k, 23, 26, 8, 0x800000, 0x4000000);
      case _ => GroupRow(k, 26, 29, 9, 0x4000000, 0x20000000);
    }
  }

  lemma DecadeRowHigh(k: nat)
    requires 29 <= k < 46
    ensures DecadeRow(k, Decade(k))
  {
    LowThresholds();
    HighThresholds();
    match Decade(k) {
      case 10 => GroupRow(k, 29, 33, 10, 0x20000000, 0x200000000);
      case 11 => GroupRow(k, 33, 36, 11, 0x200000000, 0x1000000000);
      case 12 => GroupRow(k, 36, 39, 12, 0x1000000000, 0x8000000000);
      case 13 => GroupRow(k, 39, 43, 13, 0x8000000000, 0x80000000000);
      case _ => GroupRow(k, 43, 46, 14, 0x80000000000, 0x400000000000);
    }
  }

  lemma DecadeRowTop(k: nat)
    requires 46 <= k < 64
    ensures DecadeRow(k, Decade(k))
  {
    HighThresholds();
    match Decade(k) {
      case 15 => GroupRow(k, 46, 49, 15, 0x400000000000, 0x2000000000000);
      case 16 => GroupRow(k, 49, 53, 16, 0x2000000000000, 0x20000000000000);
      case 17 => GroupRow(k, 53, 56, 17, 0x20000000000000, 0x100000000000000);
      case 18 => GroupRow(k, 56, 59, 18, 0x100000000000000, 0x800000000000000);
      case 19 => GroupRow(k, 59, 63, 19, 0x800000000000000, 0x8000000000000000);
      case _ => GroupRow(k, 63, 64, 20, 0x8000000000000000, 0x10000000000000000);
    }
  }

  lemma DecadeRow64(k: nat)
    requires k < 64
    ensures DecadeRow(k, Decade(k))
  {
    hide Decade, DecadeRow;
    if k < 16 {
      DecadeRowLow(k);
    } else if k < 29 {
      DecadeRowMiddle(k);
    } else if k < 46 {
      DecadeRowHigh(k);
    } else {
      DecadeRowTop(k);
    }
  }

  lemma Entry32(k: nat)
    requires k < 32
    ensures INCREMENTS[k] == (Min(k / 3, 9) + 1) * TWO32 - if k < 3 then 0 else POWERS_OF_10[Min(k / 3, 9)]
  {
  }

  lemma ThreeBitsLow(k: nat)
    requires k < 15
    ensures DecadeRow(k, Min(k / 3, 9) + 1)
  {
    LowThresholds();
    match k / 3 {
      case 0 => GroupRow(k, 0, 3, 1, 0x1, 0x8);
      case 1 => GroupRow(k, 3, 6, 2, 0x8, 0x40);
      case 2 => GroupRow(k, 6, 9, 3, 0x40, 0x200);
      case 3 => GroupRow(k, 9, 12, 4, 0x200, 0x1000);
      case _ => GroupRow(k, 12, 15, 5, 0x1000, 0x8000);
    }
  }

  lemma ThreeBitsHigh(k: nat)
    requires 15 <= k < 32
    ensures DecadeRow(k, Min(k / 3, 9) + 1)
  {
    LowThresholds();
    match k / 3 {
      case 5 => GroupRow(k, 15, 18, 6, 0x8000, 0x40000);
      case 6 => GroupRow(k, 18, 21, 7, 0x40000, 0x200000);
      case 7 => GroupRow(k, 21, 24, 8, 0x200000, 0x1000000);
      case 8 => GroupRow(k, 24, 27, 9, 0x1000000, 0x8000000);
      case _ => GroupRow(k, 27, 32, 10, 0x8000000, 0x100000000);
    }
  }

  lemma DecadeRow32(k: nat)
    requires k < 32
    ensures DecadeRow(k, Min(k / 3, 9) + 1)
  {
    if k < 15 {
      ThreeBitsLow(k);
    } else {
      ThreeBitsHigh(k);
    }
  }

  // ---- Printing ----

  /** The decimal representation without leading zeros. */
  function Decimal(n: nat): (s: string)
    ensures |s| >= 1 && AllDigits(s)
  {
    if n < 10 then [DigitChar(n)] else Decimal(n / 10) + [DigitChar(n % 10)]
  }

  lemma {:induction false} DecimalMeans(n: nat)
    ensures |Decimal(n)| == NumDigits(n) && DecValue(Decimal(n)) == n
    ensures n > 0 ==> Decimal(n)[0] != '0'
  {
    if n < 10 {
      assert Decimal(n)[..0] == [];
    } else {
      DecimalMeans(n / 10);
      assert Decimal(n)[..|Decimal(n)| - 1] == Decimal(n / 10);
    }
  }

  /** The entry of the table of digit pairs for a number below 100. */
  function DigitPair(value: nat): (pair: string)
    requires value < 100
    ensures |pair| == 2
  {
    [DigitChar(value / 10), DigitChar(value % 10)]
  }

  /** Writes value right-aligned into the first size characters, two digits at a time. */
  method FormatDecimal(out: array<char>, value: nat, size: nat) returns (begin: nat, end: nat)
    requires NumDigits(value) <= size <= out.Length
    modifies out
    ensures end == size && begin == size - NumDigits(value)
    ensures out[begin..end] == Decimal(value)
    ensures out[..begin] == old(out[..begin]) && out[end..] == old(out[end..])
  {
    var v, p := FormatPairs(out, value, size);
    DecimalMeans(value);
    DecimalMeans(v);
    if v < 10 {
      p := p - 1;
      WriteBefore(out, p, [DigitChar(v)], size);
    } else {
      p := p - 2;
      assert Decimal(v) == DigitPair(v);
      WriteBefore(out, p, DigitPair(v), size);
    }
    begin, end := p, size;
  }

  /** The loop: pairs of digits from the right, until one or two digits are left. */
  method FormatPairs(out: array<char>, value: nat, size: nat) returns (v: nat, p: nat)
    requires NumDigits(value) <= size <= out.Length
    modifies out
    ensures v < 100 && NumDigits(v) <= p <= size
    ensures Decimal(value) == Decimal(v) + out[p..size]
    ensures out[..p] == old(out[..p]) && out[size..] == old(out[size..])
  {
    hide Decimal, NumDigits, DigitPair;
    v, p := value, size;
    while v >= 100
      invariant NumDigits(v) <= p <= size
      invariant Decimal(value) == Decimal(v) + out[p..size]
      invariant out[..p] == old(out[..p]) && out[size..] == old(out[size..])
      decreases v
    {
      TwoDigits(v);
      assert Decimal(v) + out[p..size] == Decimal(v / 100) + (DigitPair(v % 100) + out[p..size]);
      p := p - 2;
      WriteBefore(out, p, DigitPair(v % 100), size);
      v := v / 100;
    }
  }

  /** Writes one or two characters in front of those already between p and size. */
  method WriteBefore(out: array<char>, p: nat, text: string, size: nat)
    requires 1 <= |text| <= 2 && p + |text| <= size <= out.Length
    modifies out
    ensures out[p..size] == text + old(out[p + |text|..size])
    ensures out[..p] == old(out[..p]) && out[size..] == old(out[size..])
  {
    out[p] := text[0];
    if |text| == 2 {
      out[p + 1] := text[1];
    }
  }

  lemma TwoDigits(v: nat)
    requires v >= 100
    ensures Decimal(v) == Decimal(v / 100) + DigitPair(v % 100)
    ensures NumDigits(v) == NumDigits(v / 100) + 2
  {
    assert v / 10 / 10 == v / 100;
    assert v / 10 % 10 == v % 100 / 10 && v % 10 == v % 100 % 10;
    assert Decimal(v / 10) == Decimal(v / 10 / 10) + [DigitChar(v / 10 % 10)];
    assert NumDigits(v / 10) == 1 + NumDigits(v / 10 / 10);
  }

  // ---- Parsing ----

  /** End of the run of digits that starts at p. */
  function DigitsEnd(s: string, p: nat): (q: nat)
    requires p <= |s|
    ensures p <= q <= |s| && AllDigits(s[p..q]) && (q < |s| ==> !IsDigit(s[q]))
    decreases |s| - p
  {
    if p < |s| && IsDigit(s[p]) then
      var q := DigitsEnd(s, p + 1);
      assert s[p..q] == [s[p]] + s[p + 1..q];
      q
    else p
  }

  /** The parsed value: too many digits or a value above the maximum give errorValue. */
  function NonnegativeInt(digits: string, errorValue: int): int {
    if |digits| <= 10 && DecValue(digits) <= INT_MAX then DecValue(digits) else errorValue
  }

  /** The parsing loop, in unsigned arithmetic that wraps; begin is advanced behind the digits. */
  method ParseNonnegativeInt(s: string, begin: nat, errorValue: int) returns (r: int, end: nat)
    requires begin < |s| && IsDigit(s[begin])
    ensures end == DigitsEnd(s, begin) && end > begin
    ensures r == NonnegativeInt(s[begin..end], errorValue)
  {
    hide DecValue, Wrap32, NonnegativeInt, ParsedResult;
    NothingParsed(s, begin);
    var value: Uint32, prev: Uint32 := 0, 0;
    var p := begin;
    ghost var stop := DigitsEnd(s, begin);
    var more := true;
    while more
      invariant begin <= p <= stop <= |s| && stop == DigitsEnd(s, p)
      invariant more <==> p < stop
      invariant value == Wrap32(DecValue(s[begin..p]))
      invariant p > begin ==> prev == Wrap32(DecValue(s[begin..p - 1]))
      decreases stop - p
    {
      ParseStep(s, begin, p, value);
      prev := value;
      value := Wrap32(Wrap32(value * 10) + DigitValue(s[p]));
      p := p + 1;
      more := p != |s| && IsDigit(s[p]);
    }
    end := p;
    var numDigits := p - begin;
    assert s[begin..p][..numDigits - 1] == s[begin..p - 1];
    ParseEnd(s[begin..p], value, prev, errorValue);
    r := ParsedResult(numDigits, value, prev, DigitValue(s[p - 1]), errorValue);
  }

  /** The overflow check after the loop. */
  function ParsedResult(numDigits: nat, value: Uint32, prev: Uint32, last: int, errorValue: int): int {
    if numDigits <= 9 then value
    else if numDigits == 10 && Wrap64(prev * 10) + last <= INT_MAX then value
    else errorValue
  }

  lemma NothingParsed(s: string, begin: nat)
    requires begin <= |s|
    ensures Wrap32(DecValue(s[begin..begin])) == 0
  {
  }

  lemma ParseStep(s: string, begin: nat, p: nat, value: Uint32)
    requires begin <= p < |s| && value == Wrap32(DecValue(s[begin..p]))
    ensures Wrap32(Wrap32(value * 10) + DigitValue(s[p])) == Wrap32(DecValue(s[begin..p + 1]))
    ensures s[begin..p + 1 - 1] == s[begin..p]
  {
    assert s[begin..p + 1][..p - begin] == s[begin..p];
    WrapStep(DecValue(s[begin..p]), DigitValue(s[p]));
  }

  lemma ParseEnd(digits: string, value: Uint32, prev: Uint32, errorValue: int)
    requires |digits| >= 1 && AllDigits(digits) && value == Wrap32(DecValue(digits))
    ensures prev == Wrap32(DecValue(digits[..|digits| - 1])) ==>
              ParsedResult(|digits|, value, prev, DigitValue(digits[|digits| - 1]), errorValue)
              == NonnegativeInt(digits, errorValue)
  {
    ParsedBounds(digits);
  }

  lemma WrapStep(v: int, d: int)
    ensures Wrap32(Wrap32(Wrap32(v) * 10) + d) == Wrap32(10 * v + d)
  {
    ModMulLeft(v, 10, TWO32);
    ModAdd(v * 10, d, TWO32);
  }

  lemma ShortValue(digits: string, n: nat)
    requires AllDigits(digits) && |digits| <= n < 20
    ensures 0 <= DecValue(digits) < POWERS_OF_10[n]
  {
    DecBound(digits);
    PowersOf10(n);
    PowMono(10, |digits|, n);
  }

  lemma Unwrapped(v: int)
    ensures 0 <= v < TWO32 ==> Wrap32(v) == v
  {
  }

  /** Up to nine digits nothing wraps; of ten digits the first nine do not. */
  lemma ParsedBounds(digits: string)
    requires |digits| >= 1 && AllDigits(digits)
    ensures |digits| <= 9 ==> Wrap32(DecValue(digits)) == DecValue(digits) <= INT_MAX
    ensures |digits| <= 10 ==> Wrap32(DecValue(digits[..|digits| - 1])) == DecValue(digits[..|digits| - 1]) < 1000000000
    ensures 0 <= DecValue(digits) <= INT_MAX ==> Wrap32(DecValue(digits)) == DecValue(digits)
    ensures DecValue(digits) >= 0
  {
    var high := digits[..|digits| - 1];
    DecBound(digits);
    Unwrapped(DecValue(digits));
    Unwrapped(DecValue(high));
    if |digits| <= 10 {
      ShortValue(high, 9);
    }
    if |digits| <= 9 {
      ShortValue(digits, 9);
    }
  }

  /** Parsing what was printed gives the number back, if it is an int at all. */
  lemma ParsePrinted(n: nat, errorValue: int)
    ensures NonnegativeInt(Decimal(n), errorValue) == if n <= 2147483647 then n else errorValue
  {
    DecimalMeans(n);
    NumDigitsBounds(n);
    if n <= INT_MAX && NumDigits(n) > 10 {
      PowersOf10(10);
      PowMono(10, 10, NumDigits(n) - 1);
    }
  }

  /** Ten characters is the limit, whatever they denote: eleven with leading zeros are refused. */
  lemma AcceptedSpellings(digits: string, errorValue: int)
    requires AllDigits(digits) && DecValue(digits) <= INT_MAX && errorValue != DecValue(digits)
    ensures NonnegativeInt(digits, errorValue) == DecValue(digits) <==> |digits| <= 10
    ensures AllDigits("00000000001") && DecValue("00000000001") == 1
  {
    DecBound(digits);
    var z := "0000000000";
    DecZeros(z);
    assert "00000000001"[..10] == z;
  }
}
