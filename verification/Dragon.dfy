/**
 Exact fixed-length digit generation (Steele and White): the value f * 2^e is kept as a quotient of two big
 integers scaled by a power of ten, one digit is divided off at a time and the last one is rounded half to even.
 */
module Dragon {
  import opened Arithmetic
  import opened Bigits
  import opened Bigints
  import opened Comparison
  import opened DecimalText

  /** f * 2^e * 10^-exp10 as a fraction. */
  function Numer(f: nat, e: int, exp10: int): nat {
    f * Pow(2, Max(e, 0)) * Pow(10, Max(-exp10, 0))
  }

  function Denom(e: int, exp10: int): nat {
    Pow(2, Max(-e, 0)) * Pow(10, Max(exp10, 0))
  }

  lemma DenomPositive(e: int, exp10: int)
    ensures Denom(e, exp10) > 0
  {
    PowPositive(2, Max(-e, 0));
    PowPositive(10, Max(exp10, 0));
    MulStrictMono(0, Pow(2, Max(-e, 0)), Pow(10, Max(exp10, 0)));
  }

  /** However often the first number is multiplied by ten, its comparison with the second is exact. */
  ghost predicate NeverMissed(x: nat, xe: nat, y: nat, ye: nat) {
    forall i: nat :: !Missed(x * Pow(10, i), xe, y, ye)
  }

  /** The fraction brought to integers, both sides scaled by 2^shift. */
  method Scale(f: Uint64, e: int, shift: nat, exp10: int, numerator: Bigint, denominator: Bigint)
    requires f > 0 && 1 <= shift <= 2 && f * Pow(2, shift) < TWO64
    requires e >= 0 ==> exp10 >= 0
    requires -0x4000_0000 < exp10 < 0x4000_0000
    requires numerator != denominator
    modifies numerator, denominator
    ensures numerator.Val() == Numer(f, e, exp10) * Pow(2, shift) > 0
    ensures denominator.Val() == Denom(e, exp10) * Pow(2, shift) > 0
    ensures Normal(numerator.bigits) && Normal(denominator.bigits)
    ensures NeverMissed(numerator.Val(), numerator.exp, denominator.Val(), denominator.exp)
  {
    PositiveProducts(f, e, exp10, shift);
    PowPositive(2, shift);
    MulStrictMono(0, f, Pow(2, shift));
    assert Pow(2, 0) == 1 && Pow(10, 0) == 1;
    hide Pow, Numer, Denom, NeverMissed, Value;
    var significand: Uint64 := f * Pow(2, shift);
    if e >= 0 {
      ScaleInteger(f, e, exp10, shift);
      numerator.AssignUint64(significand);
      numerator.ShiftLeft(e);
      denominator.AssignPow10(exp10);
      denominator.ShiftLeft(shift);
      IntegerNeverMissed(f, e, exp10, Numer(f, e, exp10), Denom(e, exp10), Pow(2, shift), denominator.exp);
    } else if exp10 < 0 {
      ScaleFraction(f, e, exp10, shift);
      numerator.AssignPow10(-exp10);
      numerator.Multiply64(significand);
      denominator.AssignUint64(1);
      denominator.ShiftLeft(shift - e);
      NormalZero(numerator.bigits, numerator.exp);
      PowerNeverMissed(numerator.bigits, numerator.exp, shift - e);
    } else {
      ScaleMixed(f, e, exp10, shift);
      numerator.AssignUint64(significand);
      denominator.AssignPow10(exp10);
      denominator.ShiftLeft(shift - e);
    }
  }

  lemma ScaleInteger(f: nat, e: nat, exp10: nat, shift: nat)
    ensures f * Pow(2, shift) * Pow(2, e) == Numer(f, e, exp10) * Pow(2, shift)
    ensures Pow(10, exp10) * Pow(2, shift) == Denom(e, exp10) * Pow(2, shift)
    ensures Numer(f, e, exp10) == f * Pow(2, e) && Denom(e, exp10) == Pow(10, exp10)
  {
    MulRearrange(f, Pow(2, shift), Pow(2, e));
    assert Numer(f, e, exp10) == f * Pow(2, e) * 1;
    assert Denom(e, exp10) == 1 * Pow(10, exp10);
  }

  lemma ScaleFraction(f: nat, e: int, exp10: int, shift: nat)
    requires e < 0 && exp10 < 0
    ensures Pow(10, -exp10) * (f * Pow(2, shift)) == Numer(f, e, exp10) * Pow(2, shift)
    ensures Pow(2, shift - e) == Denom(e, exp10) * Pow(2, shift)
  {
    assert Numer(f, e, exp10) == f * 1 * Pow(10, -exp10);
    MulRearrange(f, Pow(2, shift), Pow(10, -exp10));
    assert Denom(e, exp10) == Pow(2, -e) * 1;
    PowAdd(2, -e, shift);
  }

  lemma ScaleMixed(f: nat, e: int, exp10: nat, shift: nat)
    requires e < 0
    ensures f * Pow(2, shift) == Numer(f, e, exp10) * Pow(2, shift)
    ensures Pow(10, exp10) * Pow(2, shift - e) == Denom(e, exp10) * Pow(2, shift)
  {
    assert Numer(f, e, exp10) == f * 1 * 1;
    PowAdd(2, shift, -e);
    MulRearrange(Pow(2, -e), Pow(10, exp10), Pow(2, shift));
    assert Pow(2, -e) * Pow(2, shift) == Pow(2, shift - e);
    assert Pow(2, shift - e) * Pow(10, exp10) == Pow(10, exp10) * Pow(2, shift - e);
  }

  /** The digits of the scaled fraction, rounded to buf.Length digits; outExp is the exponent of the last one. */
  method FormatDragon(f: Uint64, e: int, predecessorCloser: bool, numDigits: nat, buf: array<char>, exp10: int)
    returns (outExp: int)
    requires f > 0 && f * (if predecessorCloser then 4 else 2) < TWO64
    requires e >= 0 ==> exp10 >= 0
    requires -0x4000_0000 < exp10 < 0x4000_0000
    requires Numer(f, e, exp10) < 10 * Denom(e, exp10)
    requires buf.Length == Max(numDigits, 1)
    modifies buf
    ensures AllDigits(buf[..]) && Denom(e, exp10) > 0
    ensures numDigits == 0 ==>
              outExp == exp10 + 1
              && DecValue(buf[..]) == RoundHalfEven(Numer(f, e, exp10), 10 * Denom(e, exp10))
    ensures numDigits > 0 ==>
              var q := RoundHalfEven(Numer(f, e, exp10) * Pow(10, numDigits - 1), Denom(e, exp10));
              if q == Pow(10, numDigits)
              then outExp == exp10 - (numDigits - 1) + 1 && DecValue(buf[..]) * 10 == q
              else outExp == exp10 - (numDigits - 1) && DecValue(buf[..]) == q
  {
    var numerator := new Bigint();
    var denominator := new Bigint();
    var shift := if predecessorCloser then 2 else 1;
    assert Pow(2, 1) == 2 && Pow(2, 2) == 4;
    Scale(f, e, shift, exp10, numerator, denominator);
    NormalZero(numerator.bigits, numerator.exp);
    NormalZero(denominator.bigits, denominator.exp);
    ghost var n, d, s := Numer(f, e, exp10), Denom(e, exp10), Pow(2, shift);
    DenomPositive(e, exp10);
    ScaledBound(n, d, s);
    outExp := exp10 - (numDigits - 1);
    if numDigits == 0 {
      NoDigits(numerator, denominator, buf);
      return;
    }
    var carried := GenerateDigits(numerator, denominator, buf);
    ScaledRounding(n, d, s, Pow(10, numDigits - 1));
    if carried {
      outExp := outExp + 1;
    }
  }

  /** No digit wanted: the result is the value rounded to a multiple of ten times its leading unit. */
  method NoDigits(numerator: Bigint, denominator: Bigint, buf: array<char>)
    requires numerator != denominator && TopNonzero(numerator.bigits) && TopNonzero(denominator.bigits)
    requires numerator.Val() < 10 * denominator.Val() && buf.Length == 1
    modifies denominator, buf
    ensures AllDigits(buf[..])
    ensures old(denominator.Val()) > 0
    ensures DecValue(buf[..]) == RoundHalfEven(numerator.Val(), 10 * old(denominator.Val()))
  {
    NormalZero(denominator.bigits, denominator.exp);
    ghost var num, den := numerator.Val(), denominator.Val();
    denominator.Multiply32(10);
    NormalZero(denominator.bigits, denominator.exp);
    var c := numerator.AddCompare(numerator, denominator);
    DoubleCompareExactly(numerator.bigits, numerator.exp, denominator.bigits, denominator.exp);
    buf[0] := if c > 0 then '1' else '0';
    assert buf[..0 + 1] == buf[..] && buf[..0] == [];
    DecStep(buf[..], 0);
    RoundFrom(num, 10 * den, 0, num);
  }

  /**
   The digits of numerator / denominator, rounded to buf.Length of them; carried says that rounding up turned
   99..9 into 10..0, whose last zero is left out.
   */
  method GenerateDigits(numerator: Bigint, denominator: Bigint, buf: array<char>) returns (carried: bool)
    requires numerator != denominator && TopNonzero(numerator.bigits) && TopNonzero(denominator.bigits)
    requires NeverMissed(numerator.Val(), numerator.exp, denominator.Val(), denominator.exp)
    requires numerator.Val() < 10 * denominator.Val() && buf.Length >= 1
    modifies numerator, buf
    ensures denominator.Val() > 0
    ensures Written(buf[..], carried, RoundHalfEven(old(numerator.Val()) * Pow(10, buf.Length - 1), denominator.Val()))
  {
    ghost var numExp0 := numerator.exp;
    NormalZero(denominator.bigits, denominator.exp);
    ghost var scaled := LeadingDigits(numerator, denominator, buf);
    carried := LastDigits(numerator, denominator, buf, scaled, numExp0);
  }

  /** The digits, as a natural number. */
  function DecNat(s: seq<char>): nat
    requires AllDigits(s)
  {
    DecBound(s);
    DecValue(s)
  }

  /** The last digit, with the rounding. */
  method LastDigits(numerator: Bigint, denominator: Bigint, buf: array<char>, ghost scaled: nat, ghost numExp0: nat)
    returns (carried: bool)
    requires numerator != denominator && Divisible(numerator, denominator, scaled, numExp0)
    requires !Missed(scaled, numExp0, denominator.Val(), denominator.exp)
    requires buf.Length >= 1 && AllDigits(buf[..buf.Length - 1]) && denominator.Val() > 0
    requires DigitsSoFar(scaled, DecValue(buf[..buf.Length - 1]), denominator.Val(), numerator.Val())
    modifies numerator, buf
    ensures denominator.Val() == old(denominator.Val())
    ensures Written(buf[..], carried, RoundHalfEven(scaled, denominator.Val()))
  {
    ghost var high := DecNat(buf[..buf.Length - 1]);
    var digit := NextDigit(numerator, denominator, scaled, numExp0);
    RoundDigits(scaled, high, denominator.Val(), digit, numerator.Val());
    var c := numerator.AddCompare(numerator, denominator);
    DoubleCompareExactly(numerator.bigits, numerator.exp, denominator.bigits, denominator.exp);
    carried := StoreLast(buf, digit, c > 0 || (c == 0 && digit % 2 != 0));
  }

  /** The digits in text denote q; after a carry out of the first digit, q without its last zero. */
  predicate Written(text: seq<char>, carried: bool, q: nat) {
    && AllDigits(text)
    && carried == (q == Pow(10, |text|))
    && q == if carried then 10 * DecValue(text) else DecValue(text)
  }

  lemma RoundDigits(scaled: nat, high: nat, den: nat, digit: nat, rest: nat)
    requires den > 0 && DigitsSoFar(scaled, high, den, digit * den + rest) && rest < den
    ensures RoundHalfEven(scaled, den)
         == 10 * high + digit + if rest + rest > den || (rest + rest == den && digit % 2 != 0) then 1 else 0
  {
    LastDigit(scaled, high, den, digit, rest);
    RoundFrom(scaled, den, 10 * high + digit, rest);
  }

  /** All digits but the last. */
  method LeadingDigits(numerator: Bigint, denominator: Bigint, buf: array<char>) returns (ghost scaled: nat)
    requires numerator != denominator && TopNonzero(numerator.bigits) && TopNonzero(denominator.bigits)
    requires NeverMissed(numerator.Val(), numerator.exp, denominator.Val(), denominator.exp)
    requires numerator.Val() < 10 * denominator.Val() && buf.Length >= 1
    modifies numerator, buf
    ensures AllDigits(buf[..buf.Length - 1])
    ensures scaled == old(numerator.Val()) * Pow(10, buf.Length - 1)
    ensures DigitsSoFar(scaled, DecValue(buf[..buf.Length - 1]), denominator.Val(), numerator.Val())
    ensures Divisible(numerator, denominator, scaled, old(numerator.exp))
    ensures !Missed(scaled, old(numerator.exp), denominator.Val(), denominator.exp)
  {
    NormalZero(numerator.bigits, numerator.exp);
    ghost var num0, numExp0, den, denExp := numerator.Val(), numerator.exp, denominator.Val(), denominator.exp;
    scaled := num0;
    assert num0 * Pow(10, 0) == num0;
    var i := 0;
    while i < buf.Length - 1
      invariant 0 <= i <= buf.Length - 1 && scaled == num0 * Pow(10, i)
      invariant AllDigits(buf[..i])
      invariant denominator.Val() == den && denominator.exp == denExp
      invariant DigitsSoFar(scaled, DecValue(buf[..i]), den, numerator.Val())
      invariant Divisible(numerator, denominator, scaled, numExp0)
    {
      ghost var before := buf[..i];
      var digit := NextDigit(numerator, denominator, scaled, numExp0);
      DigitStep(scaled, DecValue(before), den, digit, numerator.Val());
      buf[i] := DigitChar(digit);
      assert buf[..i + 1][..i] == before;
      TimesTen(numerator, denominator, scaled, numExp0);
      NextPower(num0, i);
      scaled := 10 * scaled;
      i := i + 1;
    }
  }

  lemma NextPower(x: int, i: nat)
    ensures x * Pow(10, i + 1) == 10 * (x * Pow(10, i))
  {
    MulAssoc(10, Pow(10, i), x);
    assert x * Pow(10, i + 1) == (10 * Pow(10, i)) * x;
  }

  /** Stores the last digit, rounded up or not, and propagates the carry. */
  method StoreLast(buf: array<char>, digit: nat, up: bool) returns (carried: bool)
    requires buf.Length >= 1 && AllDigits(buf[..buf.Length - 1]) && digit < 10
    modifies buf
    ensures Written(buf[..], carried, 10 * old(DecNat(buf[..buf.Length - 1])) + digit + if up then 1 else 0)
  {
    var last := buf.Length - 1;
    ghost var before := buf[..last];
    if up && digit == 9 {
      buf[last] := ':';
      assert buf[..last] == before && buf[..last + 1] == buf[..];
      DecStep(buf[..], last);
      DecBound(before);
      carried := CarryUp(buf);
    } else {
      carried := false;
      buf[last] := DigitChar(if up then digit + 1 else digit);
      assert buf[..last] == before && buf[..last + 1] == buf[..];
      DecStep(buf[..], last);
      DecBound(buf[..]);
    }
  }

  /** The carry after a last digit that became ten. */
  method CarryUp(buf: array<char>) returns (carried: bool)
    requires buf.Length >= 1 && AllDigits(buf[..buf.Length - 1]) && buf[buf.Length - 1] == ':'
    requires DecValue(buf[..]) >= 0
    modifies buf
    ensures Written(buf[..], carried, old(DecValue(buf[..])))
  {
    assert buf[..buf.Length] == buf[..];
    PropagateCarry(buf, buf.Length);
    assert buf[..buf.Length] == buf[..];
    DecBoundOr(buf[..]);
    carried := buf[0] == ':';
    if carried {
      buf[0] := '1';
      DecLeading(buf[..]);
    }
  }

  lemma ScaledBound(n: nat, d: nat, s: nat)
    requires n < 10 * d && s > 0
    ensures n * s < 10 * (d * s)
    ensures RoundHalfEven(n * s, 10 * (d * s)) == RoundHalfEven(n, 10 * d)
  {
    MulStrictMono(n, 10 * d, s);
    MulAssoc(10, d, s);
    RoundScaled(n, 10 * d, s);
  }

  lemma ScaledRounding(n: nat, d: nat, s: nat, p: nat)
    requires d > 0 && s > 0
    ensures d * s > 0 && RoundHalfEven(n * s * p, d * s) == RoundHalfEven(n * p, d)
  {
    MulRearrange(n, s, p);
    RoundScaled(n * p, d, s);
  }

  // ---- One digit ----

  /** The scaled value is a, in units of ten denominators, plus what is left. */
  predicate DigitsSoFar(scaled: int, a: int, den: int, rest: int) {
    scaled == a * (10 * den) + rest && 0 <= rest < 10 * den
  }

  /** The numerator can be divided: it was aligned by a subtraction, or is still the scaled original. */
  ghost predicate Divisible(numerator: Bigint, denominator: Bigint, scaled: int, numExp0: nat)
    reads numerator, denominator
  {
    && numerator.ComparableTo(denominator)
    && (numerator.exp <= denominator.exp || (numerator.exp == numExp0 && numerator.Val() == scaled && scaled > 0))
  }

  method NextDigit(numerator: Bigint, denominator: Bigint, ghost scaled: nat, ghost numExp0: nat) returns (digit: nat)
    requires numerator != denominator && Divisible(numerator, denominator, scaled, numExp0)
    requires !Missed(scaled, numExp0, denominator.Val(), denominator.exp)
    requires numerator.Val() < 10 * denominator.Val()
    modifies numerator
    ensures digit < 10 && numerator.Val() < denominator.Val()
    ensures old(numerator.Val()) == digit * denominator.Val() + numerator.Val()
    ensures Divisible(numerator, denominator, scaled, numExp0)
  {
    ghost var v, den := numerator.Val(), denominator.Val();
    TenfoldFits(numerator.bigits, numerator.exp, denominator.bigits, denominator.exp);
    digit := numerator.DivModAssign(denominator);
    if digit >= 10 {
      MulMono(10, digit, den);
    }
  }

  /** A number below ten times another one is at most one bigit longer, so the division ends. */
  lemma TenfoldFits(x: seq<Bigit>, xe: nat, y: seq<Bigit>, ye: nat)
    requires |x| >= 1 && |y| >= 1 && Value(x, xe) < 10 * Value(y, ye)
    ensures TopNonzero(x) ==> |x| + xe <= |y| + ye + 1
  {
    hide Weight, Value;
    if TopNonzero(x) && |x| + xe > |y| + ye + 1 {
      ValueBounds(x, xe);
      ValueBounds(y, ye);
      NextWeight(|y| + ye);
      WeightMono(|y| + ye + 1, |x| - 1 + xe);
    }
  }

  lemma WeightMono(m: nat, n: nat)
    requires m <= n
    ensures Weight(m) <= Weight(n)
  {
    PowMono(TWO32, m, n);
  }

  /** Moving to the next decimal place keeps the numerator divisible. */
  method TimesTen(numerator: Bigint, denominator: Bigint, ghost scaled: nat, ghost numExp0: nat)
    requires numerator != denominator && Divisible(numerator, denominator, scaled, numExp0)
    modifies numerator
    ensures numerator.Val() == 10 * old(numerator.Val())
    ensures Divisible(numerator, denominator, 10 * scaled, numExp0)
  {
    NormalZero(numerator.bigits, numerator.exp);
    numerator.Multiply32(10);
    NormalZero(numerator.bigits, numerator.exp);
  }

  lemma DigitStep(scaled: int, a: int, den: int, digit: int, rest: int)
    requires DigitsSoFar(scaled, a, den, digit * den + rest) && 0 <= rest < den
    ensures DigitsSoFar(10 * scaled, 10 * a + digit, den, 10 * rest)
  {
    LastDigit(scaled, a, den, digit, rest);
    assert (10 * a + digit) * (10 * den) == 10 * ((10 * a + digit) * den);
  }

  lemma LastDigit(scaled: int, a: int, den: int, digit: int, rest: int)
    requires DigitsSoFar(scaled, a, den, digit * den + rest)
    ensures scaled == (10 * a + digit) * den + rest
  {
    Distribute(10 * a, digit, den);
    MulAssoc(a, 10, den);
  }

  /** The largest value of a digit string whose first digit may have overflowed. */
  lemma DecBoundOr(s: seq<char>)
    requires |s| >= 1
    requires AllDigits(s) || (s[0] == ':' && forall k :: 0 < k < |s| ==> s[k] == '0')
    ensures if s[0] == ':' then DecValue(s) == Pow(10, |s|) else DecValue(s) < Pow(10, |s|)
  {
    if s[0] == ':' {
      DecLeading(s);
    } else {
      DecBound(s);
    }
  }

  // ---- Why the comparison in the division is exact here ----

  /** A numerator multiplied by powers of ten never drops below a larger exponent's weight. */
  lemma PowerNeverMissed(x: seq<Bigit>, xe: nat, k: nat)
    requires TopNonzero(x)
    ensures NeverMissed(Value(x, xe), xe, Pow(2, k), k / 32)
  {
    hide Pow, Value;
    forall i: nat
      ensures !Missed(Value(x, xe) * Pow(10, i), xe, Pow(2, k), k / 32)
    {
      if xe > k / 32 {
        AbovePower(x, xe, k);
        PowPositive(10, i);
        MulMono(1, Pow(10, i), Value(x, xe));
      }
    }
  }

  lemma AbovePower(x: seq<Bigit>, xe: nat, k: nat)
    requires TopNonzero(x) && xe > k / 32
    ensures Value(x, xe) > Pow(2, k)
  {
    hide Value;
    ValueBounds(x, xe);
    WeightMono(k / 32 + 1, |x| - 1 + xe);
    PowMul(2, 32, k / 32 + 1);
    Pow2Of32();
    assert Weight(k / 32 + 1) == Pow(2, 32 * (k / 32 + 1));
    hide Pow, Weight;
    PowStrictMono(2, k, 32 * (k / 32 + 1));
  }

  /** f * 2^e can equal a power of ten, with f in 64 bits, only for small e. */
  lemma EqualPowerOfTen(f: Uint64, e: nat, t: nat)
    requires f > 0 && f * Pow(2, e) == Pow(10, t)
    ensures e < 32
  {
    PowBaseMul(5, 2, t);
    if e > t {
      TooManyTwos(f, e - t, t);
    } else if e >= 32 {
      FewerTwos(f, e, t);
      PowMono(5, 32, t);
      Pow5Of32();
    }
  }

  lemma TooManyTwos(f: nat, a: nat, t: nat)
    requires a > 0
    ensures f * Pow(2, a + t) != Pow(5, t) * Pow(2, t)
  {
    PowAdd(2, a, t);
    PowPositive(2, t);
    PowOdd(5, t);
    EvenProduct(f, Pow(2, a - 1));
    CancelRight(f * Pow(2, a), Pow(5, t), Pow(2, t));
    MulAssoc(f, Pow(2, a), Pow(2, t));
  }

  lemma EvenProduct(f: nat, h: nat)
    ensures f * (2 * h) % 2 == 0
  {
    assert f * (2 * h) == 2 * (f * h);
  }

  lemma FewerTwos(f: nat, e: nat, t: nat)
    requires e <= t && f * Pow(2, e) == Pow(5, t) * Pow(2, t)
    ensures f >= Pow(5, t)
  {
    var p5, a, b := Pow(5, t), Pow(2, t - e), Pow(2, e);
    PowAdd(2, t - e, e);
    PowPositive(2, e);
    PowPositive(2, t - e);
    MulAssoc(p5, a, b);
    CancelRight(f, p5 * a, b);
    MulMono(1, a, p5);
  }

  /** Removing common powers of ten. */
  lemma RemoveTens(x: nat, k: nat, i: nat)
    requires x > 0 && x * Pow(10, i) == Pow(10, k)
    ensures k >= i && x == Pow(10, k - i)
  {
    PowPositive(10, i);
    MulMono(1, x, Pow(10, i));
    PowInverse(10, i, k);
    PowAdd(10, k - i, i);
    CancelRight(x, Pow(10, k - i), Pow(10, i));
  }

  lemma Pow5Of32()
    ensures Pow(5, 32) > TWO64
  {
    PowAdd(5, 8, 8);
    PowAdd(5, 16, 16);
    assert Pow(5, 8) == 390625;
  }

  lemma IntegerNeverMissed(f: Uint64, e: nat, k: nat, x: nat, y: nat, s: nat, denExp: nat)
    requires f > 0 && x == f * Pow(2, e) && y == Pow(10, k) && s > 0
    ensures NeverMissed(x * s, e / 32, y * s, denExp)
  {
    hide Pow;
    forall i: nat
      ensures !Missed(x * s * Pow(10, i), e / 32, y * s, denExp)
    {
      OneNeverMissed(f, e, k, x, y, s, i);
    }
  }

  lemma OneNeverMissed(f: Uint64, e: nat, k: nat, x: nat, y: nat, s: nat, i: nat)
    requires f > 0 && x == f * Pow(2, e) && y == Pow(10, k) && s > 0
    ensures x * s * Pow(10, i) == y * s ==> e < 32
  {
    if x * s * Pow(10, i) == y * s {
      CancelScale(x, s, Pow(10, i), y);
      SmallExponent(f, e, x, k, i);
    }
  }

  lemma SmallExponent(f: Uint64, e: nat, x: nat, k: nat, i: nat)
    requires f > 0 && x == f * Pow(2, e) && x * Pow(10, i) == Pow(10, k)
    ensures e < 32
  {
    PowPositive(2, e);
    MulMono(1, f, Pow(2, e));
    RemoveTens(x, k, i);
    EqualPowerOfTen(f, e, k - i);
  }

  lemma CancelScale(x: int, s: int, p: int, y: int)
    requires s > 0 && x * s * p == y * s
    ensures x * p == y
  {
    MulRearrange(x, s, p);
    CancelRight(x * p, y, s);
  }

  lemma PositiveProducts(f: nat, e: int, exp10: int, shift: nat)
    requires f > 0
    ensures Numer(f, e, exp10) * Pow(2, shift) > 0 && Denom(e, exp10) * Pow(2, shift) > 0
  {
    DenomPositive(e, exp10);
    PowPositive(2, shift);
    PowPositive(2, Max(e, 0));
    PowPositive(10, Max(-exp10, 0));
    MulStrictMono(0, f, Pow(2, Max(e, 0)));
    MulStrictMono(0, f * Pow(2, Max(e, 0)), Pow(10, Max(-exp10, 0)));
    MulStrictMono(0, Numer(f, e, exp10), Pow(2, shift));
    MulStrictMono(0, Denom(e, exp10), Pow(2, shift));
  }
}
