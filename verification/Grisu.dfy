/**
 Digit generation in fixed 64-bit words with a bound on the error of the scaled value (Grisu): it either
 produces digits that are right for every number within the error, or reports that it cannot tell.
 The scaled value is f / one with one = 2^shift.
 */
module Grisu {
  import opened Arithmetic
  import opened DecimalText
  import opened DecimalDigits

  datatype RoundDirection = Unknown | Up | Down

  /** Rounding for every true remainder within error of the given one; the comparisons must not overflow. */
  function GetRoundDirection(divisor: Uint64, remainder: Uint64, error: Uint64): (dir: RoundDirection)
    requires remainder < divisor && error < divisor && error < divisor - error
    ensures dir == Down <==> 2 * (remainder + error) <= divisor
    ensures dir == Up <==> error <= remainder && 2 * (remainder - error) >= divisor && dir != Down
  {
    DoubledFits(divisor, remainder, error);
    if remainder <= divisor - remainder && Wrap64(error * 2) <= Wrap64(divisor - Wrap64(remainder * 2)) then Down
    else if remainder >= error && remainder - error >= divisor - (remainder - error) then Up
    else Unknown
  }

  lemma Unwrapped64(x: int)
    requires 0 <= x < TWO64
    ensures Wrap64(x) == x
  {
  }

  /** Where the doubled words are used, doubling does not wrap. */
  lemma DoubledFits(divisor: Uint64, remainder: Uint64, error: Uint64)
    requires remainder < divisor && error < divisor - error
    ensures Wrap64(error * 2) == error * 2
    ensures remainder <= divisor - remainder ==> Wrap64(divisor - Wrap64(remainder * 2)) == divisor - remainder * 2
  {
    hide Wrap64;
    Unwrapped64(error * 2);
    if remainder <= divisor - remainder {
      Unwrapped64(remainder * 2);
      Unwrapped64(divisor - remainder * 2);
    }
  }

  datatype DigitsResult = More | Done | Error

  /** up or not up is within half a divisor of every remainder the error allows. */
  predicate RoundingFits(up: bool, divisor: int, remainder: int, error: int) {
    if up then divisor <= 2 * (remainder - error) && 2 * (remainder + error) <= 3 * divisor
    else -divisor <= 2 * (remainder - error) && 2 * (remainder + error) <= divisor
  }

  /** The error leaves no doubt about the rounding. */
  predicate Decided(divisor: int, remainder: int, error: int) {
    2 * (remainder + error) <= divisor || (error <= remainder && 2 * (remainder - error) >= divisor)
  }

  lemma DirectionFits(divisor: Uint64, remainder: Uint64, error: Uint64)
    requires remainder < divisor && error < divisor && error < divisor - error
    ensures GetRoundDirection(divisor, remainder, error) == Down ==> RoundingFits(false, divisor, remainder, error)
    ensures GetRoundDirection(divisor, remainder, error) == Up ==> RoundingFits(true, divisor, remainder, error)
  {
    var dir := GetRoundDirection(divisor, remainder, error);
    assert dir == Up ==> remainder >= error;
  }

  class GenDigitsHandler {
    const buf: array<char>
    var size: nat
    var precision: int
    var exp10: int
    const fixed: bool

    constructor (buf: array<char>, precision: int, exp10: int, fixed: bool)
      ensures this.buf == buf && size == 0 && this.precision == precision && this.exp10 == exp10
      ensures this.fixed == fixed
    {
      this.buf, size, this.precision, this.exp10, this.fixed := buf, 0, precision, exp10, fixed;
    }

    ghost predicate Valid()
      reads this, buf
    {
      size <= buf.Length && AllDigits(buf[..size])
    }

    /** The digits generated so far. */
    ghost function Digits(): int
      reads this, buf
      requires Valid()
    {
      DecValue(buf[..size])
    }

    /** n digits, or in fixed mode one and n zeros after a carry out of the first digit. */
    ghost predicate Sized(n: nat)
      requires Valid()
      reads this, buf
    {
      size == n || (fixed && size == n + 1 && Digits() == Pow(10, n))
    }

    /**
     Appends a digit; when enough are there, rounds the last one. On Done the digits, with a zero appended if a
     carry out of the first digit raised exp10 instead, are the old ones, the new one and the rounding.
     */
    method OnDigit(digit: char, divisor: Uint64, remainder: Uint64, error: Uint64, integral: bool)
      returns (r: DigitsResult, ghost up: bool)
      requires Valid() && size + 1 < buf.Length && IsDigit(digit)
      requires remainder < divisor && (integral ==> error == 1 && divisor > 2)
      modifies this`size, this`exp10, buf
      ensures Valid()
      ensures r != Done ==> !up && exp10 == old(exp10) && size == old(size) + 1
                            && Digits() == 10 * old(Digits()) + DigitValue(digit)
      ensures r == More ==> size < precision && (integral || error < remainder)
      ensures r == Error ==> (!integral && error >= remainder)
                             || (size >= precision && !Decided(divisor, remainder, error))
      ensures r == Done ==> RoundingFits(up, divisor, remainder, error) && Decided(divisor, remainder, error)
      ensures r == Done ==> old(size) + 1 >= precision && Sized(old(size) + 1)
      ensures r == Done ==> exp10 == old(exp10) || (exp10 == old(exp10) + 1 && !fixed)
      ensures r == Done ==> Digits() * (if exp10 == old(exp10) then 1 else 10)
                            == 10 * old(Digits()) + DigitValue(digit) + if up then 1 else 0
    {
      up := false;
      ghost var before := buf[..size];
      buf[size] := digit;
      size := size + 1;
      assert buf[..size - 1] == before;
      DecStep(buf[..], size - 1);
      assert buf[..][..size - 1] == before && buf[..][..size] == buf[..size];
      if !integral && error >= remainder {
        return Error, false;
      }
      if size < precision {
        return More, false;
      }
      if !integral {
        if error >= divisor || error >= divisor - error {
          return Error, false;
        }
      }
      var dir := GetRoundDirection(divisor, remainder, error);
      DirectionFits(divisor, remainder, error);
      if dir != Up {
        return if dir == Down then Done else Error, false;
      }
      up := true;
      r := Done;
      RoundUp();
    }

    /** Increments the last digit and propagates the carry. */
    method RoundUp()
      requires Valid() && 1 <= size < buf.Length
      modifies this`size, this`exp10, buf
      ensures Valid()
      ensures exp10 == old(exp10) || (exp10 == old(exp10) + 1 && !fixed)
      ensures Sized(old(size))
      ensures Digits() * (if exp10 == old(exp10) then 1 else 10) == old(Digits()) + 1
    {
      IncrementLast(buf, size);
      PropagateCarry(buf, size);
      if buf[0] > '9' {
        ReplaceLeading(buf, size);
        if fixed {
          ghost var shorter := buf[..size];
          buf[size] := '0';
          size := size + 1;
          assert buf[..size][..size - 1] == shorter;
        } else {
          exp10 := exp10 + 1;
        }
      }
    }
  }

  // ---- What the digits say about the scaled value ----

  /** q units of 10^exp are a nearest multiple for both ends of the interval error around f / one. */
  predicate AllRoundTo(q: int, f: int, error: int, one: nat, exp: int) {
    if exp >= 0 then HalfUnit(q, Pow(10, exp) * one, f, error)
    else HalfUnit(q, one, f * Pow(10, -exp), error * Pow(10, -exp))
  }

  predicate HalfUnit(q: int, unit: int, f: int, error: int) {
    2 * (q * unit) - unit <= 2 * (f - error) && 2 * (f + error) <= 2 * (q * unit) + unit
  }

  /** Hence for every real number within the error; t is the power of ten digits behind the point scale by. */
  lemma NearestScaled(q: int, unit: int, f: int, error: int, t: nat, x: real)
    requires HalfUnit(q, unit, f * t, error * t)
    requires (f - error) as real <= x <= (f + error) as real
    ensures 2.0 * Distance((q * unit) as real, x * t as real) <= unit as real
  {
    ScaledInterval(f, error, t, x);
    HalfUnitReal(q, unit, f * t, error * t, x * t as real);
  }

  lemma HalfUnitReal(q: int, unit: int, f: int, error: int, x: real)
    requires HalfUnit(q, unit, f, error)
    requires (f - error) as real <= x <= (f + error) as real
    ensures 2.0 * Distance((q * unit) as real, x) <= unit as real
  {
    var m := q * unit;
    assert (2 * m - unit) as real == 2.0 * m as real - unit as real;
  }

  lemma ScaledInterval(f: int, error: int, t: nat, x: real)
    requires (f - error) as real <= x <= (f + error) as real
    ensures (f * t - error * t) as real <= x * t as real <= (f * t + error * t) as real
  {
    RealMono((f - error) as real, x, t as real);
    RealMono(x, (f + error) as real, t as real);
    RealProduct(f - error, t);
    RealProduct(f + error, t);
    Distribute(f, -error, t);
    Distribute(f, error, t);
  }

  function Distance(x: real, y: real): real {
    if x <= y then y - x else x - y
  }

  lemma RealMono(x: real, y: real, z: real)
    requires x <= y && z >= 0.0
    ensures x * z <= y * z
  {
  }

  lemma RealProduct(x: int, y: int)
    ensures (x * y) as real == x as real * y as real
  {
  }

  /** From the rounding decision on the remainder to the whole value. */
  lemma RoundedValue(q: int, unit: int, f: int, remainder: int, error: int, up: bool)
    requires f == q * unit + remainder && RoundingFits(up, unit, remainder, error)
    ensures HalfUnit(q + if up then 1 else 0, unit, f, error)
  {
    Distribute(q, 1, unit);
  }

  lemma TruncatedValue(q: int, unit: int, f: int, remainder: int)
    requires f == q * unit + remainder && 0 <= remainder < unit
    ensures q * unit <= f < (q + 1) * unit
    ensures forall error: int ::
              Ambiguous(q, unit, f, error) <==> remainder <= error || !Decided(unit, remainder, error)
  {
    Distribute(q, 1, unit);
  }

  // ---- Digits of the integral part ----

  /** digits, then integral below 10^kappa, then the fraction, make up the value. */
  predicate IntegralState(f: int, one: nat, digits: int, kappa: nat, integral: int, fractional: int) {
    && f == (digits * Pow(10, kappa) + integral) * one + fractional
    && 0 <= integral < Pow(10, kappa) && 0 <= fractional < one
  }

  lemma IntegralStep(f: int, one: nat, digits: int, kappa: nat, integral: nat, fractional: int, digit: nat, rest: nat)
    requires kappa > 0 && IntegralState(f, one, digits, kappa, integral, fractional)
    requires integral == digit * Pow(10, kappa - 1) + rest && rest < Pow(10, kappa - 1)
    ensures digit < 10
    ensures IntegralState(f, one, 10 * digits + digit, kappa - 1, rest, fractional)
    ensures f == (10 * digits + digit) * (Pow(10, kappa - 1) * one) + (rest * one + fractional)
    ensures 0 <= rest * one + fractional < Pow(10, kappa - 1) * one
  {
    var p := Pow(10, kappa - 1);
    assert Pow(10, kappa) == 10 * p;
    hide Pow;
    if digit >= 10 {
      MulMono(10, digit, p);
    }
    DigitMovesUp(digits, digit, p);
    Distribute((10 * digits + digit) * p, rest, one);
    MulAssoc(10 * digits + digit, p, one);
    RestBelow(rest, p, one, fractional);
  }

  lemma DigitMovesUp(digits: int, digit: int, p: int)
    ensures digits * (10 * p) + digit * p == (10 * digits + digit) * p
  {
    Distribute(10 * digits, digit, p);
    MulAssoc(digits, 10, p);
  }

  lemma RestBelow(rest: nat, p: nat, one: nat, fractional: int)
    requires rest < p && 0 <= fractional < one
    ensures 0 <= rest * one + fractional < p * one
  {
    MulMono(rest + 1, p, one);
    Distribute(rest, 1, one);
    MulMono(0, rest, one);
  }

  /** The divisor of every digit fits in a word: it is not above the value itself. */
  lemma DivisorFits(f: Uint64, one: nat, count: nat, k: nat)
    requires k < count && Pow(10, count - 1) * one <= f
    ensures Pow(10, k) * one <= f
  {
    PowMono(10, k, count - 1);
    MulMono(Pow(10, k), Pow(10, count - 1), one);
  }

  /** Generates the integral digits; exp counts those still to come. */
  method GenIntegral(f: Uint64, one: Uint64, integral0: Uint32, fractional: Uint64, count: nat,
                     handler: GenDigitsHandler)
    returns (r: DigitsResult, exp: nat)
    requires handler.Valid() && handler.size == 0 && handler.buf.Length >= 32
    requires one > 2 && f == integral0 * one + fractional && fractional < one
    requires 1 <= count <= 10 && count == NumDigits(integral0) && Pow(10, count - 1) * one <= f
    modifies handler`size, handler`exp10, handler.buf
    ensures Reported(handler, r, f, one, exp, old(handler.exp10))
    ensures exp <= count && (r == More ==> exp == 0 && handler.size == count && handler.size < handler.precision)
    ensures r == More ==> f == handler.Digits() * one + fractional
  {
    exp := count;
    var integral: nat := integral0;
    r := More;
    assert handler.buf[..0] == [];
    IntegralStart(f, one, count, integral0, fractional);
    hide Pow, IntegralState, Reported;
    while r == More && exp > 0
      invariant handler.Valid() && 0 <= exp <= count
      invariant r == More ==> handler.size == count - exp && handler.exp10 == old(handler.exp10)
      invariant r == More ==> IntegralState(f, one, handler.Digits(), exp, integral, fractional)
      invariant r != More || exp < count ==> Reported(handler, r, f, one, exp, old(handler.exp10))
      invariant r == More && exp < count ==> handler.size < handler.precision
      decreases exp
    {
      r, integral := IntegralDigit(f, one, integral, fractional, exp, count, handler);
      exp := exp - 1;
    }
    if r == More {
      IntegralEnd(f, one, handler.Digits(), integral, fractional);
    }
  }

  lemma IntegralStart(f: int, one: nat, count: nat, integral: nat, fractional: nat)
    requires f == integral * one + fractional && fractional < one && count == NumDigits(integral)
    ensures IntegralState(f, one, 0, count, integral, fractional)
  {
    NumDigitsBounds(integral);
    assert 0 * Pow(10, count) + integral == integral;
  }

  lemma IntegralEnd(f: int, one: nat, digits: int, integral: int, fractional: int)
    requires IntegralState(f, one, digits, 0, integral, fractional)
    ensures f == digits * one + fractional
  {
    assert Pow(10, 0) == 1;
    assert digits * 1 + 0 == digits;
  }

  /** One integral digit. */
  method IntegralDigit(f: Uint64, one: Uint64, integral: nat, fractional: Uint64, exp: nat, count: nat,
                       handler: GenDigitsHandler) returns (r: DigitsResult, rest: nat)
    requires handler.Valid() && handler.size + 1 < handler.buf.Length && one > 2
    requires 1 <= exp <= count <= 10 && Pow(10, count - 1) * one <= f
    requires IntegralState(f, one, handler.Digits(), exp, integral, fractional)
    requires handler.size == 0 || handler.size < handler.precision
    modifies handler`size, handler`exp10, handler.buf
    ensures Reported(handler, r, f, one, exp - 1, old(handler.exp10))
    ensures r == More ==> handler.size == old(handler.size) + 1 && handler.size < handler.precision
    ensures r == More ==> IntegralState(f, one, handler.Digits(), exp - 1, rest, fractional)
  {
    hide Pow, IntegralState, HalfUnit, Ambiguous, Decided, RoundingFits;
    ghost var digits := handler.Digits();
    var digit;
    digit, rest := DivModIntegral(integral, exp - 1);
    IntegralStep(f, one, digits, exp, integral, fractional, digit, rest);
    var scaled := ScaledPower(f, one, exp - 1, count);
    var remainder := RestOfValue(f, one, rest, fractional, scaled);
    ghost var up: bool;
    r, up := handler.OnDigit(DigitChar(digit), scaled, remainder, 1, true);
    if r == Done {
      RoundedValue(10 * digits + digit, scaled, f, remainder, 1, up);
    } else {
      TruncatedValue(10 * digits + digit, scaled, f, remainder);
    }
  }

  /** Division of the integral part by a power of ten. */
  method DivModIntegral(integral: nat, exp: nat) returns (digit: nat, rest: nat)
    requires exp < 10
    ensures integral == digit * Pow(10, exp) + rest && rest < Pow(10, exp)
  {
    PowersOf10(exp);
    var divisor := POWERS_OF_10[exp];
    digit, rest := integral / divisor, integral % divisor;
  }

  /** A power of ten shifted to the scale of the value; it is not larger than the value. */
  method ScaledPower(f: Uint64, one: Uint64, exp: nat, count: nat) returns (scaled: Uint64)
    requires exp < count <= 10 && Pow(10, count - 1) * one <= f && one > 2
    ensures scaled == Pow(10, exp) * one && scaled > 2
  {
    PowersOf10(exp);
    DivisorFits(f, one, count, exp);
    PowPositive(10, exp);
    ScaledDivisor(Pow(10, exp), one);
    scaled := POWERS_OF_10[exp] * one;
  }

  /** The remaining integral part shifted up, with the fraction below it. */
  method RestOfValue(f: Uint64, one: Uint64, rest: nat, fractional: Uint64, ghost scaled: Uint64)
    returns (remainder: Uint64)
    requires 0 <= rest * one + fractional < scaled
    ensures remainder == rest * one + fractional
  {
    remainder := rest * one + fractional;
  }

  lemma ScaledDivisor(divisor: nat, one: nat)
    requires divisor > 0 && one > 2
    ensures divisor * one > 2
  {
    MulMono(1, divisor, one);
  }

  /** Within the error of x the digits may differ from q, or their rounding is not decided. */
  predicate Ambiguous(q: int, unit: int, x: int, error: int) {
    x - q * unit <= error || !Decided(unit, x - q * unit, error)
  }

  /** What a result says about the value x, in units of the last digit. */
  ghost predicate ReportedAt(handler: GenDigitsHandler, r: DigitsResult, x: int, error: int, unit: int, exp10: int)
    reads handler, handler.buf
  {
    && handler.Valid()
    && (r == Done ==> handler.exp10 == exp10 || (handler.exp10 == exp10 + 1 && !handler.fixed))
    && (r == Done ==> HalfUnit(handler.Digits() * (if handler.exp10 == exp10 then 1 else 10), unit, x, error))
    && (r == Done ==> handler.Sized(Max(1, handler.precision)))
    && (r != Done ==> handler.exp10 == exp10 && handler.Digits() * unit <= x < (handler.Digits() + 1) * unit)
    && (r == Error ==> Ambiguous(handler.Digits(), unit, x, error))
  }

  /** The same with the unit expressed by the decimal exponent of the last digit. */
  ghost predicate Reported(handler: GenDigitsHandler, r: DigitsResult, f: int, one: nat, exp: int, exp10: int)
    reads handler, handler.buf
  {
    if exp >= 0 then ReportedAt(handler, r, f, 1, Pow(10, exp) * one, exp10)
    else ReportedAt(handler, r, f * Pow(10, -exp), Pow(10, -exp), one, exp10)
  }

  // ---- Digits of the fractional part ----

  predicate FractionalState(x: int, one: nat, digits: int, fractional: int) {
    x == digits * one + fractional && 0 <= fractional < one
  }

  lemma FractionalStep(x: int, one: nat, digits: int, fractional: int, d: int, rest: int)
    requires one > 0 && FractionalState(x, one, digits, fractional)
    requires 10 * fractional == d * one + rest && 0 <= rest < one
    ensures 0 <= d < 10
    ensures FractionalState(10 * x, one, 10 * digits + d, rest)
  {
    if d >= 10 {
      MulMono(10, d, one);
    } else if d < 0 {
      MulMono(d, -1, one);
    }
    Distribute(10 * digits, d, one);
    MulAssoc(10, digits, one);
  }

  /** The words of the next digit: the shift and the mask by one, after scaling by ten without overflow. */
  method ScaleFraction(fractional0: Uint64, error0: Uint64, one: Uint64)
    returns (digit: nat, fractional: Uint64, error: Uint64)
    requires fractional0 < one <= 0x1000_0000_0000_0000 && error0 < one
    ensures 10 * fractional0 == digit * one + fractional && fractional < one && digit < 10
    ensures error == 10 * error0
  {
    Unwrapped64(fractional0 * 10);
    Unwrapped64(error0 * 10);
    hide Wrap64;
    var scaled := Wrap64(fractional0 * 10);
    error := Wrap64(error0 * 10);
    DigitOf(scaled, one);
    digit, fractional := scaled / one, scaled % one;
  }

  lemma DigitOf(x: nat, one: nat)
    requires x < 10 * one
    ensures 0 <= x / one < 10 && x == (x / one) * one + x % one && 0 <= x % one < one
  {
    var d := x / one;
    assert x == d * one + x % one;
    if d >= 10 {
      MulMono(10, d, one);
    } else if d < 0 {
      MulMono(d, -1, one);
    }
  }

  /** A power of ten below 2^60 has at most 18 zeros. */
  lemma FewZeros(k: nat, one: nat)
    requires Pow(10, k) < one <= 0x1000_0000_0000_0000
    ensures k <= 18
  {
    PowersOf10(19);
    if k >= 19 {
      PowMono(10, 19, k);
    }
  }

  /**
   The endless loop over the fractional digits. It ends because the error grows tenfold with each digit and
   OnDigit gives up once it reaches the remainder, which is below one.
   */
  method GenFractional(f: Uint64, one: Uint64, fractional0: Uint64, count: nat, handler: GenDigitsHandler)
    returns (r: DigitsResult, exp: int)
    requires handler.Valid() && handler.size == count <= 10 && handler.buf.Length >= 32
    requires count < handler.precision
    requires 10 < one <= 0x1000_0000_0000_0000 && fractional0 < one
    requires f == handler.Digits() * one + fractional0
    modifies handler`size, handler`exp10, handler.buf
    ensures Reported(handler, r, f, one, exp, old(handler.exp10))
    ensures r != More && exp < 0
  {
    assert Pow(10, 0) == 1;
    exp := 0;
    var fractional: Uint64, error: Uint64 := fractional0, 1;
    ghost var k, x: int := 0, f;
    r := More;
    while r == More
      invariant handler.Valid() && k == -exp && (r != More ==> exp < 0)
      invariant x == f * Pow(10, k)
      invariant r == More ==> error == Pow(10, k) < one
      invariant r == More ==> handler.size == count + k < handler.precision && handler.exp10 == old(handler.exp10)
      invariant r == More ==> FractionalState(x, one, handler.Digits(), fractional)
      invariant r != More ==> Reported(handler, r, f, one, exp, old(handler.exp10))
      decreases r == More, one - error
    {
      FewZeros(k, one);
      NextScale(f, k);
      r, fractional := FractionalDigit(x, one, fractional, error, handler);
      k, x := k + 1, 10 * x;
      error := error * 10;
      exp := exp - 1;
    }
  }

  lemma NextScale(f: int, k: nat)
    ensures f * Pow(10, k + 1) == 10 * (f * Pow(10, k)) && Pow(10, k + 1) == 10 * Pow(10, k)
  {
    assert f * (10 * Pow(10, k)) == 10 * (f * Pow(10, k));
  }

  /** One fractional digit; x is the value with the digits so far in front of the point. */
  method FractionalDigit(ghost x: int, one: Uint64, fractional0: Uint64, error0: Uint64, handler: GenDigitsHandler)
    returns (r: DigitsResult, fractional: Uint64)
    requires handler.Valid() && handler.size + 1 < handler.buf.Length
    requires 10 < one <= 0x1000_0000_0000_0000 && error0 < one
    requires FractionalState(x, one, handler.Digits(), fractional0)
    requires handler.size < handler.precision
    modifies handler`size, handler`exp10, handler.buf
    ensures handler.Valid() && ReportedAt(handler, r, 10 * x, 10 * error0, one, old(handler.exp10))
    ensures r == More ==> handler.exp10 == old(handler.exp10)
    ensures r == More ==> handler.size == old(handler.size) + 1 && handler.size < handler.precision
    ensures r == More ==> 10 * error0 < one
    ensures r == More ==> FractionalState(10 * x, one, handler.Digits(), fractional)
  {
    ghost var digits := handler.Digits();
    var digit, error;
    digit, fractional, error := ScaleFraction(fractional0, error0, one);
    FractionalStep(x, one, digits, fractional0, digit, fractional);
    ghost var up: bool;
    r, up := handler.OnDigit(DigitChar(digit), one, fractional, error, false);
    if r == Done {
      RoundedValue(10 * digits + digit, one, 10 * x, fractional, error, up);
    } else {
      TruncatedValue(10 * digits + digit, one, 10 * x, fractional);
    }
  }

  // ---- The whole algorithm ----

  datatype Outcome = Returned(result: DigitsResult) | NumberTooBig

  /** 2^shift as the code's shifts use it. */
  lemma OneBounds(shift: nat)
    requires 32 <= shift <= 60
    ensures TWO32 <= Pow(2, shift) <= 0x1000_0000_0000_0000 && Pow(2, shift) % 2 == 0
  {
    assert Pow(2, shift) == 2 * Pow(2, shift - 1);
    LowThresholds();
    HighThresholds();
    PowMono(2, 32, shift);
    PowMono(2, shift, 60);
    PowAdd(2, 59, 1);
    assert Pow(2, 1) == 2;
    PowAdd(2, 56, 4);
    assert Pow(2, 4) == 16;
  }

  /** In fixed mode the precision counts from the decimal point; returns it relative to the first digit. */
  method AdjustPrecision(handler: GenDigitsHandler, count: nat) returns (tooBig: bool)
    modifies handler`precision
    ensures handler.precision == old(handler.precision) + if handler.fixed && !tooBig then count + handler.exp10 else 0
    ensures tooBig <==> handler.fixed && count + handler.exp10 > 0
                        && old(handler.precision) + count + handler.exp10 > INT_MAX
  {
    tooBig := false;
    if handler.fixed {
      var offset := count + handler.exp10;
      if offset > 0 && handler.precision > INT_MAX - offset {
        return true;
      }
      handler.precision := handler.precision + offset;
    }
  }

  /** The early exit of fixed precision cannot tell: the value is too close to half of the unit above it. */
  predicate EarlyError(f: int, unit: int) {
    -180 <= 2 * f - unit <= 198
  }

  /** Its test divides by ten and takes an error of ten, so it gives up earlier than an error of one requires. */
  lemma EarlyErrorExactly(f: nat, divisor: nat)
    requires divisor % 2 == 0 && divisor > 20
    ensures !Decided(divisor, f / 10, 10) <==> -20 < 2 * (f / 10) - divisor < 20
    ensures !Decided(divisor, f / 10, 10) <==> EarlyError(f, 10 * divisor)
    ensures !Decided(10 * divisor, f, 1) <==> 2 * f == 10 * divisor
    ensures !Decided(10 * divisor, f, 1) ==> EarlyError(f, 10 * divisor)
  {
    assert f == 10 * (f / 10) + f % 10;
  }

  /** A value of the generator whose early exit gives up, although 0 is right for every number within the error. */
  lemma NeedlessError()
    ensures var one, f := Pow(2, 60), 5 * Pow(2, 60) - 45;
            && one <= f < TWO32 * one && NumDigits(f / one) == 1
            && EarlyError(f, Pow(10, 1) * one)
            && Decided(Pow(10, 1) * one, f, 1) && AllRoundTo(0, f, 1, one, 1)
  {
    var one, f := Pow(2, 60), 5 * Pow(2, 60) - 45;
    OneBounds(60);
    PowersOf10(1);
    hide Pow;
    DivModUnique(f, one, 4, one - 45);
  }

  /** No digit position left: the value is compared with half of the unit above it, scaled down by ten. */
  method LeadingZeroOnly(f: Uint64, one: Uint64, count: nat, handler: GenDigitsHandler) returns (r: DigitsResult)
    requires handler.Valid() && handler.size == 0 && handler.buf.Length >= 32 && handler.precision <= 0
    requires one >= TWO32 && one % 2 == 0
    requires 1 <= count <= 10 && Pow(10, count - 1) * one <= f < Pow(10, count) * one
    modifies handler`size, handler.buf
    ensures handler.precision < 0 ==> handler.size == 0 && r == Done
    ensures handler.precision == 0 ==> r != More && (r == Done ==> Reported(handler, r, f, one, count, handler.exp10))
    ensures handler.precision == 0 ==> (r == Error <==> EarlyError(f, Pow(10, count) * one))
  {
    if handler.precision < 0 {
      return Done;
    }
    assert handler.buf[..0] == [];
    var divisor := DivisorOfFirst(f, one, count);
    var dir := GetRoundDirection(divisor, f / 10, 10);
    EarlyErrorExactly(f, divisor);
    if dir == Unknown {
      return Error;
    }
    var c := if dir == Up then '1' else '0';
    handler.buf[0] := c;
    handler.size := 1;
    OneDigit(handler.buf[..1], c);
    EarlyRounding(f, divisor, dir);
    r := Done;
  }

  /** The divisor of the first digit, which is that of the unit above it divided by ten. */
  method DivisorOfFirst(f: Uint64, one: Uint64, count: nat) returns (divisor: Uint64)
    requires one >= TWO32 && one % 2 == 0
    requires 1 <= count <= 10 && Pow(10, count - 1) * one <= f < Pow(10, count) * one
    ensures divisor == Pow(10, count - 1) * one && Pow(10, count) * one == 10 * divisor
    ensures divisor >= TWO32 && divisor % 2 == 0 && f / 10 < divisor
  {
    PowersOf10(count - 1);
    DivisorFits(f, one, count, count - 1);
    PowPositive(10, count - 1);
    MulMono(1, Pow(10, count - 1), one);
    ModMul(Pow(10, count - 1), one, 2);
    assert Pow(10, count) == 10 * Pow(10, count - 1);
    MulAssoc(10, Pow(10, count - 1), one);
    divisor := POWERS_OF_10[count - 1] * one;
  }

  lemma OneDigit(text: string, c: char)
    requires text == [c] && IsDigit(c)
    ensures AllDigits(text) && DecValue(text) == DigitValue(c)
  {
    DecStep(text, 0);
    assert text[..0] == [] && text[..1] == text;
  }

  lemma EarlyRounding(f: Uint64, divisor: Uint64, dir: RoundDirection)
    requires divisor >= TWO32 && f / 10 < divisor && f < 10 * divisor
    requires dir == GetRoundDirection(divisor, f / 10, 10) && dir != Unknown
    ensures HalfUnit(if dir == Up then 1 else 0, 10 * divisor, f, 1)
  {
    assert f == 10 * (f / 10) + f % 10;
  }

  /** Generates digits of f / 2^shift, an estimate that is off by at most one unit of f. */
  method GenDigits(f: Uint64, shift: nat, handler: GenDigitsHandler) returns (out: Outcome, exp: int)
    requires handler.Valid() && handler.size == 0 && handler.buf.Length >= 32
    requires 32 <= shift <= 60 && Pow(2, shift) <= f < TWO32 * Pow(2, shift)
    modifies handler`size, handler`precision, handler`exp10, handler.buf
    ensures var one, count := Pow(2, shift), NumDigits(f / Pow(2, shift));
            var offset, wanted := count + old(handler.exp10), handler.precision;
            && (out == NumberTooBig <==> handler.fixed && offset > 0 && old(handler.precision) + offset > INT_MAX)
            && wanted == old(handler.precision) + (if handler.fixed && out.Returned? then offset else 0)
            && (out.Returned? && handler.fixed && wanted < 0 ==>
                  out.result == Done && handler.size == 0 && AllRoundTo(0, f, 1, one, count - wanted))
            && (out.Returned? && handler.fixed && wanted == 0 ==>
                  && out.result != More
                  && (out.result == Done ==> Reported(handler, Done, f, one, exp, old(handler.exp10)))
                  && (out.result == Error <==> EarlyError(f, Pow(10, count) * one)))
            && (out.Returned? && !(handler.fixed && wanted <= 0) ==>
                  out.result != More && Reported(handler, out.result, f, one, exp, old(handler.exp10)))
  {
    OneBounds(shift);
    var one: Uint64 := Pow(2, shift);
    var integral: Uint32, fractional: Uint64 := SplitValue(f, one);
    exp := CountDigits32(integral);
    var count := exp;
    CountBounds(f, one, integral, fractional, count);
    var tooBig := AdjustPrecision(handler, count);
    if tooBig {
      return NumberTooBig, exp;
    }
    if handler.fixed && handler.precision <= 0 {
      if handler.precision < 0 {
        BelowHalf(f, one, count, handler.precision);
      }
      var r0 := LeadingZeroOnly(f, one, count, handler);
      return Returned(r0), exp;
    }
    var r;
    r, exp := GenIntegral(f, one, integral, fractional, count, handler);
    if r == More {
      r, exp := GenFractional(f, one, fractional, count, handler);
    }
    return Returned(r), exp;
  }

  method SplitValue(f: Uint64, one: Uint64) returns (integral: Uint32, fractional: Uint64)
    requires 0 < one <= f < TWO32 * one
    ensures integral > 0 && integral == f / one && f == integral * one + fractional && fractional < one
  {
    fractional := f % one;
    var q := f / one;
    assert f == q * one + fractional;
    if q >= TWO32 {
      MulMono(TWO32, q, one);
    } else if q <= 0 {
      MulMono(q, 0, one);
    }
    integral := q;
  }

  lemma CountBounds(f: Uint64, one: Uint64, integral: Uint32, fractional: Uint64, count: nat)
    requires integral > 0 && f == integral * one + fractional && fractional < one && count == NumDigits(integral)
    ensures 1 <= count <= 10 && Pow(10, count - 1) * one <= f < Pow(10, count) * one
  {
    NumDigitsBounds(integral);
    MulMono(Pow(10, count - 1), integral, one);
    MulMono(integral + 1, Pow(10, count), one);
    Distribute(integral, 1, one);
    if count > 10 {
      PowersOf10(10);
      PowMono(10, 10, count - 1);
    }
  }

  /** A value below 10^count rounds to zero in units of 10^(count + 1) and above. */
  lemma BelowHalf(f: Uint64, one: Uint64, count: nat, precision: int)
    requires precision < 0 && one > 2 && f < Pow(10, count) * one
    ensures AllRoundTo(0, f, 1, one, count - precision)
  {
    PowMono(10, count + 1, count - precision);
    MulMono(Pow(10, count + 1), Pow(10, count - precision), one);
    MulAssoc(10, Pow(10, count), one);
    PowPositive(10, count);
    MulMono(1, Pow(10, count), one);
  }

  method IncrementLast(buf: array<char>, size: nat)
    requires 1 <= size <= buf.Length && AllDigits(buf[..size])
    modifies buf
    ensures DecValue(buf[..size]) == old(DecValue(buf[..size])) + 1
    ensures AllDigits(buf[..size - 1]) && '0' <= buf[size - 1] <= ':'
  {
    ghost var before := buf[..size];
    buf[size - 1] := (buf[size - 1] as int + 1) as char;
    assert buf[..size][..size - 1] == before[..size - 1] == buf[..size - 1];
  }

  /** Ten in the first place, zeros behind it: one is left and the number has lost its last zero. */
  method ReplaceLeading(buf: array<char>, size: nat)
    requires 1 <= size <= buf.Length && buf[0] == ':' && forall k :: 0 < k < size ==> buf[k] == '0'
    modifies buf
    ensures AllDigits(buf[..size]) && 10 * DecValue(buf[..size]) == old(DecValue(buf[..size]))
    ensures DecValue(buf[..size]) == Pow(10, size - 1)
  {
    DecLeading(buf[..size]);
    buf[0] := '1';
    DecLeading(buf[..size]);
  }
}
