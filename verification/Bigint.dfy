/**
 The arbitrary-precision integer of the float formatter: bigits and a bigit exponent, updated in place.
 Every operation is specified by what it does to the denoted number Val().
 */
module Bigints {
  import opened Arithmetic
  import opened Bigits
  import opened Comparison

  const TWO128: int := 0x1_0000_0000_0000_0000_0000_0000_0000_0000

  /** Sum of 64-bit terms kept in two 64-bit words. */
  class Accumulator {
    var lower: Uint64
    var upper: Uint64

    ghost function Total(): nat
      reads this
    {
      upper * TWO64 + lower
    }

    constructor ()
      ensures Total() == 0
    {
      lower, upper := 0, 0;
    }

    method Add(n: Uint64)
      requires Total() + n < TWO128
      modifies this
      ensures Total() == old(Total()) + n
    {
      lower := Wrap64(lower + n);
      if lower < n {
        upper := Wrap64(upper + 1);
      }
    }

    /** Drops the low 32 bits; the two or-ed words have no common bit, so or is addition. */
    method ShiftRight32()
      modifies this
      ensures Total() == old(Total()) / TWO32
    {
      ghost var u, l := upper, lower;
      lower := Wrap64(upper * TWO32) + lower / TWO32;
      upper := upper / TWO32;
      assert Wrap64(u * TWO32) == (u % TWO32) * TWO32 by {
        DivModUnique(u * TWO32, TWO64, u / TWO32, (u % TWO32) * TWO32);
      }
      DivModUnique(u * TWO64 + l, TWO32, u * TWO32 + l / TWO32, l % TWO32);
    }
  }

  class Bigint {
    var bigits: seq<Bigit>
    var exp: nat

    /** The denoted integer. */
    ghost function Val(): nat
      reads this
    {
      Value(bigits, exp)
    }

    function NumBigits(): nat
      reads this
    {
      |bigits| + exp
    }

    /** What digit generation sees to: a normal number, compared with a nonzero one, and no long zero. */
    predicate ComparableTo(other: Bigint)
      reads this, other
    {
      Normal(bigits) && TopNonzero(other.bigits) && !LongZero(bigits, exp, other.bigits, other.exp)
    }

    constructor ()
      ensures bigits == [] && exp == 0
    {
      bigits, exp := [], 0;
    }

    /** One bigit of a subtraction, in 64-bit arithmetic that wraps. */
    method SubtractBigits(index: nat, other: Bigit, borrow: Bigit) returns (out: Bigit)
      requires index < |bigits| && borrow <= 1
      modifies this`bigits
      ensures out == if old(bigits[index]) < other + borrow then 1 else 0
      ensures bigits == old(bigits)[index := old(bigits[index]) - other - borrow + out * TWO32]
    {
      WrappedDifference(bigits[index], other + borrow);
      var result := Wrap64(bigits[index] - other - borrow);
      bigits := bigits[index := Wrap32(result)];
      out := result / 0x8000_0000_0000_0000;
    }

    method RemoveLeadingZeros()
      requires |bigits| >= 1
      modifies this`bigits
      ensures Normal(bigits) && |bigits| <= old(|bigits|)
      ensures Num(bigits) == old(Num(bigits))
      ensures old(TopNonzero(bigits)) ==> bigits == old(bigits)
    {
      var numBigits := |bigits| - 1;
      assert bigits[..numBigits + 1] == bigits;
      while numBigits > 0 && bigits[numBigits] == 0
        invariant 0 <= numBigits < |bigits| && bigits == old(bigits)
        invariant Num(bigits[..numBigits + 1]) == Num(bigits)
        invariant TopNonzero(bigits) ==> numBigits == |bigits| - 1
      {
        NumStep(bigits, numBigits);
        numBigits := numBigits - 1;
      }
      bigits := bigits[..numBigits + 1];
    }

    /**
     Subtracts an aligned number that the comparison finds not larger. A borrow out of the subtracted bigits is
     taken from the next bigit, again and again from the same one; if that bigit is zero, too little is subtracted.
     */
    method SubtractAligned(other: Bigint)
      requires this != other && other.exp >= exp && |bigits| >= 1
      requires CompareResult(bigits, exp, other.bigits, other.exp) >= 0
      modifies this`bigits
      ensures Normal(bigits)
      ensures Val() == old(Val()) - other.Val()
                       + if BorrowStuck(old(bigits), exp, other.bigits, other.exp)
                         then (TWO32 - 1) * Weight(other.NumBigits()) else 0
      ensures old(TopNonzero(bigits) && NumBigits() > other.NumBigits() + 1) ==>
                |bigits| == old(|bigits|) && TopNonzero(bigits)
    {
      hide Weight, Num;
      ghost var was, o, e, oe := bigits, other.bigits, exp, other.exp;
      SubtractionFits(was, e, o, oe);
      var i, borrow := SubtractCommon(other);
      ghost var common, low := bigits, Weight(oe - e) * Num(o);
      BorrowMeans(was, common, i, borrow, low);
      SettleBorrow(i, borrow);
      SettledNum(was, common, bigits, i, borrow, low);
      assert i + 1 < |was| ==> bigits[|was| - 1] == was[i..][|was| - 1 - i];
      RemoveLeadingZeros();
      SubtractionResult(was, e, o, oe, BorrowStuck(was, e, o, oe));
    }

    /** The loop over the bigits of the subtracted number. */
    method SubtractCommon(other: Bigint) returns (i: nat, borrow: Bigit)
      requires this != other && other.exp >= exp && other.exp - exp + |other.bigits| <= |bigits|
      modifies this`bigits
      ensures i == other.exp - exp + |other.bigits| && borrow <= 1 && |bigits| == old(|bigits|)
      ensures bigits[i..] == old(bigits)[i..]
      ensures Num(bigits[..i]) - borrow * Weight(i)
           == Num(old(bigits)[..i]) - Weight(other.exp - exp) * Num(other.bigits)
    {
      hide Weight, Num;
      ghost var was, o, shift := bigits, other.bigits, other.exp - exp;
      borrow := 0;
      i := other.exp - exp;
      var j, n := 0, |other.bigits|;
      NoBigits(o, shift);
      while j != n
        invariant 0 <= j <= n == |o| && i == shift + j && borrow <= 1
        invariant |bigits| == |was| && other.bigits == o && bigits[i..] == was[i..]
        invariant Num(bigits[..i]) - borrow * Weight(i) == Num(was[..i]) - Weight(shift) * Num(o[..j])
      {
        ghost var before := bigits;
        var out := SubtractBigits(i, other.bigits[j], borrow);
        SubtractStep(before, bigits, was, o, shift, j, borrow, out);
        i, j, borrow := i + 1, j + 1, out;
      }
      assert o[..n] == o;
    }

    /** The loop that takes the remaining borrow from bigit i, twice if that bigit is zero. */
    method SettleBorrow(i: nat, borrow0: Bigit)
      requires borrow0 <= 1 && (borrow0 > 0 ==> i < |bigits|)
      modifies this`bigits
      ensures |bigits| == old(|bigits|)
      ensures borrow0 == 0 ==> bigits == old(bigits)
      ensures borrow0 > 0 ==>
                bigits == old(bigits)[i := if old(bigits[i]) == 0 then TWO32 - 2 else old(bigits[i]) - 1]
    {
      var borrow: Bigit := borrow0;
      while borrow > 0
        invariant |bigits| == old(|bigits|) && borrow <= borrow0
        invariant borrow0 == 0 ==> bigits == old(bigits)
        invariant borrow0 > 0 ==> bigits == old(bigits)[i := bigits[i]]
        invariant borrow0 > 0 && borrow > 0 ==>
                    bigits[i] == old(bigits[i]) || (old(bigits[i]) == 0 && bigits[i] == TWO32 - 1)
        invariant borrow0 > 0 && borrow == 0 ==>
                    bigits[i] == if old(bigits[i]) == 0 then TWO32 - 2 else old(bigits[i]) - 1
        decreases borrow, if borrow > 0 && bigits[i] == 0 then 1 else 0
      {
        borrow := SubtractBigits(i, 0, borrow);
      }
    }

    /** One bigit of a product: its new value and what it hands to the next one. */
    static method MultiplyBigit(x: Bigit, value: Uint32, carry: Bigit) returns (low: Bigit, next: Bigit)
      ensures x * value + carry == low + next * TWO32
    {
      ProductBound(x, value);
      var result := x as int * value as int + carry;
      low, next := Wrap32(result), result / TWO32;
    }

    /** The same for a 64-bit factor, given by its halves. */
    static method MultiplyBigitWide(x: Bigit, lower: Bigit, upper: Bigit, ghost value: Uint64, carry: Uint64)
      returns (low: Bigit, next: Uint64)
      requires value == upper * TWO32 + lower
      ensures x * value + carry == low + next * TWO32
    {
      WideProduct(x, lower, upper, value, carry);
      var result: Uint64 := x as int * lower as int + carry % TWO32;
      low := Wrap32(result);
      next := x as int * upper as int + result / TWO32 + carry / TWO32;
    }

    method Multiply32(value: Uint32)
      modifies this`bigits
      ensures Val() == old(Val()) * value
      ensures old(|bigits|) <= |bigits| <= old(|bigits|) + 1
      ensures old(Normal(bigits)) && value > 0 ==> Normal(bigits)
    {
      ghost var was := bigits;
      var carry: Bigit := 0;
      var i, n := 0, |bigits|;
      NoBigitsYet(was, value);
      hide Num, Weight;
      while i < n
        invariant 0 <= i <= n == |bigits| == |was|
        invariant bigits[i..] == was[i..]
        invariant Num(bigits[..i]) + carry * Weight(i) == Num(was[..i]) * value
      {
        var low, next := MultiplyBigit(bigits[i], value, carry);
        CarryInto(bigits, was, i, value, carry, low, next);
        bigits, carry := bigits[i := low], next;
        i := i + 1;
      }
      assert bigits[..n] == bigits && was[..n] == was;
      if carry != 0 {
        PushBigit(bigits, carry);
        bigits := bigits + [carry];
      }
      MulRearrange(Num(was), value, Weight(exp));
      ProductNormal(was, value, bigits);
    }

    method Multiply64(value: Uint64)
      modifies this`bigits
      ensures Val() == old(Val()) * value
      ensures old(|bigits|) <= |bigits| <= old(|bigits|) + 2
      ensures old(Normal(bigits)) && value > 0 ==> Normal(bigits)
    {
      ghost var was := bigits;
      var lower, upper := value % TWO32, value / TWO32;
      var carry: Uint64 := 0;
      var i, n := 0, |bigits|;
      NoBigitsYet(was, value);
      hide Num, Weight;
      while i < n
        invariant 0 <= i <= n == |bigits| == |was|
        invariant bigits[i..] == was[i..]
        invariant Num(bigits[..i]) + carry * Weight(i) == Num(was[..i]) * value
      {
        var low, next := MultiplyBigitWide(bigits[i], lower, upper, value, carry);
        CarryInto(bigits, was, i, value, carry, low, next);
        bigits, carry := bigits[i := low], next;
        i := i + 1;
      }
      assert bigits[..n] == bigits && was[..n] == was;
      AppendCarry(carry);
      MulRearrange(Num(was), value, Weight(exp));
      ProductNormal(was, value, bigits);
    }

    /** Appends what is left of a 64-bit carry, bigit by bigit. */
    method AppendCarry(carry0: Uint64)
      modifies this`bigits
      ensures Num(bigits) == old(Num(bigits)) + carry0 * Weight(old(|bigits|))
      ensures old(|bigits|) <= |bigits| <= old(|bigits|) + 2
      ensures |bigits| > old(|bigits|) ==> TopNonzero(bigits)
    {
      hide Num, Weight;
      ghost var n, total := |bigits|, Num(bigits) + carry0 * Weight(|bigits|);
      var carry: Uint64 := carry0;
      while carry != 0
        invariant n <= |bigits|
        invariant |bigits| == n || (|bigits| == n + 1 && carry < TWO32) || (|bigits| == n + 2 && carry == 0)
        invariant Num(bigits) + carry * Weight(|bigits|) == total
        invariant |bigits| > n && carry == 0 ==> TopNonzero(bigits)
        decreases carry
      {
        PushBigit(bigits, carry % TWO32);
        PushCarry(carry, Weight(|bigits|));
        NextWeight(|bigits|);
        bigits := bigits + [carry % TWO32];
        carry := carry / TWO32;
      }
      assert 0 * Weight(|bigits|) == 0;
    }

    method Assign(other: Bigint)
      modifies this
      ensures bigits == old(other.bigits) && exp == old(other.exp)
    {
      bigits, exp := other.bigits, other.exp;
    }

    method AssignUint64(n: Uint64)
      modifies this
      ensures Val() == n && exp == 0 && Normal(bigits)
      ensures n < TWO32 ==> |bigits| == 1
    {
      var rest := n;
      bigits, exp := [rest % TWO32], 0;
      rest := rest / TWO32;
      NumSingle(n % TWO32);
      assert Weight(0) == 1 && Weight(1) == TWO32;
      if rest != 0 {
        NumConcat(bigits, [rest % TWO32]);
        NumSingle(rest % TWO32);
        bigits := bigits + [rest % TWO32];
      }
    }

    method ShiftLeft(shift: nat)
      requires Normal(bigits)
      modifies this
      ensures Val() == old(Val()) * Pow(2, shift)
      ensures Normal(bigits) && exp == old(exp) + shift / 32
      ensures old(|bigits|) <= |bigits| <= old(|bigits|) + 1
    {
      ghost var was, e0 := bigits, exp;
      exp := exp + shift / 32;
      var r := shift % 32;
      if r != 0 {
        PowSmall(r);
        ShiftBits(Pow(2, r), Pow(2, 32 - r));
      }
      ShiftSplit(was, e0, shift);
    }

    /** One bigit of a shift: its new value and what it hands to the next one. */
    static method ShiftOne(x: Bigit, p: nat, q: nat, carry: Bigit) returns (shifted: Bigit, c: Bigit)
      requires ShiftPair(p, q) && carry < p
      ensures x * p + carry == shifted + c * TWO32 && c < p
    {
      ShiftBigit(x, p, q, carry);
      c := x / q;
      shifted := Wrap32(x * p) + carry;
    }

    /** The shift by less than a bigit: p is the power of two, q the complementary one. */
    method ShiftBits(p: nat, q: nat)
      requires Normal(bigits) && ShiftPair(p, q)
      modifies this`bigits
      ensures Num(bigits) == old(Num(bigits)) * p && Normal(bigits)
      ensures old(|bigits|) <= |bigits| <= old(|bigits|) + 1
    {
      ghost var was := bigits;
      ShiftPairPositive(p, q);
      var carry: Bigit := 0;
      var i, n := 0, |bigits|;
      while i < n
        invariant 0 <= i <= n == |bigits| == |was|
        invariant bigits[i..] == was[i..] && carry < p
        invariant Num(bigits[..i]) + carry * Weight(i) == Num(was[..i]) * p
      {
        var shifted, c := ShiftOne(bigits[i], p, q, carry);
        CarryInto(bigits, was, i, p, carry, shifted, c);
        bigits, carry := bigits[i := shifted], c;
        i := i + 1;
      }
      assert bigits[..n] == bigits && was[..n] == was;
      if carry != 0 {
        PushBigit(bigits, carry);
        bigits := bigits + [carry];
      }
      ProductNormal(was, p, bigits);
    }

    /** Three-way comparison of any two numbers. */
    method Compare(rhs: Bigint) returns (c: int)
      ensures c == CompareResult(bigits, exp, rhs.bigits, rhs.exp)
    {
      hide Value;
      var numLhs, numRhs := NumBigits(), rhs.NumBigits();
      if numLhs != numRhs {
        return if numLhs > numRhs then 1 else -1;
      }
      var i, j := |bigits| - 1, |rhs.bigits| - 1;
      var end := Max(0, i - j);
      while i >= end
        invariant end - 1 <= i < |bigits| && -1 <= j < |rhs.bigits|
        invariant i - j == |bigits| - |rhs.bigits|
        invariant bigits[i + 1..] == rhs.bigits[j + 1..]
      {
        var lhsBigit, rhsBigit := bigits[i], rhs.bigits[j];
        if lhsBigit != rhsBigit {
          if lhsBigit > rhsBigit {
            FirstDifference(bigits, exp, i, rhs.bigits, rhs.exp, j);
          } else {
            FirstDifference(rhs.bigits, rhs.exp, j, bigits, exp, i);
          }
          return if lhsBigit > rhsBigit then 1 else -1;
        }
        i, j := i - 1, j - 1;
      }
      CommonPrefix(bigits, exp, rhs.bigits, rhs.exp, i + 1, j + 1);
      if i != j {
        return if i > j then 1 else -1;
      }
      return 0;
    }

    /** Comparison of a sum with a number, for any three numbers and whatever their exponents. */
    method AddCompare(lhs2: Bigint, rhs: Bigint) returns (c: int)
      ensures c == AddCompareResult(bigits, exp, lhs2.bigits, lhs2.exp, rhs.bigits, rhs.exp)
    {
      hide Value, High, BigitAt;
      var maxLhs: int, numRhs: int := Max(NumBigits(), lhs2.NumBigits()), rhs.NumBigits();
      if maxLhs + 1 < numRhs {
        return -1;
      }
      if maxLhs > numRhs {
        return 1;
      }
      NothingAbove(bigits, exp, numRhs);
      NothingAbove(lhs2.bigits, lhs2.exp, numRhs);
      NothingAbove(rhs.bigits, rhs.exp, numRhs);
      var borrow: Uint64 := 0;
      var minExp := Min(Min(exp, lhs2.exp), rhs.exp);
      var i := numRhs - 1;
      while i >= minExp
        invariant minExp - 1 <= i < numRhs
        invariant borrow == 0 || borrow == TWO32
        invariant borrow == (High(rhs.bigits, rhs.exp, i + 1) - High(bigits, exp, i + 1)
                             - High(lhs2.bigits, lhs2.exp, i + 1)) * TWO32
      {
        var sum: Uint64 := BigitAt(bigits, exp, i) + BigitAt(lhs2.bigits, lhs2.exp, i);
        var rhsBigit := BigitAt(rhs.bigits, rhs.exp, i);
        ghost var delta := HighStepOfThree(bigits, exp, lhs2.bigits, lhs2.exp, rhs.bigits, rhs.exp, i, borrow / TWO32);
        HighDifference(bigits, exp, lhs2.bigits, lhs2.exp, rhs.bigits, rhs.exp, i, delta);
        if sum > rhsBigit + borrow {
          return 1;
        }
        borrow := rhsBigit + borrow - sum;
        if borrow > 1 {
          return -1;
        }
        borrow := borrow * TWO32;
        i := i - 1;
      }
      HighDifference(bigits, exp, lhs2.bigits, lhs2.exp, rhs.bigits, rhs.exp, minExp, borrow / TWO32);
      return if borrow != 0 then -1 else 0;
    }

    /** The inner loop of Square for a column in the bottom half. */
    static method AddLowColumn(n: seq<Bigit>, k: nat, sum: Accumulator)
      requires k < |n| < 0x4000_0000 && sum.Total() <= |n| * (TWO32 - 1)
      modifies sum
      ensures sum.Total() == old(sum.Total()) + Column(n, |n|, k)
    {
      assert Column(n, 0, k) == 0;
      hide Column;
      var i, j := 0, k;
      while j >= 0
        invariant 0 <= i <= |n| && i + j == k && j >= -1
        invariant sum.Total() == old(sum.Total()) + Column(n, i, k)
      {
        ColumnStep(n, i, j);
        sum.Add(n[i] as int * n[j] as int);
        i, j := i + 1, j - 1;
      }
      ColumnTail(n, |n|, k);
    }

    /** The inner loop of Square for a column in the top half. */
    static method AddHighColumn(n: seq<Bigit>, k: nat, sum: Accumulator)
      requires |n| <= k < 2 * |n| && |n| < 0x4000_0000 && sum.Total() <= |n| * (TWO32 - 1)
      modifies sum
      ensures sum.Total() == old(sum.Total()) + Column(n, |n|, k)
    {
      var j := |n| - 1;
      var i := k - j;
      ColumnHead(n, i, k);
      hide Column;
      while i < |n|
        invariant 0 < i <= |n| && i + j == k && j >= -1
        invariant sum.Total() == old(sum.Total()) + Column(n, i, k)
      {
        ColumnStep(n, i, j);
        sum.Add(n[i] as int * n[j] as int);
        i, j := i + 1, j - 1;
      }
    }

    /** Stores the low bigit of the sum and shifts it down to become the carry. */
    method StoreColumn(k: nat, sum: Accumulator)
      requires k < |bigits|
      modifies this`bigits, sum
      ensures |bigits| == old(|bigits|) && sum.Total() == old(sum.Total()) / TWO32
      ensures Num(bigits[..k + 1]) + sum.Total() * Weight(k + 1)
           == old(Num(bigits[..k])) + old(sum.Total()) * Weight(k)
    {
      ghost var before, total := bigits[..k], sum.Total();
      LowWord(sum.lower, sum.upper);
      bigits := bigits[k := Wrap32(sum.lower)];
      sum.ShiftRight32();
      assert bigits[..k] == before;
      NumStep(bigits, k);
      PushCarry(total, Weight(k));
    }

    /** One column: its products are added to the carry, the low bigit is stored. */
    method SquareColumn(n: seq<Bigit>, k: nat, sum: Accumulator)
      requires 1 <= |n| < 0x4000_0000 && k < 2 * |n| == |bigits| && sum.Total() <= |n| * (TWO32 - 1)
      requires Num(bigits[..k]) + sum.Total() * Weight(k) == Triangle(n, |n|, k)
      modifies this`bigits, sum
      ensures |bigits| == old(|bigits|) && sum.Total() <= |n| * (TWO32 - 1)
      ensures Num(bigits[..k + 1]) + sum.Total() * Weight(k + 1) == Triangle(n, |n|, k + 1)
    {
      hide Num, Weight, Triangle, Column;
      ghost var carry := sum.Total();
      if k < |n| {
        AddLowColumn(n, k, sum);
      } else {
        AddHighColumn(n, k, sum);
      }
      ColumnBound(n, |n|, k);
      CarryBound(sum.Total(), |n|);
      TriangleStep(n, |n|, k);
      SplitProduct(carry, Column(n, |n|, k), sum.Total(), Weight(k));
      StoreColumn(k, sum);
    }

    /** Squares in place: column sums of cross products, the carry kept in a 128-bit accumulator. */
    method Square()
      requires Normal(bigits) && |bigits| < 0x4000_0000
      modifies this
      ensures Val() == old(Val()) * old(Val()) && exp == 2 * old(exp)
      ensures Normal(bigits) && |bigits| <= 2 * old(|bigits|)
    {
      var numBigits := |bigits|;
      var numResult := 2 * numBigits;
      var n := bigits;
      bigits := Zeros(numResult);
      var sum := new Accumulator();
      TriangleStart(n, numBigits);
      assert Num(bigits[..0]) + 0 * Weight(0) == 0;
      hide Num, Weight, Value, Triangle, Column, Zeros, Normal;
      var k := 0;
      while k < numResult
        invariant 0 <= k <= numResult == |bigits| && exp == old(exp) && fresh(sum)
        invariant sum.Total() <= numBigits * (TWO32 - 1)
        invariant Num(bigits[..k]) + sum.Total() * Weight(k) == Triangle(n, numBigits, k)
      {
        SquareColumn(n, k, sum);
        k := k + 1;
      }
      assert bigits[..numResult] == bigits;
      SquareDone(n, bigits, sum.Total());
      RemoveLeadingZeros();
      SquareValue(n, exp, bigits);
      exp := exp * 2;
    }

    /** The highest bit of a power. */
    static method TopBit(power: nat) returns (bitmask: nat)
      requires 0 < power < 0x4000_0000
      ensures IsPow2(bitmask) && bitmask <= power < 2 * bitmask
    {
      hide IsPow2;
      bitmask := 1;
      IsPow2One();
      while power >= bitmask
        invariant IsPow2(bitmask) && bitmask / 2 <= power && 1 <= bitmask <= 0x4000_0000
        decreases 2 * power + 1 - bitmask
      {
        IsPow2Double(bitmask);
        bitmask := bitmask * 2;
      }
      IsPow2Half(bitmask);
      bitmask := bitmask / 2;
    }

    /** One round of the repeated squaring, for one bit of the power. */
    method SquareAndMultiply(bit: bool, ghost half: nat)
      requires Normal(bigits) && |bigits| <= half < 0x2000_0000 && Val() == Pow(5, half) && exp == 0
      modifies this
      ensures Val() == Pow(5, 2 * half + if bit then 1 else 0) && exp == 0
      ensures Normal(bigits) && |bigits| <= 2 * half + if bit then 1 else 0
    {
      FivesDoubled(half);
      hide Pow, Value, Normal;
      Square();
      if bit {
        Multiply32(5);
      }
    }

    /** Assigns a power of ten: repeated squaring of 5, then a shift. */
    method AssignPow10(power: nat)
      requires power < 0x4000_0000
      modifies this
      ensures Val() == Pow(10, power) && exp == power / 32
      ensures TopNonzero(bigits)
    {
      PowPositive(10, power);
      assert Pow(10, 0) == 1 && Pow(5, 1) == 5;
      hide Pow, IsPow2, Value, Weight, Prefix, Normal;
      if power == 0 {
        AssignUint64(1);
        NormalZero(bigits, exp);
        return;
      }
      var bitmask := TopBit(power);
      ghost var scale := bitmask;
      TopPrefix(power, bitmask);
      AssignUint64(5);
      IsPow2Half(bitmask);
      bitmask := bitmask / 2;
      while bitmask != 0
        invariant scale >= 1 && bitmask == scale / 2 && (bitmask != 0 ==> scale == 2 * bitmask && IsPow2(bitmask))
        invariant bitmask == 0 ==> scale == 1
        invariant Val() == Pow(5, Prefix(power, scale)) && exp == 0
        invariant Normal(bigits) && |bigits| <= Prefix(power, scale)
        decreases bitmask
      {
        NextPrefix(power, bitmask);
        SquareAndMultiply(Prefix(power, bitmask) % 2 == 1, Prefix(power, scale));
        scale := bitmask;
        IsPow2Half(bitmask);
        bitmask := bitmask / 2;
      }
      LastPrefix(power);
      ShiftLeft(power);
      FivesAndTwos(power);
      NormalZero(bigits, exp);
    }

    /** Grows the bigits by d and moves the old ones up, from the top down. */
    method MoveUp(d: nat)
      modifies this`bigits
      ensures |bigits| == old(|bigits|) + d && bigits[d..] == old(bigits)
    {
      ghost var was := bigits;
      var numBigits := |bigits|;
      bigits := bigits + Zeros(d);
      var i, j := numBigits - 1, numBigits - 1 + d;
      while i >= 0
        invariant -1 <= i < numBigits == |was| && j == i + d && |bigits| == numBigits + d
        invariant forall m :: 0 <= m <= i ==> bigits[m] == was[m]
        invariant forall m :: i < m < numBigits ==> bigits[m + d] == was[m]
      {
        bigits := bigits[j := bigits[i]];
        i, j := i - 1, j - 1;
      }
    }

    /** Appends low zero bigits until the exponent is not above other's. */
    method Align(other: Bigint)
      requires |bigits| >= 1
      modifies this
      ensures Val() == old(Val()) && exp == Min(old(exp), old(other.exp))
      ensures |bigits| >= 1 && NumBigits() == old(NumBigits())
      ensures bigits[|bigits| - 1] == old(bigits[|bigits| - 1])
    {
      var expDifference := exp - other.exp;
      if expDifference <= 0 {
        return;
      }
      ghost var was := bigits;
      MoveUp(expDifference);
      bigits := Zeros(expDifference) + bigits[expDifference..];
      exp := exp - expDifference;
      ZerosBelow(was, expDifference, exp);
    }

    /**
     Long division by repeated subtraction; the remainder stays in this number. It comes to an end when this number
     is at most one bigit longer than the divisor. Of equal numbers with a larger exponent on this side the first
     comparison thinks this one smaller, and nothing happens; a long zero is divided as if it were another number.
     */
    method DivModAssign(divisor: Bigint) returns (quotient: nat)
      requires this != divisor && Normal(bigits) && TopNonzero(divisor.bigits)
      requires TopNonzero(bigits) ==> NumBigits() <= divisor.NumBigits() + 1
      modifies this
      ensures divisor.Val() > 0 && Normal(bigits)
      ensures !Missed(old(Val()), old(exp), divisor.Val(), divisor.exp) ==>
                Dividend(old(bigits), old(exp), divisor.bigits, divisor.exp) == quotient * divisor.Val() + Val()
                && Val() < divisor.Val()
      ensures Missed(old(Val()), old(exp), divisor.Val(), divisor.exp) ==> quotient == 0
      ensures quotient == 0 ==> bigits == old(bigits) && exp == old(exp)
      ensures quotient > 0 ==> exp == Min(old(exp), divisor.exp)
      ensures ComparableTo(divisor)
    {
      hide Weight, Value, BorrowStuck;
      NormalZero(divisor.bigits, divisor.exp);
      StartOfDivision(bigits, exp, divisor.bigits, divisor.exp);
      var c := Compare(divisor);
      if c < 0 {
        return 0;
      }
      ghost var was, e := bigits, exp;
      Align(divisor);
      FirstSubtraction(was, e, bigits, exp, divisor.bigits, divisor.exp);
      SubtractAligned(divisor);
      c := Compare(divisor);
      quotient := FurtherSubtractions(divisor, c);
    }

    /** The rounds after the first one. */
    method FurtherSubtractions(divisor: Bigint, c0: int) returns (quotient: nat)
      requires this != divisor && Normal(bigits) && TopNonzero(divisor.bigits) && exp <= divisor.exp
      requires Val() < Weight(divisor.NumBigits() + 1) && divisor.Val() > 0
      requires c0 == CompareResult(bigits, exp, divisor.bigits, divisor.exp)
      modifies this`bigits
      ensures quotient >= 1 && Normal(bigits) && !LongZero(bigits, exp, divisor.bigits, divisor.exp)
      ensures old(Val()) + divisor.Val() == quotient * divisor.Val() + Val() && Val() < divisor.Val()
    {
      hide Weight, Value, BorrowStuck, CompareResult, LongZero;
      ghost var d, taken, v := divisor.Val(), divisor.Val(), Val() + divisor.Val();
      var c := c0;
      quotient := 1;
      NextSubtraction(bigits, exp, divisor.bigits, divisor.exp);
      while c >= 0
        invariant Normal(bigits) && quotient >= 1
        invariant v == taken + Val() && Val() < Weight(divisor.NumBigits() + 1)
        invariant taken == quotient * d
        invariant c == CompareResult(bigits, exp, divisor.bigits, divisor.exp)
        decreases Val()
      {
        NextSubtraction(bigits, exp, divisor.bigits, divisor.exp);
        SubtractAligned(divisor);
        Distribute(quotient, 1, d);
        quotient, taken := quotient + 1, taken + d;
        c := Compare(divisor);
      }
      NextSubtraction(bigits, exp, divisor.bigits, divisor.exp);
    }

    /** A longer dividend: after any number k of rounds the comparison still asks for another one. */
    method DivModRounds(divisor: Bigint, k: nat)
      requires this != divisor && TopNonzero(bigits) && TopNonzero(divisor.bigits)
      requires NumBigits() > divisor.NumBigits() + 1
      modifies this
      ensures CompareResult(bigits, exp, divisor.bigits, divisor.exp) >= 0
      ensures NumBigits() == old(NumBigits()) && TopNonzero(bigits)
    {
      hide Weight, Value, Num;
      var c := Compare(divisor);
      assert c >= 0;
      Align(divisor);
      for quotient := 0 to k
        invariant divisor.bigits == old(divisor.bigits) && divisor.exp == old(divisor.exp)
        invariant exp <= divisor.exp && NumBigits() == old(NumBigits()) && TopNonzero(bigits)
      {
        SubtractAligned(divisor);
        c := Compare(divisor);
        assert c >= 0;
      }
    }
  }

  // ---- What subtraction and division compute ----

  /** The borrow meets a zero bigit: what lies below the subtracted bigits' end is too small, and the next one is 0. */
  predicate BorrowStuck(x: seq<Bigit>, xe: nat, y: seq<Bigit>, ye: nat)
    requires xe <= ye
  {
    var i := ye - xe + |y|;
    i < |x| && x[i] == 0 && Num(x[..i]) < Weight(ye - xe) * Num(y)
  }

  /** The smallest instance: 2^64 minus 1. */
  lemma BorrowStuckExample()
    ensures CompareResult([0, 0, 1], 0, [1], 0) >= 0 && BorrowStuck([0, 0, 1], 0, [1], 0)
  {
    assert [0, 0, 1][..1] == [0];
    NumSingle(0);
    NumSingle(1);
    assert Weight(0) == 1;
  }

  /** The number a division divides: itself, except for a long zero, which the first subtraction turns around. */
  function Dividend(x: seq<Bigit>, xe: nat, y: seq<Bigit>, ye: nat): nat {
    if LongZero(x, xe, y, ye) then (TWO32 - 1) * Weight(|y| + ye) else Value(x, xe)
  }

  /** A finished division is right exactly when its dividend is neither missed nor a long zero. */
  lemma DivisionExactly(x: seq<Bigit>, xe: nat, y: seq<Bigit>, ye: nat, q: nat, r: nat)
    requires Normal(x) && TopNonzero(y)
    requires Missed(Value(x, xe), xe, Value(y, ye), ye) ==> q == 0 && r == Value(x, xe)
    requires !Missed(Value(x, xe), xe, Value(y, ye), ye) ==>
               Dividend(x, xe, y, ye) == q * Value(y, ye) + r && r < Value(y, ye)
    ensures Value(x, xe) == q * Value(y, ye) + r && r < Value(y, ye) <==>
            !Missed(Value(x, xe), xe, Value(y, ye), ye) && !LongZero(x, xe, y, ye)
  {
    NormalZero(x, xe);
    WeightPositive(|y| + ye);
    MulMono(1, Weight(|y| + ye), TWO32 - 1);
  }

  // ---- Steps of the proofs, on plain numbers and sequences ----

  /** One bigit of a product: x * v + c0 leaves d and carries on. */
  lemma CarryStep(nb: int, nw: int, x: int, v: int, c0: int, d: int, carry: int, w: int)
    requires nb + c0 * w == nw * v
    requires x * v + c0 == d + carry * TWO32
    ensures (nb + d * w) + carry * (TWO32 * w) == (nw + x * w) * v
  {
    MulRearrange(x, w, v);
    Distribute(nw, x * w, v);
    Distribute(x * v, c0, w);
    Distribute(d, carry * TWO32, w);
    MulAssoc(carry, TWO32, w);
  }

  /** The carry step as a statement about the two sequences. */
  lemma CarryInto(before: seq<Bigit>, was: seq<Bigit>, i: nat, v: nat, c0: nat, d: Bigit, carry: nat)
    requires i < |before| == |was| && before[i..] == was[i..]
    requires Num(before[..i]) + c0 * Weight(i) == Num(was[..i]) * v
    requires was[i] * v + c0 == d + carry * TWO32
    ensures before[i := d][i + 1..] == was[i + 1..]
    ensures Num(before[i := d][..i + 1]) + carry * Weight(i + 1) == Num(was[..i + 1]) * v
  {
    var now := before[i := d];
    assert now[..i] == before[..i] && now[i + 1..] == was[i + 1..];
    NumStep(now, i);
    NumStep(was, i);
    CarryStep(Num(before[..i]), Num(was[..i]), was[i], v, c0, d, carry, Weight(i));
  }

  lemma PushBigit(s: seq<Bigit>, x: Bigit)
    ensures Num(s + [x]) == Num(s) + x * Weight(|s|)
  {
    NumConcat(s, [x]);
    NumSingle(x);
  }

  lemma PushCarry(carry: nat, w: int)
    ensures carry * w == (carry % TWO32) * w + (carry / TWO32) * (TWO32 * w)
  {
    Distribute(carry % TWO32, (carry / TWO32) * TWO32, w);
    MulAssoc(carry / TWO32, TWO32, w);
  }

  lemma MulGrow(x: nat, v: nat)
    requires v > 0
    ensures x * v >= x
  {
    MulMono(1, v, x);
  }

  /** Multiplying by a positive number creates no leading zeros. */
  lemma ProductNormal(was: seq<Bigit>, v: nat, now: seq<Bigit>)
    requires Num(now) == Num(was) * v
    requires |now| == |was| || TopNonzero(now)
    ensures Normal(was) && v > 0 ==> Normal(now)
  {
    if Normal(was) && v > 0 && |now| == |was| {
      NumTop(was);
      NumTop(now);
      MulGrow(Num(was), v);
    }
  }

  lemma NoBigitsYet(s: seq<Bigit>, value: nat)
    ensures Num(s[..0]) + 0 * Weight(0) == Num(s[..0]) * value && Num(s[..0]) == 0
  {
  }

  /** A bigit times both halves of a 64-bit word, with a carry: nothing overflows, and nothing is lost. */
  lemma WideProduct(x: Bigit, lower: nat, upper: nat, value: Uint64, carry: Uint64)
    requires lower < TWO32 && upper < TWO32 && value == upper * TWO32 + lower
    ensures 0 <= x * lower + carry % TWO32 < TWO64
    ensures var result := x * lower + carry % TWO32;
            var next := x * upper + result / TWO32 + carry / TWO32;
            0 <= next < TWO64 && x * value + carry == Wrap32(result) + next * TWO32
  {
    ProductBound(x, lower);
    ProductBound(x, upper);
    Distribute(lower, upper * TWO32, x);
    MulAssoc(x, upper, TWO32);
    var result := x * lower + carry % TWO32;
    assert result == Wrap32(result) + (result / TWO32) * TWO32;
  }

  lemma WrappedDifference(x: Bigit, y: int)
    requires 0 <= y <= TWO32
    ensures Wrap32(Wrap64(x - y)) == x - y + if x < y then TWO32 else 0
    ensures Wrap64(x - y) / 0x8000_0000_0000_0000 == if x < y then 1 else 0
  {
    var d := x - y;
    if d >= 0 {
      DivModUnique(d, TWO64, 0, d);
    } else {
      DivModUnique(d, TWO64, -1, d + TWO64);
      DivModUnique(d + TWO64, TWO32, TWO32 - 1, d + TWO32);
    }
  }

  lemma NoBigits(o: seq<Bigit>, shift: nat)
    ensures Weight(shift) * Num(o[..0]) == 0
  {
  }

  /** The bigits up to i after bigit i was subtracted, with the borrow it leaves. */
  lemma SubtractStep(before: seq<Bigit>, now: seq<Bigit>, was: seq<Bigit>, o: seq<Bigit>, shift: nat, j: nat,
                     borrow: Bigit, out: Bigit)
    requires j < |o| && shift + j < |before| == |was| && before[shift + j..] == was[shift + j..]
    requires |now| == |before| && now == before[shift + j := now[shift + j]]
    requires now[shift + j] as int == before[shift + j] as int - o[j] as int - borrow as int + out as int * TWO32
    requires Num(before[..shift + j]) - borrow * Weight(shift + j)
          == Num(was[..shift + j]) - Weight(shift) * Num(o[..j])
    ensures now[shift + j + 1..] == was[shift + j + 1..]
    ensures Num(now[..shift + j + 1]) - out * Weight(shift + j + 1)
         == Num(was[..shift + j + 1]) - Weight(shift) * Num(o[..j + 1])
  {
    var i := shift + j;
    assert now[..i] == before[..i] && before[i] == was[i];
    NumStep(now, i);
    NumStep(was, i);
    NumStep(o, j);
    PowAdd(TWO32, shift, j);
    assert Weight(i + 1) == TWO32 * Weight(i);
    BorrowStep(was[i], o[j], borrow, out, Weight(i));
    Factor(Weight(shift), Num(o[..j]), o[j], Weight(j));
  }

  lemma BorrowStep(x: int, y: int, borrow: int, out: int, w: int)
    ensures (x - y - borrow + out * TWO32) * w == x * w - y * w - borrow * w + out * (TWO32 * w)
  {
    Distribute(x - y - borrow, out * TWO32, w);
    Distribute(x - y, -borrow, w);
    Distribute(x, -y, w);
    MulAssoc(out, TWO32, w);
  }

  /** The comparison sees to it that all bigits to subtract lie inside the number, and a borrow finds a bigit. */
  lemma SubtractionFits(x: seq<Bigit>, xe: nat, y: seq<Bigit>, ye: nat)
    requires xe <= ye && CompareResult(x, xe, y, ye) >= 0
    ensures ye - xe + |y| <= |x|
    ensures ye - xe + |y| == |x| ==> Num(x) >= Weight(ye - xe) * Num(y)
  {
    if ye - xe + |y| == |x| {
      hide Weight, Num;
      ValueDivisible(y, ye, xe);
      WeightPositive(xe);
      assert Weight(ye - xe) * Num(y) == Num(y) * Weight(ye - xe);
      if Num(x) < Weight(ye - xe) * Num(y) {
        MulStrictMono(Num(x), Weight(ye - xe) * Num(y), Weight(xe));
      }
    }
  }

  /** A borrow is left exactly when the part it is left by is too small. */
  lemma BorrowMeans(was: seq<Bigit>, common: seq<Bigit>, i: nat, borrow: Bigit, low: int)
    requires i <= |was| == |common| && borrow <= 1
    requires Num(common[..i]) - borrow * Weight(i) == Num(was[..i]) - low
    requires i == |was| ==> Num(was) >= low
    ensures borrow == 1 <==> Num(was[..i]) < low
    ensures borrow == 1 ==> i < |was|
  {
    hide Weight, Num;
    NumBound(common[..i]);
    assert i == |was| ==> was[..i] == was;
    if borrow == 0 {
      assert borrow * Weight(i) == 0;
    } else {
      assert borrow * Weight(i) == Weight(i);
    }
  }

  lemma SettledNum(was: seq<Bigit>, common: seq<Bigit>, settled: seq<Bigit>, i: nat, borrow: Bigit, low: int)
    requires i <= |was| == |common| && borrow <= 1 && (borrow == 1 ==> i < |was|)
    requires common[i..] == was[i..]
    requires Num(common[..i]) - borrow * Weight(i) == Num(was[..i]) - low
    requires borrow == 0 ==> settled == common
    requires borrow == 1 ==>
               settled == common[i := if common[i] == 0 then TWO32 - 2 else common[i] - 1]
    ensures Num(settled) == Num(was) - low + if borrow == 1 && was[i] == 0 then (TWO32 - 1) * Weight(i) else 0
  {
    hide Weight, Num;
    NumSplit(was, i);
    NumSplit(common, i);
    if borrow == 1 {
      assert common[i] == common[i..][0] == was[i];
      NumUpdate(common, i, settled[i]);
      assert borrow * Weight(i) == Weight(i);
    } else {
      assert borrow * Weight(i) == 0;
    }
  }

  lemma SubtractionResult(was: seq<Bigit>, e: nat, o: seq<Bigit>, oe: nat, stuck: bool)
    requires oe >= e
    ensures var extra := if stuck then (TWO32 - 1) * Weight(oe - e + |o|) else 0;
            (Num(was) - Weight(oe - e) * Num(o) + extra) * Weight(e)
            == Value(was, e) - Value(o, oe) + if stuck then (TWO32 - 1) * Weight(|o| + oe) else 0
  {
    hide Weight, Num;
    PowAddWeight(oe - e, e);
    PowAddWeight(oe - e + |o|, e);
    var extra := if stuck then (TWO32 - 1) * Weight(oe - e + |o|) else 0;
    ScaledDifference(Num(was), Weight(oe - e), Num(o), extra, Weight(e), Weight(oe));
    MulAssoc(TWO32 - 1, Weight(oe - e + |o|), Weight(e));
  }

  lemma ScaledDifference(x: int, w: int, y: int, extra: int, we: int, woe: int)
    requires woe == w * we
    ensures (x - w * y + extra) * we == x * we - y * woe + extra * we
  {
    Distribute(x - w * y, extra, we);
    Distribute(x, -(w * y), we);
    MulRearrange(w, y, we);
    MulCongruent(woe, w * we, y);
  }

  // ---- Steps of the division ----

  lemma StartOfDivision(x: seq<Bigit>, xe: nat, y: seq<Bigit>, ye: nat)
    requires Normal(x) && TopNonzero(y)
    ensures CompareResult(x, xe, y, ye) < 0 ==>
              !LongZero(x, xe, y, ye) && (Missed(Value(x, xe), xe, Value(y, ye), ye) || Value(x, xe) < Value(y, ye))
    ensures CompareResult(x, xe, y, ye) >= 0 ==>
              !Missed(Value(x, xe), xe, Value(y, ye), ye) && (LongZero(x, xe, y, ye) || Value(x, xe) >= Value(y, ye))
  {
    hide Weight, Num, Value;
    NormalZero(x, xe);
    NormalZero(y, ye);
    if LongZero(x, xe, y, ye) {
      LongZeroMisjudged(x, xe, y, ye);
    } else {
      CompareMeans(x, xe, y, ye);
    }
  }

  /** The borrow is not stuck when the number is at most one bigit longer and not smaller. */
  lemma BorrowFlows(x: seq<Bigit>, xe: nat, y: seq<Bigit>, ye: nat)
    requires xe <= ye && Value(x, xe) >= Value(y, ye) && Value(x, xe) < Weight(|y| + ye + 1)
    ensures !BorrowStuck(x, xe, y, ye)
  {
    hide Num, Weight;
    var i := ye - xe + |y|;
    if i < |x| && x[i] == 0 {
      NumSplit(x, i);
      NumTail(x, i);
      var high := Num(x[i + 1..]);
      if high > 0 {
        NextWeight(i);
        PowAddWeight(i + 1, xe);
        WeightPositive(xe);
        MulAssoc(Weight(i), TWO32, high);
        MulMono(1, high, Weight(i + 1));
        MulMono(Weight(i + 1), Num(x), Weight(xe));
      } else {
        assert Num(x) == Num(x[..i]);
        ValueDivisible(y, ye, xe);
        assert Weight(ye - xe) * Num(y) == Num(y) * Weight(ye - xe);
        if Num(x) < Weight(ye - xe) * Num(y) {
          WeightPositive(xe);
          MulStrictMono(Num(x), Weight(ye - xe) * Num(y), Weight(xe));
        }
      }
    }
  }

  lemma {:induction false} ZeroBigits(s: seq<Bigit>, k: nat)
    requires k < |s| && Num(s) == 0
    ensures s[k] == 0 && Num(s[..k]) == 0
  {
    hide Weight, Num;
    NumSplit(s, k);
    NumTail(s, k);
    WeightPositive(k);
    NoProduct(Weight(k), Num(s[k..]));
  }

  lemma NoProduct(w: nat, n: nat)
    requires w > 0
    ensures w * n >= 0 && (w * n == 0 ==> n == 0)
  {
    if n > 0 {
      MulMono(1, n, w);
    }
  }

  /** Subtracting from a long zero borrows from a zero bigit. */
  lemma ZeroGetsStuck(x: seq<Bigit>, xe: nat, y: seq<Bigit>, ye: nat)
    requires xe <= ye && Value(x, xe) == 0 && |x| + xe > |y| + ye && Value(y, ye) > 0
    ensures BorrowStuck(x, xe, y, ye)
  {
    hide Weight, Num;
    WeightPositive(xe);
    WeightPositive(ye - xe);
    assert Value(x, xe) == Weight(xe) * Num(x);
    NoProduct(Weight(xe), Num(x));
    ZeroBigits(x, ye - xe + |y|);
    assert Num(y) != 0;
    NoProduct(Weight(ye - xe), Num(y));
  }

  /** The first subtraction, after the dividend (was, e) was aligned to (x, xe). */
  lemma FirstSubtraction(was: seq<Bigit>, e: nat, x: seq<Bigit>, xe: nat, y: seq<Bigit>, ye: nat)
    requires Normal(was) && TopNonzero(y) && CompareResult(was, e, y, ye) >= 0
    requires TopNonzero(was) ==> |was| + e <= |y| + ye + 1
    requires Value(x, xe) == Value(was, e) && |x| + xe == |was| + e && xe == Min(e, ye)
    ensures CompareResult(x, xe, y, ye) >= 0
    ensures BorrowStuck(x, xe, y, ye) <==> LongZero(was, e, y, ye)
    ensures LongZero(was, e, y, ye) ==> Value(x, xe) == 0
    ensures Value(y, ye) > 0 && Dividend(was, e, y, ye) < Weight(|y| + ye + 1)
  {
    hide Weight, Num, Value;
    NormalZero(y, ye);
    NormalZero(was, e);
    NextWeight(|y| + ye);
    StartOfDivision(was, e, y, ye);
    if LongZero(was, e, y, ye) {
      ZeroGetsStuck(x, xe, y, ye);
    } else {
      if TopNonzero(was) {
        ValueBelow(was, e, |y| + ye + 1);
      }
      BorrowFlows(x, xe, y, ye);
    }
  }

  /** Every later one: the rest is no long zero, and no borrow gets stuck. */
  lemma NextSubtraction(x: seq<Bigit>, xe: nat, y: seq<Bigit>, ye: nat)
    requires Normal(x) && TopNonzero(y) && xe <= ye && Value(x, xe) < Weight(|y| + ye + 1)
    ensures !LongZero(x, xe, y, ye)
    ensures CompareResult(x, xe, y, ye) >= 0 <==> Value(x, xe) >= Value(y, ye)
    ensures CompareResult(x, xe, y, ye) >= 0 ==> !BorrowStuck(x, xe, y, ye)
  {
    hide Weight, Num, Value;
    CompareMeans(x, xe, y, ye);
    if Value(x, xe) >= Value(y, ye) {
      BorrowFlows(x, xe, y, ye);
    }
  }

  // ---- Steps of the comparison of a sum ----

  lemma NothingAbove(s: seq<Bigit>, e: nat, n: nat)
    requires |s| + e <= n
    ensures High(s, e, n) == 0
  {
  }

  /** One bigit further down: the difference of the parts from there up. */
  lemma HighStepOfThree(x: seq<Bigit>, xe: nat, y: seq<Bigit>, ye: nat, z: seq<Bigit>, ze: nat, i: nat, above: int)
    returns (delta: int)
    requires above == High(z, ze, i + 1) - High(x, xe, i + 1) - High(y, ye, i + 1)
    ensures delta == High(z, ze, i) - High(x, xe, i) - High(y, ye, i)
    ensures delta == BigitAt(z, ze, i) + above * TWO32 - BigitAt(x, xe, i) - BigitAt(y, ye, i)
  {
    hide High, BigitAt;
    HighStep(x, xe, i);
    HighStep(y, ye, i);
    HighStep(z, ze, i);
    delta := High(z, ze, i) - High(x, xe, i) - High(y, ye, i);
  }

  // ---- Steps of shifts, squares and powers ----

  lemma PowSmall(r: nat)
    requires 0 < r < 32
    ensures 1 < Pow(2, r) && 1 < Pow(2, 32 - r)
    ensures Pow(2, r) * Pow(2, 32 - r) == TWO32
  {
    PowAdd(2, r, 32 - r);
    PowStrictMono(2, 0, r);
    PowStrictMono(2, 0, 32 - r);
    Pow2Of32();
  }

  lemma Pow2Of32()
    ensures Pow(2, 32) == TWO32
  {
    PowAdd(2, 8, 8);
    assert Pow(2, 8) == 0x100;
    PowAdd(2, 16, 16);
  }

  /** The powers of two a bigit is multiplied and divided by in a shift. */
  ghost predicate ShiftPair(p: nat, q: nat) {
    exists r: nat :: 0 < r < 32 && p == Pow(2, r) && q == Pow(2, 32 - r)
  }

  lemma ShiftPairPositive(p: nat, q: nat)
    requires ShiftPair(p, q)
    ensures p > 1 && q > 1
  {
    var r: nat :| 0 < r < 32 && p == Pow(2, r) && q == Pow(2, 32 - r);
    PowSmall(r);
  }

  lemma ShiftBigit(x: Bigit, p: nat, q: nat, carry: nat)
    requires ShiftPair(p, q) && carry < p
    ensures q > 0 && x / q < p && p < TWO32
    ensures Wrap32(x * p) + carry < TWO32
    ensures x * p + carry == (Wrap32(x * p) + carry) + (x / q) * TWO32
  {
    var r: nat :| 0 < r < 32 && p == Pow(2, r) && q == Pow(2, 32 - r);
    PowSmall(r);
    ShiftBigitBy(x, p, q, carry);
  }

  lemma ShiftBigitBy(x: Bigit, p: nat, q: nat, carry: nat)
    requires p > 1 && q > 1 && p * q == TWO32 && carry < p
    ensures x / q < p && p < TWO32
    ensures Wrap32(x * p) + carry < TWO32
    ensures x * p + carry == (Wrap32(x * p) + carry) + (x / q) * TWO32
  {
    var h, l := x / q, x % q;
    MulStrictMono(1, q, p);
    assert x == h * q + l;
    Distribute(h * q, l, p);
    MulAssoc(h, q, p);
    assert q * p == TWO32;
    MulMono(l, q - 1, p);
    Distribute(q, -1, p);
    MulMono(0, l, p);
    DivModUnique(x * p, TWO32, h, l * p);
    if h >= p {
      MulMono(p, h, q);
    }
  }

  lemma ShiftSplit(s: seq<Bigit>, e: nat, shift: nat)
    ensures (Num(s) * Pow(2, shift % 32)) * Weight(e + shift / 32) == Value(s, e) * Pow(2, shift)
  {
    var q, r := shift / 32, shift % 32;
    PowerSplit(q, r);
    PowAddWeight(e, q);
    hide Pow, Weight, Num;
    MulSwap(Num(s), Pow(2, r), Weight(e), Weight(q));
    MulCongruent(Pow(2, shift), Pow(2, r) * Weight(q), Value(s, e));
    MulCongruent(Weight(e + q), Weight(e) * Weight(q), Num(s) * Pow(2, r));
  }

  lemma PowerSplit(q: nat, r: nat)
    ensures Pow(2, 32 * q + r) == Pow(2, r) * Weight(q)
  {
    PowAdd(2, 32 * q, r);
    PowMul(2, 32, q);
    Pow2Of32();
  }

  lemma ColumnNext(n: seq<Bigit>, i: nat, j: nat)
    requires i < |n| && j < |n|
    ensures Column(n, i + 1, i + j) == Column(n, i, i + j) + n[i] as int * n[j] as int
  {
  }

  /** One more cross product: it fits in 64 bits, and the sum in 128. */
  lemma ColumnStep(n: seq<Bigit>, i: nat, j: nat)
    requires i < |n| && j < |n| < 0x4000_0000
    ensures 0 <= n[i] as int * n[j] as int < TWO64
    ensures Column(n, i + 1, i + j) == Column(n, i, i + j) + n[i] as int * n[j] as int
    ensures |n| * (TWO32 - 1) + Column(n, i, i + j) + n[i] as int * n[j] as int < TWO128
  {
    hide Column;
    ColumnNext(n, i, j);
    ProductBound(n[i], n[j]);
    ColumnBound(n, i, i + j);
    MulMono(i, 0x3fff_ffff, MAX_PRODUCT);
    SumsFit(Column(n, i, i + j), n[i] as int * n[j] as int, |n|);
  }

  lemma SumsFit(column: int, product: int, n: nat)
    requires column <= 0x3fff_ffff * MAX_PRODUCT && product <= MAX_PRODUCT && n < 0x4000_0000
    ensures product < TWO64 && n * (TWO32 - 1) + column + product < TWO128
  {
  }

  lemma LowWord(lower: Uint64, upper: Uint64)
    ensures Wrap32(lower) == (upper * TWO64 + lower) % TWO32
  {
    ModAddMultiple(lower, upper * TWO32, TWO32);
  }

  /** After the last column the carry is zero, because a square needs no more than twice the bigits. */
  lemma SquareDone(n: seq<Bigit>, r: seq<Bigit>, carry: nat)
    requires |r| == 2 * |n| && Num(r) + carry * Weight(|r|) == Triangle(n, |n|, 2 * |n|)
    ensures Num(r) == Num(n) * Num(n)
  {
    hide Num, Weight, Triangle;
    TriangleFull(n, |n|, 2 * |n|);
    assert n[..|n|] == n;
    NumBound(n);
    PowAddWeight(|n|, |n|);
    SquareFits(Num(n), Weight(|n|), Weight(|r|), Num(r), carry);
  }

  lemma SquareFits(x: nat, w: nat, ww: nat, r: nat, carry: nat)
    requires x < w && ww == w * w && r + carry * ww == x * x
    ensures carry == 0 && r == x * x
  {
    MulMono(x, w, x);
    MulStrictMono(x, w, w);
    if carry > 0 {
      MulMono(1, carry, ww);
    }
    assert 0 * ww == 0;
  }

  lemma SquareValue(n: seq<Bigit>, e: nat, r: seq<Bigit>)
    requires Num(r) == Num(n) * Num(n)
    ensures Value(r, e * 2) == Value(n, e) * Value(n, e)
  {
    hide Num, Weight;
    PowAddWeight(e, e);
    MulSwap(Num(n), Num(n), Weight(e), Weight(e));
    MulCongruent(Weight(e * 2), Weight(e) * Weight(e), Num(r));
    MulCongruent(Num(r), Num(n) * Num(n), Weight(e) * Weight(e));
  }

  lemma ZerosBelow(s: seq<Bigit>, d: nat, e: nat)
    ensures Value(Zeros(d) + s, e) == Value(s, e + d)
  {
    NumZeros(d);
    NumConcat(Zeros(d), s);
    PowAddWeight(e, d);
    hide Weight, Num, Zeros;
    MulCongruent(Weight(e + d), Weight(e) * Weight(d), Num(s));
    MulRearrange(Weight(d), Num(s), Weight(e));
  }

  lemma CarryBound(total: nat, m: nat)
    requires total <= m * (TWO32 - 1) + m * MAX_PRODUCT
    ensures total / TWO32 <= m * (TWO32 - 1)
  {
  }

  ghost predicate IsPow2(m: nat) {
    exists t: nat :: m == Pow(2, t)
  }

  lemma IsPow2One()
    ensures IsPow2(1)
  {
    assert Pow(2, 0) == 1;
  }

  /** The bits of a power above a given one, that one included. */
  function Prefix(power: nat, bitmask: nat): nat
    requires bitmask > 0
  {
    power / bitmask
  }

  lemma TopPrefix(power: nat, bitmask: nat)
    requires 0 < bitmask <= power < 2 * bitmask
    ensures Prefix(power, bitmask) == 1
  {
    DivModUnique(power, bitmask, 1, power - bitmask);
  }

  lemma LastPrefix(power: nat)
    ensures Prefix(power, 1) == power
  {
  }

  lemma NextPrefix(power: nat, bitmask: nat)
    requires bitmask > 0
    ensures Prefix(power, bitmask) == 2 * Prefix(power, 2 * bitmask) + Prefix(power, bitmask) % 2
    ensures power < 0x4000_0000 ==> Prefix(power, 2 * bitmask) < 0x2000_0000
  {
    DivDiv(power, bitmask, 2);
    MulMono(1, bitmask, Prefix(power, bitmask));
    assert power == Prefix(power, bitmask) * bitmask + power % bitmask;
  }

  lemma FivesDoubled(half: nat)
    ensures Pow(5, half) * Pow(5, half) == Pow(5, 2 * half)
    ensures Pow(5, 2 * half) * 5 == Pow(5, 2 * half + 1)
  {
    PowAdd(5, half, half);
  }

  lemma FivesAndTwos(n: nat)
    ensures Pow(5, n) * Pow(2, n) == Pow(10, n)
  {
    PowBaseMul(5, 2, n);
  }

  lemma Pow2Of30()
    ensures Pow(2, 30) == 0x4000_0000
  {
    PowAdd(2, 15, 15);
    assert Pow(2, 15) == 0x8000;
  }

  lemma IsPow2Double(m: nat)
    requires IsPow2(m)
    ensures IsPow2(2 * m)
    ensures m < 0x4000_0000 ==> 2 * m <= 0x4000_0000
  {
    var t: nat :| m == Pow(2, t);
    assert 2 * m == Pow(2, t + 1);
    Pow2Of30();
    if t >= 30 {
      PowMono(2, 30, t);
    } else {
      PowMono(2, t + 1, 30);
    }
  }

  lemma IsPow2Half(m: nat)
    requires IsPow2(m)
    ensures m == 1 || (m == 2 * (m / 2) && IsPow2(m / 2))
  {
    var t: nat :| m == Pow(2, t);
    if t > 0 {
      assert m / 2 == Pow(2, t - 1);
    }
  }
}
