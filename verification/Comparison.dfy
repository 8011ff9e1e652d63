/**
 What the two comparisons of big integers decide, for any operands, and when that is the order of the denoted
 numbers. Both look at the number of bigits first, and a zero can keep more bigits than the number it is compared
 with; both then compare bigits from the top, and a comparison of equal numbers sees only their exponents.
 */
module Comparison {
  import opened Arithmetic
  import opened Bigits

  /** By value, equal values by decreasing exponent. */
  function CompareSpec(x: nat, xe: nat, y: nat, ye: nat): int {
    if x > y then 1 else if x < y then -1
    else if xe < ye then 1 else if xe > ye then -1 else 0
  }

  /** What compare returns: more bigits win; with as many bigits it is the order above. */
  function CompareResult(x: seq<Bigit>, xe: nat, y: seq<Bigit>, ye: nat): int {
    if |x| + xe > |y| + ye then 1
    else if |x| + xe < |y| + ye then -1
    else CompareSpec(Value(x, xe), xe, Value(y, ye), ye)
  }

  function Sign(x: int): int {
    if x > 0 then 1 else if x < 0 then -1 else 0
  }

  /** What add_compare returns. */
  function AddCompareResult(x: seq<Bigit>, xe: nat, y: seq<Bigit>, ye: nat, z: seq<Bigit>, ze: nat): int {
    var longest := Max(|x| + xe, |y| + ye);
    if longest + 1 < |z| + ze then -1
    else if longest > |z| + ze then 1
    else Sign(Value(x, xe) + Value(y, ye) - Value(z, ze))
  }

  // ---- Steps of the two loops ----

  /** What the comparison may conclude when the shorter number is used up. */
  lemma CommonPrefix(x: seq<Bigit>, xe: nat, y: seq<Bigit>, ye: nat, i: nat, j: nat)
    requires i <= |x| && j <= |y| && |x| + xe == |y| + ye
    requires i - j == |x| - |y| && (i == 0 || j == 0) && x[i..] == y[j..]
    ensures CompareSpec(Value(x, xe), xe, Value(y, ye), ye) == if i > j then 1 else if i < j then -1 else 0
  {
    if j == 0 {
      assert y[0..] == y;
      LowExtension(x, xe, y, ye);
      MulMono(0, Num(x[..i]), Weight(xe));
      assert x[..0] == [];
    } else {
      assert x[0..] == x;
      LowExtension(y, ye, x, xe);
      MulMono(0, Num(y[..j]), Weight(ye));
    }
  }

  lemma SumIsShort(x: seq<Bigit>, xe: nat, y: seq<Bigit>, ye: nat, z: seq<Bigit>, ze: nat)
    requires |x| >= 1 && |y| >= 1 && TopNonzero(z)
    requires |x| + xe + 1 < |z| + ze && |y| + ye + 1 < |z| + ze
    ensures Value(x, xe) + Value(y, ye) < Value(z, ze)
  {
    var m := |z| - 1 + ze;
    assert Weight(m) == TWO32 * Weight(m - 1);
    hide Weight, Value;
    ValueBelow(x, xe, m - 1);
    ValueBelow(y, ye, m - 1);
    ValueBounds(z, ze);
  }

  lemma ValueBelow(x: seq<Bigit>, xe: nat, m: nat)
    requires |x| >= 1 && |x| + xe <= m
    ensures Value(x, xe) < Weight(m)
  {
    ValueBounds(x, xe);
    PowMono(TWO32, |x| + xe, m);
  }

  /** The difference of the high parts decides, unless it is one and low bigits are left. */
  lemma HighDifference(x: seq<Bigit>, xe: nat, y: seq<Bigit>, ye: nat, z: seq<Bigit>, ze: nat, i: nat, delta: int)
    requires delta == High(z, ze, i) - High(x, xe, i) - High(y, ye, i)
    ensures delta < 0 ==> Value(x, xe) + Value(y, ye) > Value(z, ze)
    ensures delta > 1 ==> Value(x, xe) + Value(y, ye) < Value(z, ze)
    ensures i <= xe && i <= ye && i <= ze && delta == 0 ==> Value(x, xe) + Value(y, ye) == Value(z, ze)
    ensures i <= xe && i <= ye && i <= ze && delta > 0 ==> Value(x, xe) + Value(y, ye) < Value(z, ze)
  {
    HighBounds(x, xe, i);
    HighBounds(y, ye, i);
    HighBounds(z, ze, i);
    WeightPositive(i);
    ScaledSum(High(x, xe, i), High(y, ye, i), High(z, ze, i), delta, Weight(i));
  }

  lemma ScaledSum(a: int, b: int, c: int, delta: int, w: int)
    requires delta == c - a - b && w > 0
    ensures c * w == a * w + b * w + delta * w
    ensures (a + 1) * w == a * w + w && (b + 1) * w == b * w + w && (c + 1) * w == c * w + w
    ensures delta < 0 ==> delta * w <= -w
    ensures delta > 0 ==> delta * w >= w
    ensures delta > 1 ==> delta * w >= 2 * w
  {
    Distribute(a + b, delta, w);
    Distribute(a, b, w);
    if delta < 0 {
      MulMono(delta, -1, w);
    } else if delta > 1 {
      MulMono(2, delta, w);
    } else if delta > 0 {
      MulMono(1, delta, w);
    }
  }

  // ---- When compare is exact ----

  /** The one case in which a comparison of nonzero numbers does not notice x >= y. */
  predicate Missed(x: nat, xe: nat, y: nat, ye: nat) {
    x == y && xe > ye
  }

  /** A zero that kept more bigits than y has. */
  predicate LongZero(x: seq<Bigit>, xe: nat, y: seq<Bigit>, ye: nat) {
    !TopNonzero(x) && |x| + xe > |y| + ye
  }

  /** Compared with a nonzero y, anything but a long zero is ordered by value and exponent. */
  lemma CompareMeans(x: seq<Bigit>, xe: nat, y: seq<Bigit>, ye: nat)
    requires Normal(x) && TopNonzero(y) && !LongZero(x, xe, y, ye)
    ensures CompareResult(x, xe, y, ye) == CompareSpec(Value(x, xe), xe, Value(y, ye), ye)
  {
    if |x| + xe > |y| + ye {
      LongerIsLarger(x, xe, y, ye);
    } else if |x| + xe < |y| + ye {
      LongerIsLarger(y, ye, x, xe);
    }
  }

  /** A long zero is always taken for the larger number. */
  lemma LongZeroMisjudged(x: seq<Bigit>, xe: nat, y: seq<Bigit>, ye: nat)
    requires Normal(x) && TopNonzero(y) && LongZero(x, xe, y, ye)
    ensures CompareResult(x, xe, y, ye) == 1 && Value(x, xe) < Value(y, ye)
  {
    NormalZero(x, xe);
    NormalZero(y, ye);
  }

  /** One such zero: what dividing 2^160 by itself leaves, compared with 1. */
  lemma ZeroAboveOne()
    ensures CompareResult([0], 5, [1], 0) == 1
    ensures Value([0], 5) == 0 && Value([1], 0) == 1
  {
    NumSingle(0);
    NumSingle(1);
    assert Weight(0) == 1;
  }

  /** The comparison of nonzero numbers decides x >= y unless they are equal and x has the larger exponent. */
  lemma CompareDecides(x: nat, xe: nat, y: nat, ye: nat)
    ensures CompareSpec(x, xe, y, ye) >= 0 <==> x >= y && !Missed(x, xe, y, ye)
  {
  }

  /** The operands for which compare(x, y) >= 0 does not mean x >= y. */
  predicate Misjudged(x: seq<Bigit>, xe: nat, y: seq<Bigit>, ye: nat) {
    if TopNonzero(x) && TopNonzero(y) then Missed(Value(x, xe), xe, Value(y, ye), ye)
    else if TopNonzero(y) then LongZero(x, xe, y, ye)
    else if TopNonzero(x) then LongZero(y, ye, x, xe)
    else xe < ye
  }

  /** For all operands: the comparison is right exactly when they are not among these. */
  lemma CompareExactly(x: seq<Bigit>, xe: nat, y: seq<Bigit>, ye: nat)
    requires Normal(x) && Normal(y)
    ensures (CompareResult(x, xe, y, ye) >= 0 <==> Value(x, xe) >= Value(y, ye)) <==> !Misjudged(x, xe, y, ye)
  {
    hide Weight, Num, CompareSpec;
    NormalZero(x, xe);
    NormalZero(y, ye);
    CompareDecides(Value(x, xe), xe, Value(y, ye), ye);
    if TopNonzero(y) {
      if LongZero(x, xe, y, ye) {
        LongZeroMisjudged(x, xe, y, ye);
      } else {
        CompareMeans(x, xe, y, ye);
      }
    }
  }

  /** A caller's guard: an exponent not above the other one, or a nonzero lowest bigit in the other number. */
  lemma GuardExcludesMiss(x: seq<Bigit>, xe: nat, y: seq<Bigit>, ye: nat)
    requires TopNonzero(y)
    requires xe <= ye || y[0] != 0
    ensures !Missed(Value(x, xe), xe, Value(y, ye), ye)
  {
    if Missed(Value(x, xe), xe, Value(y, ye), ye) {
      ValueDivisible(x, xe, ye + 1);
      LowestBigit(y, ye);
      NextWeight(ye);
      hide Weight, Num;
      EvenlyDivisible(Num(x) * Weight(xe - ye - 1), Weight(ye + 1), Weight(ye), Num(y));
    }
  }

  /** Equal numbers, one with a factor of TWO32 more: the other one has it too. */
  lemma EvenlyDivisible(h: nat, ww: nat, w: nat, n: nat)
    requires w > 0 && ww == TWO32 * w && h * ww == n * w
    ensures n % TWO32 == 0
  {
    MulAssoc(h, TWO32, w);
    MulCongruent(ww, TWO32 * w, h);
    CancelRight(h * TWO32, n, w);
    DivModUnique(n, TWO32, h, 0);
  }

  lemma LowestBigit(y: seq<Bigit>, ye: nat)
    requires |y| >= 1
    ensures Num(y) % TWO32 == y[0]
  {
    hide Num;
    NumTail(y, 0);
    assert y[0..] == y;
    DivModUnique(Num(y), TWO32, Num(y[1..]), y[0]);
  }

  /**
   And exactly then: comparing with y is right for every x but the long zeros if and only if the lowest bigit of y
   is not zero; otherwise y has an equal with a larger exponent, which is missed.
   */
  lemma CompareExactIff(y: seq<Bigit>, ye: nat)
    requires TopNonzero(y)
    ensures y[0] != 0 <==>
            forall x: seq<Bigit>, xe: nat | Normal(x) && !LongZero(x, xe, y, ye) ::
              CompareResult(x, xe, y, ye) >= 0 <==> Value(x, xe) >= Value(y, ye)
  {
    if y[0] != 0 {
      forall x: seq<Bigit>, xe: nat | Normal(x) && !LongZero(x, xe, y, ye)
        ensures CompareResult(x, xe, y, ye) >= 0 <==> Value(x, xe) >= Value(y, ye)
      {
        GuardExcludesMiss(x, xe, y, ye);
        CompareExactly(x, xe, y, ye);
      }
    } else {
      var x, xe := y[1..], ye + 1;
      NumTail(y, 0);
      assert y[0..] == y;
      MulAssoc(Num(x), TWO32, Weight(ye));
      assert Value(x, xe) == Value(y, ye);
      assert TopNonzero(x) && Misjudged(x, xe, y, ye);
      CompareExactly(x, xe, y, ye);
    }
  }

  // ---- When add_compare is exact ----

  /** For all operands: right unless a long zero hides a sum that is not larger, or z is a long zero itself. */
  lemma AddCompareExactly(x: seq<Bigit>, xe: nat, y: seq<Bigit>, ye: nat, z: seq<Bigit>, ze: nat)
    requires Normal(x) && Normal(y) && Normal(z)
    ensures var sum, longest := Value(x, xe) + Value(y, ye), Max(|x| + xe, |y| + ye);
            AddCompareResult(x, xe, y, ye, z, ze) == Sign(sum - Value(z, ze)) <==>
            !((LongZero(x, xe, z, ze) || LongZero(y, ye, z, ze)) && sum <= Value(z, ze))
            && !(!TopNonzero(z) && longest + 1 < |z| + ze)
  {
    NormalZero(z, ze);
    if Max(|x| + xe, |y| + ye) + 1 < |z| + ze {
      if TopNonzero(z) {
        SumIsShort(x, xe, y, ye, z, ze);
      }
    } else {
      if TopNonzero(x) && |x| + xe > |z| + ze {
        LongerIsLarger(x, xe, z, ze);
      }
      if TopNonzero(y) && |y| + ye > |z| + ze {
        LongerIsLarger(y, ye, z, ze);
      }
    }
  }

  /** As digit generation calls it, doubling one number: right exactly when that number is no long zero. */
  lemma DoubleCompareExactly(x: seq<Bigit>, xe: nat, z: seq<Bigit>, ze: nat)
    requires Normal(x) && TopNonzero(z)
    ensures AddCompareResult(x, xe, x, xe, z, ze) == Sign(2 * Value(x, xe) - Value(z, ze)) <==>
            !LongZero(x, xe, z, ze)
  {
    NormalZero(x, xe);
    AddCompareExactly(x, xe, x, xe, z, ze);
  }
}
