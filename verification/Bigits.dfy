/** The number a little-endian sequence of 32-bit bigits denotes, and how it changes when the sequence does. */
module Bigits {
  import opened Arithmetic

  type Bigit = Uint32

  /** The weight of bigit number i. */
  function Weight(i: nat): nat {
    Pow(TWO32, i)
  }

  function Num(s: seq<Bigit>): nat {
    if |s| == 0 then 0 else Num(s[..|s| - 1]) + s[|s| - 1] * Weight(|s| - 1)
  }

  /** The number denoted by bigits s with bigit exponent e. */
  function Value(s: seq<Bigit>, e: nat): nat {
    Num(s) * Weight(e)
  }

  /** No superfluous leading zero bigits. */
  predicate Normal(s: seq<Bigit>) {
    |s| >= 1 && (s[|s| - 1] != 0 || |s| == 1)
  }

  predicate TopNonzero(s: seq<Bigit>) {
    |s| >= 1 && s[|s| - 1] != 0
  }

  function Zeros(n: nat): (z: seq<Bigit>)
    ensures |z| == n
  {
    seq(n, i => 0)
  }

  lemma WeightPositive(i: nat)
    ensures Weight(i) > 0
  {
    PowPositive(TWO32, i);
  }

  lemma PowAddWeight(m: nat, n: nat)
    ensures Weight(m + n) == Weight(m) * Weight(n)
  {
    PowAdd(TWO32, m, n);
  }

  lemma NextWeight(n: nat)
    ensures Weight(n + 1) == TWO32 * Weight(n) && Weight(n) > 0
  {
    WeightPositive(n);
  }

  lemma NumStep(s: seq<Bigit>, i: nat)
    requires i < |s|
    ensures Num(s[..i + 1]) == Num(s[..i]) + s[i] * Weight(i)
  {
    assert s[..i + 1][..i] == s[..i];
  }

  lemma {:induction false} NumBound(s: seq<Bigit>)
    ensures Num(s) < Weight(|s|)
  {
    if |s| > 0 {
      NumBound(s[..|s| - 1]);
      MulMono(s[|s| - 1], TWO32 - 1, Weight(|s| - 1));
    }
  }

  /** The top bigit is nonzero exactly when the number needs all the bigits. */
  lemma NumTop(s: seq<Bigit>)
    requires |s| >= 1
    ensures s[|s| - 1] != 0 <==> Num(s) >= Weight(|s| - 1)
  {
    NumBound(s[..|s| - 1]);
    if s[|s| - 1] != 0 {
      MulMono(1, s[|s| - 1], Weight(|s| - 1));
    }
  }

  lemma Factor(a: int, x: int, t: int, b: int)
    ensures a * x + t * (a * b) == a * (x + t * b)
  {
    assert t * (a * b) == a * (t * b) by {
      MulAssoc(a, t, b);
      MulAssoc(t, a, b);
      assert a * t == t * a;
    }
  }

  lemma {:induction false} NumConcat(a: seq<Bigit>, b: seq<Bigit>)
    ensures Num(a + b) == Num(a) + Weight(|a|) * Num(b)
  {
    if |b| == 0 {
      assert a + b == a;
    } else {
      var c, t := b[..|b| - 1], b[|b| - 1];
      assert (a + b)[..|a + b| - 1] == a + c;
      NumConcat(a, c);
      assert Num(a + b) == Num(a + c) + t * Weight(|a| + |b| - 1);
      PowAdd(TWO32, |a|, |b| - 1);
      Factor(Weight(|a|), Num(c), t, Weight(|b| - 1));
    }
  }

  lemma {:induction false} NumUpdate(s: seq<Bigit>, i: nat, x: Bigit)
    requires i < |s|
    ensures Num(s[i := x]) == Num(s) + (x - s[i]) * Weight(i)
  {
    hide Weight;
    var t := s[i := x];
    if i == |s| - 1 {
      assert t[..i] == s[..i];
      Distribute(x, -(s[i] as int), Weight(i));
    } else {
      NumUpdate(s[..|s| - 1], i, x);
      assert t[..|s| - 1] == s[..|s| - 1][i := x];
      assert Num(t) == Num(t[..|s| - 1]) + s[|s| - 1] * Weight(|s| - 1);
      assert Num(s) == Num(s[..|s| - 1]) + s[|s| - 1] * Weight(|s| - 1);
    }
  }

  lemma {:induction false} NumZeros(n: nat)
    ensures Num(Zeros(n)) == 0
  {
    if n > 0 {
      NumZeros(n - 1);
      assert Zeros(n)[..n - 1] == Zeros(n - 1);
    }
  }

  lemma NumSingle(x: Bigit)
    ensures Num([x]) == x
  {
    assert [x][..0] == [];
    assert Num([x]) == Num([x][..0]) + x * Weight(0);
  }

  lemma NumTail(s: seq<Bigit>, i: nat)
    requires i < |s|
    ensures Num(s[i..]) == s[i] + TWO32 * Num(s[i + 1..])
  {
    assert s[i..] == [s[i]] + s[i + 1..];
    NumConcat([s[i]], s[i + 1..]);
    NumSingle(s[i]);
    assert Weight(1) == TWO32 * Weight(0);
  }

  /** The number split below bigit i. */
  lemma NumSplit(s: seq<Bigit>, i: nat)
    requires i <= |s|
    ensures Num(s) == Num(s[..i]) + Weight(i) * Num(s[i..])
    ensures Num(s[..i]) < Weight(i)
  {
    assert s == s[..i] + s[i..];
    NumConcat(s[..i], s[i..]);
    NumBound(s[..i]);
  }

  /** Bounds of a value from its number of bigits. */
  lemma ValueBounds(s: seq<Bigit>, e: nat)
    requires |s| >= 1
    ensures Value(s, e) < Weight(|s| + e)
    ensures TopNonzero(s) ==> Value(s, e) >= Weight(|s| - 1 + e)
  {
    NumBound(s);
    NumTop(s);
    WeightPositive(e);
    PowAdd(TWO32, |s|, e);
    PowAdd(TWO32, |s| - 1, e);
    MulStrictMono(Num(s), Weight(|s|), Weight(e));
    if TopNonzero(s) {
      MulMono(Weight(|s| - 1), Num(s), Weight(e));
    }
  }

  /** A normal number is zero exactly when its one bigit is. */
  lemma NormalZero(s: seq<Bigit>, e: nat)
    requires Normal(s)
    ensures Value(s, e) == 0 <==> !TopNonzero(s)
  {
    if TopNonzero(s) {
      ValueBounds(s, e);
      WeightPositive(|s| - 1 + e);
    } else {
      assert s[..0] == [];
      assert Num(s) == 0;
    }
  }

  /** More bigits, top one nonzero: a larger number. */
  lemma LongerIsLarger(x: seq<Bigit>, xe: nat, y: seq<Bigit>, ye: nat)
    requires TopNonzero(x) && |y| >= 1 && |x| + xe > |y| + ye
    ensures Value(x, xe) > Value(y, ye)
  {
    ValueBounds(x, xe);
    ValueBounds(y, ye);
    PowMono(TWO32, |y| + ye, |x| - 1 + xe);
  }

  /** Numbers with different parts from some bigit upwards are ordered as those parts are. */
  lemma HighDecides(x: seq<Bigit>, xe: nat, y: seq<Bigit>, ye: nat, i: nat)
    requires High(x, xe, i) > High(y, ye, i)
    ensures Value(x, xe) > Value(y, ye)
  {
    HighBounds(x, xe, i);
    HighBounds(y, ye, i);
    MulMono(High(y, ye, i) + 1, High(x, xe, i), Weight(i));
  }

  lemma Extension(low: int, wd: int, n: int, we: int)
    ensures (low + wd * n) * we == low * we + n * (wd * we)
  {
    Distribute(low, wd * n, we);
    MulRearrange(wd, n, we);
    assert (wd * we) * n == n * (wd * we);
  }

  /** A number that extends another one at the bottom by |x| - |y| bigits. */
  lemma LowExtension(x: seq<Bigit>, xe: nat, y: seq<Bigit>, ye: nat)
    requires |x| >= |y| && |x| + xe == |y| + ye
    requires x[|x| - |y|..] == y
    ensures Value(x, xe) == Num(x[..|x| - |y|]) * Weight(xe) + Value(y, ye)
  {
    var d := |x| - |y|;
    NumSplit(x, d);
    PowAdd(TWO32, d, xe);
    Extension(Num(x[..d]), Weight(d), Num(y), Weight(xe));
  }

  /** Bigit number i of a value, zero outside the stored ones. */
  function BigitAt(s: seq<Bigit>, e: nat, i: nat): Bigit {
    if e <= i < e + |s| then s[i - e] else 0
  }

  /** The part of a value from bigit i upwards. */
  function High(s: seq<Bigit>, e: nat, i: nat): nat {
    if i >= e + |s| then 0
    else if i <= e then Num(s) * Weight(e - i)
    else Num(s[i - e..])
  }

  lemma HighStep(s: seq<Bigit>, e: nat, i: nat)
    ensures High(s, e, i) == High(s, e, i + 1) * TWO32 + BigitAt(s, e, i)
  {
    if i >= e + |s| {
    } else if i < e {
      if i + 1 < e + |s| {
        MulAssoc(Num(s), Weight(e - i - 1), TWO32);
      } else {
        assert s == [];
      }
    } else {
      NumTail(s, i - e);
      assert s[0..] == s && s[|s|..] == [];
      if i == e {
        assert Weight(0) == 1;
      }
    }
  }

  lemma HighBounds(s: seq<Bigit>, e: nat, i: nat)
    ensures High(s, e, i) * Weight(i) <= Value(s, e) < (High(s, e, i) + 1) * Weight(i)
    ensures i <= e ==> High(s, e, i) * Weight(i) == Value(s, e)
  {
    var h := High(s, e, i);
    WeightPositive(i);
    Distribute(h, 1, Weight(i));
    if i >= e + |s| {
      HighBeyond(s, e, i);
    } else if i <= e {
      PowAdd(TWO32, e - i, i);
      MulAssoc(Num(s), Weight(e - i), Weight(i));
    } else {
      HighInside(s, e, i - e);
    }
  }

  lemma HighBeyond(s: seq<Bigit>, e: nat, i: nat)
    requires i >= e + |s|
    ensures Value(s, e) < Weight(i) && (i <= e ==> Value(s, e) == 0)
  {
    NumBound(s);
    WeightPositive(e);
    PowAdd(TWO32, |s|, e);
    MulStrictMono(Num(s), Weight(|s|), Weight(e));
    PowMono(TWO32, |s| + e, i);
    if i <= e {
      assert s == [];
    }
  }

  /** low + wk * h, scaled by we, lies in the block of size wk * we that starts at h times that size. */
  lemma Block(low: nat, wk: nat, h: nat, we: nat)
    requires low < wk && we > 0
    ensures h * (wk * we) <= (low + wk * h) * we < h * (wk * we) + wk * we
  {
    Distribute(low, wk * h, we);
    MulRearrange(wk, h, we);
    assert (wk * we) * h == h * (wk * we);
    MulStrictMono(low, wk, we);
    MulMono(0, low, we);
  }

  lemma HighInside(s: seq<Bigit>, e: nat, k: nat)
    requires k <= |s|
    ensures Num(s[k..]) * Weight(k + e) <= Value(s, e) < Num(s[k..]) * Weight(k + e) + Weight(k + e)
  {
    NumSplit(s, k);
    WeightPositive(e);
    PowAdd(TWO32, k, e);
    Block(Num(s[..k]), Weight(k), Num(s[k..]), Weight(e));
  }

  lemma HighAt(s: seq<Bigit>, e: nat, k: nat)
    requires k <= |s|
    ensures High(s, e, e + k) == Num(s[k..])
  {
    assert s[0..] == s && s[|s|..] == [];
    assert Weight(0) == 1;
  }

  /** The first difference from the top decides. */
  lemma FirstDifference(x: seq<Bigit>, xe: nat, i: nat, y: seq<Bigit>, ye: nat, j: nat)
    requires i < |x| && j < |y| && i + xe == j + ye
    requires x[i + 1..] == y[j + 1..] && x[i] > y[j]
    ensures Value(x, xe) > Value(y, ye)
  {
    HighAt(x, xe, i);
    HighAt(y, ye, j);
    NumTail(x, i);
    NumTail(y, j);
    HighDecides(x, xe, y, ye, i + xe);
  }

  /** Every value is a multiple of the weight its exponent stands for. */
  lemma ValueDivisible(s: seq<Bigit>, e: nat, d: nat)
    requires d <= e
    ensures Value(s, e) == (Num(s) * Weight(e - d)) * Weight(d)
  {
    PowAdd(TWO32, e - d, d);
    MulAssoc(Num(s), Weight(e - d), Weight(d));
  }

  // ---- The convolution that squaring computes column by column ----

  /** Sum of the cross products n[p] * n[k - p] with p < i. */
  function Column(n: seq<Bigit>, i: nat, k: nat): nat
    requires i <= |n|
  {
    if i == 0 then 0
    else Column(n, i - 1, k) + (if 0 <= k - (i - 1) < |n| then n[i - 1] as int * n[k - (i - 1)] as int else 0)
  }

  /** The lowest m bigits, as far as there are. */
  function Lowest(n: seq<Bigit>, m: int): seq<Bigit> {
    n[..Max(0, Min(m, |n|))]
  }

  /** Sum over p < i of n[p] * Weight(p) times the bigits q of n with p + q < k. */
  function Triangle(n: seq<Bigit>, i: nat, k: nat): nat
    requires i <= |n|
  {
    if i == 0 then 0
    else
      ProductNonnegative(n[i - 1], Weight(i - 1), Num(Lowest(n, k - (i - 1))));
      Triangle(n, i - 1, k) + n[i - 1] * Weight(i - 1) * Num(Lowest(n, k - (i - 1)))
  }

  lemma ProductNonnegative(a: nat, b: nat, c: nat)
    ensures a * b * c >= 0
  {
    MulMono(0, a, b);
    MulMono(0, a * b, c);
  }

  /** One more bigit y at weight wq in the product with bigit x at weight wp. */
  lemma CrossTerm(x: int, wp: int, y: int, wq: int, wk: int, shorter: int, longer: int, column: int, next: int)
    requires wk == wp * wq && longer == shorter + y * wq && next == column + x * y
    ensures x * wp * longer + column * wk == x * wp * shorter + next * wk
  {
    SplitProductLeft(x * wp, shorter, y * wq, longer);
    MulSwap(x, wp, y, wq);
    Distribute(column, x * y, wk);
    MulCongruent(next, column + x * y, wk);
    MulCongruent(wk, wp * wq, x * y);
  }

  lemma SplitProductLeft(z: int, a: int, b: int, c: int)
    requires c == a + b
    ensures z * c == z * a + z * b
  {
  }

  /** Row p of the triangle grows by its product in column k. */
  lemma RowStep(n: seq<Bigit>, p: nat, k: nat)
    requires p < |n|
    ensures n[p] * Weight(p) * Num(Lowest(n, k + 1 - p)) + Column(n, p, k) * Weight(k)
         == n[p] * Weight(p) * Num(Lowest(n, k - p)) + Column(n, p + 1, k) * Weight(k)
  {
    var q := k - p;
    assert Column(n, p + 1, k) == Column(n, p, k) + if 0 <= q < |n| then n[p] as int * n[q] as int else 0;
    hide Column, Num, Weight;
    if 0 <= q < |n| {
      NumStep(n, q);
      PowAddWeight(p, q);
      CrossTerm(n[p], Weight(p), n[q], Weight(q), Weight(k), Num(n[..q]), Num(n[..q + 1]), Column(n, p, k),
                Column(n, p + 1, k));
    } else {
      assert Lowest(n, q + 1) == Lowest(n, q);
    }
  }

  lemma {:induction false} TriangleStep(n: seq<Bigit>, i: nat, k: nat)
    requires i <= |n|
    ensures Triangle(n, i, k + 1) == Triangle(n, i, k) + Column(n, i, k) * Weight(k)
  {
    hide Column, Num, Weight, Lowest;
    if i > 0 {
      TriangleStep(n, i - 1, k);
      RowStep(n, i - 1, k);
    } else {
      NoColumn(n, k);
    }
  }

  lemma NoColumn(n: seq<Bigit>, k: nat)
    ensures Column(n, 0, k) * Weight(k) == 0
  {
  }

  lemma {:induction false} TriangleStart(n: seq<Bigit>, i: nat)
    requires i <= |n|
    ensures Triangle(n, i, 0) == 0
  {
    if i > 0 {
      TriangleStart(n, i - 1);
      assert Lowest(n, -(i - 1)) == [];
    }
  }

  lemma SplitProduct(a: int, b: int, c: int, z: int)
    requires c == a + b
    ensures c * z == a * z + b * z
  {
    MulCongruent(c, a + b, z);
    Distribute(a, b, z);
  }

  lemma {:induction false} TriangleFull(n: seq<Bigit>, i: nat, k: nat)
    requires i <= |n| && k >= 2 * |n|
    ensures Triangle(n, i, k) == Num(n[..i]) * Num(n)
  {
    if i > 0 {
      TriangleFull(n, i - 1, k);
      NumStep(n, i - 1);
      assert n[..|n|] == n;
      assert Lowest(n, k - (i - 1)) == n;
      assert Triangle(n, i, k) == Triangle(n, i - 1, k) + n[i - 1] * Weight(i - 1) * Num(n);
      hide Triangle, Num, Weight;
      SplitProduct(Num(n[..i - 1]), n[i - 1] * Weight(i - 1), Num(n[..i]), Num(n));
    }
  }

  /** Column k has no product with p > k. */
  lemma {:induction false} ColumnTail(n: seq<Bigit>, i: nat, k: nat)
    requires k < i <= |n|
    ensures Column(n, i, k) == Column(n, k + 1, k)
  {
    if i > k + 1 {
      ColumnTail(n, i - 1, k);
    }
  }

  /** Column k has no product with p <= k - |n|. */
  lemma {:induction false} ColumnHead(n: seq<Bigit>, i: nat, k: nat)
    requires i <= |n| && i + |n| <= k + 1
    ensures Column(n, i, k) == 0
  {
    if i > 0 {
      ColumnHead(n, i - 1, k);
    }
  }

  /** The largest product of two bigits. */
  const MAX_PRODUCT: int := 0xffff_fffe_0000_0001

  lemma ProductBound(x: Bigit, y: Bigit)
    ensures 0 <= x * y <= MAX_PRODUCT
  {
    MulMono(0, x, y);
    MulMono(x, 0xffff_ffff, y);
    MulMono(y, 0xffff_ffff, 0xffff_ffff);
  }

  lemma {:induction false} ColumnBound(n: seq<Bigit>, i: nat, k: nat)
    requires i <= |n|
    ensures Column(n, i, k) <= i * MAX_PRODUCT
  {
    if i > 0 {
      ColumnBound(n, i - 1, k);
      if 0 <= k - (i - 1) < |n| {
        ProductBound(n[i - 1], n[k - (i - 1)]);
      }
    }
  }
}
