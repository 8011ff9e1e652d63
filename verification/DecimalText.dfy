/** Decimal digit characters: the number they denote, rounding, and the carry that rounding up starts. */
module DecimalText {
  import opened Arithmetic

  function DigitValue(c: char): int {
    c as int - '0' as int
  }

  function DigitChar(d: int): char
    requires 0 <= d <= 10
  {
    ('0' as int + d) as char
  }

  predicate IsDigit(c: char) {
    '0' <= c <= '9'
  }

  predicate AllDigits(s: seq<char>) {
    forall i :: 0 <= i < |s| ==> IsDigit(s[i])
  }

  /** The number a string of digits denotes, most significant digit first. */
  function DecValue(s: seq<char>): int {
    if |s| == 0 then 0 else 10 * DecValue(s[..|s| - 1]) + DigitValue(s[|s| - 1])
  }

  lemma DecStep(s: seq<char>, i: nat)
    requires i < |s|
    ensures DecValue(s[..i + 1]) == 10 * DecValue(s[..i]) + DigitValue(s[i])
  {
    assert s[..i + 1][..i] == s[..i];
  }

  lemma {:induction false} DecBound(s: seq<char>)
    requires AllDigits(s)
    ensures 0 <= DecValue(s) < Pow(10, |s|)
  {
    if |s| > 0 {
      DecBound(s[..|s| - 1]);
    }
  }

  lemma {:induction false} DecConcat(a: seq<char>, b: seq<char>)
    ensures DecValue(a + b) == DecValue(a) * Pow(10, |b|) + DecValue(b)
  {
    if |b| == 0 {
      assert a + b == a;
    } else {
      assert (a + b)[..|a + b| - 1] == a + b[..|b| - 1];
      DecConcat(a, b[..|b| - 1]);
      MulAssoc(DecValue(a), Pow(10, |b| - 1), 10);
    }
  }

  lemma {:induction false} DecZeros(s: seq<char>)
    requires forall i :: 0 <= i < |s| ==> s[i] == '0'
    ensures DecValue(s) == 0
  {
    if |s| > 0 {
      DecZeros(s[..|s| - 1]);
    }
  }

  /** A one over digit position i - 1 is ten at position i. */
  lemma {:induction false} DecCarry(s: seq<char>, t: seq<char>, i: nat)
    requires 0 < i < |s| == |t|
    requires t == s[i := t[i]][i - 1 := t[i - 1]]
    requires DigitValue(t[i]) == DigitValue(s[i]) - 10 && DigitValue(t[i - 1]) == DigitValue(s[i - 1]) + 1
    ensures DecValue(t) == DecValue(s)
  {
    var n := |s| - 1;
    if i == n {
      assert t[..n][..n - 1] == s[..n][..n - 1];
    } else {
      assert t[..n] == s[..n][i := t[i]][i - 1 := t[i - 1]];
      DecCarry(s[..n], t[..n], i);
    }
  }

  /** A leading digit followed by zeros. */
  lemma DecLeading(s: seq<char>)
    requires |s| >= 1 && forall i :: 0 < i < |s| ==> s[i] == '0'
    ensures DecValue(s) == DigitValue(s[0]) * Pow(10, |s| - 1)
  {
    assert s == s[..1] + s[1..];
    DecConcat(s[..1], s[1..]);
    DecZeros(s[1..]);
    assert s[..1][..0] == [];
  }

  /**
   Carry propagation after a digit was incremented: a digit above '9' becomes '0' and its left neighbour is
   incremented. The number does not change; a first digit above '9' is left to the caller.
   */
  method PropagateCarry(buf: array<char>, size: nat)
    requires 1 <= size <= buf.Length
    requires AllDigits(buf[..size - 1]) && '0' <= buf[size - 1] <= ':'
    modifies buf
    ensures DecValue(buf[..size]) == old(DecValue(buf[..size]))
    ensures buf[size..] == old(buf[size..])
    ensures AllDigits(buf[..size]) || (buf[0] == ':' && forall k :: 0 < k < size ==> buf[k] == '0')
  {
    var i := size - 1;
    while i > 0 && buf[i] > '9'
      invariant 0 <= i < size
      invariant DecValue(buf[..size]) == old(DecValue(buf[..size]))
      invariant buf[size..] == old(buf[size..])
      invariant forall k :: 0 <= k < i ==> IsDigit(buf[k])
      invariant '0' <= buf[i] <= ':'
      invariant forall k :: i < k < size ==> buf[k] == '0'
    {
      ghost var before := buf[..size];
      buf[i] := '0';
      buf[i - 1] := (buf[i - 1] as int + 1) as char;
      assert buf[..size] == before[i := '0'][i - 1 := buf[i - 1]];
      DecCarry(before, buf[..size], i);
      i := i - 1;
    }
  }

  // ---- Rounding ----

  function RoundHalfEven(n: nat, d: nat): nat
    requires d > 0
  {
    var q, r := n / d, n % d;
    if 2 * r < d || (2 * r == d && q % 2 == 0) then q else q + 1
  }

  /** q is a nearest integer to n / d, the even one when two are equally near. */
  predicate NearestEven(q: int, n: nat, d: nat) {
    2 * Abs(q * d - n) <= d && (2 * Abs(q * d - n) == d ==> q % 2 == 0)
  }

  lemma RoundHalfEvenIsNearest(n: nat, d: nat)
    requires d > 0
    ensures NearestEven(RoundHalfEven(n, d), n, d)
  {
    var q, r := n / d, n % d;
    assert n == q * d + r;
    Distribute(q, 1, d);
  }

  /** There is only one such integer. */
  lemma NearestEvenUnique(p: int, q: int, n: nat, d: nat)
    requires d > 0 && NearestEven(p, n, d) && NearestEven(q, n, d)
    ensures p == q
  {
    Distribute(p, -q, d);
    if p > q {
      MulMono(1, p - q, d);
      if p > q + 1 {
        MulMono(2, p - q, d);
      }
    } else if p < q {
      MulMono(p - q, -1, d);
      if p < q - 1 {
        MulMono(p - q, -2, d);
      }
    }
  }

  /** A quotient and remainder decide the rounding. */
  lemma RoundFrom(n: nat, d: nat, q: nat, r: nat)
    requires d > 0 && n == q * d + r && r < d
    ensures RoundHalfEven(n, d) == if 2 * r > d || (2 * r == d && q % 2 == 1) then q + 1 else q
  {
    DivModUnique(n, d, q, r);
  }

  lemma RoundScaled(n: nat, d: nat, s: nat)
    requires d > 0 && s > 0
    ensures d * s > 0 && RoundHalfEven(n * s, d * s) == RoundHalfEven(n, d)
  {
    var q, r := n / d, n % d;
    MulMono(1, d, s);
    assert n == q * d + r;
    Distribute(q * d, r, s);
    MulAssoc(q, d, s);
    MulStrictMono(r, d, s);
    MulMono(0, r, s);
    RoundFrom(n * s, d * s, q, r * s);
    RoundFrom(n, d, q, r);
    MulAssoc(2, r, s);
    if 2 * r < d {
      MulStrictMono(2 * r, d, s);
    } else if 2 * r > d {
      MulStrictMono(d, 2 * r, s);
    }
  }
}
