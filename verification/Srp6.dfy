/**
 The SRP-6 server: key agreement by modular exponentiation over 32-byte little-endian numbers, with the hash left
 as an arbitrary function to 20-byte digests and the random salt and private key as parameters.
 */
module Srp6 {
  import opened Arithmetic
  import opened Options

  type Digest = s: seq<Byte> | |s| == 20 witness seq(20, _ => 0)
  type Bytes32 = s: seq<Byte> | |s| == 32 witness seq(32, _ => 0)
  type SessionKey = s: seq<Byte> | |s| == 40 witness seq(40, _ => 0)
  type Hash = seq<Byte> -> Digest

  const G: nat := 7
  const N: nat := 0x894B645E89E1535BBDAD5B8B290650530801B18EBFBF5E8FAB3C82872A3E9BB7

  // ---- Little-endian numbers ----

  function Number(s: seq<Byte>): nat {
    if s == [] then 0 else s[0] + 256 * Number(s[1..])
  }

  function Encoded(n: nat, size: nat): (s: seq<Byte>)
    requires n < Pow(256, size)
    ensures |s| == size
  {
    if size == 0 then [] else [n % 256] + Encoded(n / 256, size - 1)
  }

  lemma {:induction false} NumberOfEncoded(n: nat, size: nat)
    requires n < Pow(256, size)
    ensures Number(Encoded(n, size)) == n
  {
    if size > 0 {
      NumberOfEncoded(n / 256, size - 1);
      assert Encoded(n, size)[1..] == Encoded(n / 256, size - 1);
    }
  }

  /** Little-endian: the byte at place k has the weight 256^k. */
  lemma {:induction false} EncodedByte(n: nat, size: nat, k: nat)
    requires n < Pow(256, size) && k < size
    ensures Pow(256, k) > 0 && Encoded(n, size)[k] == n / Pow(256, k) % 256
  {
    PowPositive(256, k);
    if k > 0 {
      EncodedByte(n / 256, size - 1, k - 1);
      PowPositive(256, k - 1);
      DivDiv(n, 256, Pow(256, k - 1));
    }
  }

  lemma LowByte(low: Byte, high: nat, bound: nat)
    requires high < bound
    ensures (low + 256 * high) % 256 == low && (low + 256 * high) / 256 == high
    ensures low + 256 * high < 256 * bound
  {
  }

  lemma {:induction false} EncodedOfNumber(s: seq<Byte>)
    ensures Number(s) < Pow(256, |s|)
    ensures Encoded(Number(s), |s|) == s
  {
    if s != [] {
      EncodedOfNumber(s[1..]);
      LowByte(s[0], Number(s[1..]), Pow(256, |s| - 1));
      assert Encoded(Number(s), |s|) == [s[0]] + Encoded(Number(s[1..]), |s| - 1);
    }
  }

  lemma ModulusFits()
    ensures N < Pow(256, 32)
  {
    assert Pow(256, 4) == 0x1_0000_0000;
    PowAdd(256, 4, 4);
    PowAdd(256, 8, 8);
    PowAdd(256, 16, 16);
  }

  /** The 32-byte form of a residue; the modulus leaves room for every residue. */
  function Residue(n: int): (s: Bytes32)
    ensures Number(s) == n % N
  {
    ModulusFits();
    NumberOfEncoded(n % N, 32);
    Encoded(n % N, 32)
  }

  // ---- The key agreement, for every modulus ----

  function ModExp(b: nat, e: nat, n: nat): (r: nat)
    requires n > 0
    ensures r < n
  {
    Pow(b, e) % n
  }

  /** What the server publishes: B = g^b + 3v. */
  function PublicValue(g: nat, b: nat, v: nat, n: nat): nat
    requires n > 0
  {
    (ModExp(g, b, n) + v * 3) % n
  }

  /** The server's secret, (A * v^u)^b. */
  function ServerSecret(publicA: nat, v: nat, u: nat, b: nat, n: nat): nat
    requires n > 0
  {
    ModExp(publicA * ModExp(v, u, n), b, n)
  }

  /** The client's secret of RFC 5054 section 2.6 with k = 3: (B - k * g^x)^(a + u * x). */
  function ClientSecret(g: nat, publicB: nat, x: nat, a: nat, u: nat, n: nat): nat
    requires n > 0
  {
    ModExp((publicB - 3 * Pow(g, x)) % n, a + u * x, n)
  }

  lemma SquareOff(publicB: int, p: int, gx: int, n: int)
    requires n > 0 && publicB == (p % n + (gx % n) * 3) % n
    ensures (publicB - 3 * gx) % n == p % n
  {
    var i, j, k := p / n, gx / n, (p % n + (gx % n) * 3) / n;
    assert p == i * n + p % n;
    assert gx == j * n + gx % n;
    assert publicB - 3 * gx == p + (-i - k - 3 * j) * n by {
      assert p % n + (gx % n) * 3 == k * n + publicB;
      assert (-i - k - 3 * j) * n == -(i * n) - k * n - 3 * (j * n);
    }
    ModEqIf(publicB - 3 * gx, p, -i - k - 3 * j, n);
  }

  lemma PowCongruent(x: nat, y: nat, e: nat, n: nat)
    requires n > 0 && x % n == y % n
    ensures ModExp(x, e, n) == ModExp(y, e, n)
  {
    PowMod(x, e, n);
    PowMod(y, e, n);
  }

  lemma PowerOfVerifier(g: nat, x: nat, u: nat, n: nat)
    requires n > 0
    ensures ModExp(ModExp(g, x, n), u, n) == ModExp(g, u * x, n)
  {
    ModTwice(Pow(g, x), n);
    PowCongruent(ModExp(g, x, n), Pow(g, x), u, n);
    PowMul(g, x, u);
    assert x * u == u * x;
  }

  lemma ProductOfPowers(g: nat, d: nat, e: nat, n: nat)
    requires n > 0
    ensures ModExp(g, d, n) * ModExp(g, e, n) % n == ModExp(g, d + e, n)
  {
    ModMul(Pow(g, d), Pow(g, e), n);
    PowAdd(g, d, e);
  }

  /** The server's secret is a power of the generator. */
  lemma ServerPower(g: nat, x: nat, a: nat, u: nat, b: nat, n: nat)
    requires n > 0
    ensures ServerSecret(ModExp(g, a, n), ModExp(g, x, n), u, b, n) == ModExp(g, b * (a + u * x), n)
  {
    hide Pow;
    PowerOfVerifier(g, x, u, n);
    ProductOfPowers(g, a, u * x, n);
    var e := a + u * x;
    PowCongruent(ModExp(g, a, n) * ModExp(g, u * x, n), Pow(g, e), b, n);
    PowMul(g, e, b);
    assert e * b == b * e;
  }

  /** The client's secret is the same power. */
  lemma ClientPower(g: nat, x: nat, a: nat, u: nat, b: nat, n: nat)
    requires n > 0
    ensures ClientSecret(g, PublicValue(g, b, ModExp(g, x, n), n), x, a, u, n) == ModExp(g, b * (a + u * x), n)
  {
    hide Pow;
    var publicB := PublicValue(g, b, ModExp(g, x, n), n);
    SquareOff(publicB, Pow(g, b), Pow(g, x), n);
    ModTwice(Pow(g, b), n);
    PowCongruent((publicB - 3 * Pow(g, x)) % n, Pow(g, b), a + u * x, n);
    PowMul(g, b, a + u * x);
  }

  /** Both sides compute the same secret, whatever the modulus, generator and exponents. */
  lemma SecretsAgree(g: nat, x: nat, a: nat, u: nat, b: nat, n: nat)
    requires n > 0
    ensures var v := ModExp(g, x, n);
            ServerSecret(ModExp(g, a, n), v, u, b, n) == ClientSecret(g, PublicValue(g, b, v, n), x, a, u, n)
  {
    ServerPower(g, x, a, u, b, n);
    ClientPower(g, x, a, u, b, n);
  }

  // ---- The interleaved hash ----

  function WithoutLeadingZeros(s: seq<Byte>): (t: seq<Byte>) {
    if s != [] && s[0] == 0 then WithoutLeadingZeros(s[1..]) else s
  }

  /** RFC 2945 section 3.1, the input T of the two hashes: no leading zero bytes, and an even length. */
  function HashInput(s: seq<Byte>): (t: seq<Byte>)
    ensures |t| % 2 == 0
  {
    var t := WithoutLeadingZeros(s);
    if |t| % 2 == 1 then t[1..] else t
  }

  function Evens(t: seq<Byte>): (r: seq<Byte>)
    requires |t| % 2 == 0
    ensures |r| == |t| / 2
  {
    seq(|t| / 2, i requires 0 <= i < |t| / 2 => t[2 * i])
  }

  function Odds(t: seq<Byte>): (r: seq<Byte>)
    requires |t| % 2 == 0
    ensures |r| == |t| / 2
  {
    seq(|t| / 2, i requires 0 <= i < |t| / 2 => t[2 * i + 1])
  }

  function Interleave(g: Digest, h: Digest): (k: SessionKey) {
    seq(40, i requires 0 <= i < 40 => if i % 2 == 0 then g[i / 2] else h[i / 2])
  }

  /** SHA_Interleave as RFC 2945 section 3.1 states it. */
  function InterleavedHash(hash: Hash, s: seq<Byte>): SessionKey {
    var t := HashInput(s);
    Interleave(hash(Evens(t)), hash(Odds(t)))
  }

  predicate ZerosBefore(s: seq<Byte>, p: nat) {
    p <= |s| && forall k :: 0 <= k < p ==> s[k] == 0
  }

  /** Skipping p zero bytes in front of a nonzero one is stripping them. */
  lemma {:induction false} Skipped(s: seq<Byte>, p: nat)
    requires ZerosBefore(s, p) && (p < |s| ==> s[p] != 0)
    ensures WithoutLeadingZeros(s) == s[p..]
  {
    if p > 0 {
      Skipped(s[1..], p - 1);
      assert s[1..][p - 1..] == s[p..];
    }
  }

  /** The parts of the RFC, place by place: t is what is left of s, e and f are its bytes at even and odd places. */
  predicate HashedParts(s: seq<Byte>, zeros: nat, t: seq<Byte>, e: seq<Byte>, f: seq<Byte>) {
    && ZerosBefore(s, zeros) && (zeros < |s| ==> s[zeros] != 0)
    && t == (if (|s| - zeros) % 2 == 1 then s[zeros + 1..] else s[zeros..])
    && |e| == |f| == |t| / 2
    && forall i :: 0 <= i < |e| ==> e[i] == t[2 * i] && f[i] == t[2 * i + 1]
  }

  /** The bytes of the two hashes of these parts alternate in the key. */
  lemma KeyBytes(hash: Hash, s: seq<Byte>, zeros: nat, t: seq<Byte>, e: seq<Byte>, f: seq<Byte>, i: nat)
    requires HashedParts(s, zeros, t, e, f) && i < 20
    ensures InterleavedHash(hash, s)[2 * i] == hash(e)[i] && InterleavedHash(hash, s)[2 * i + 1] == hash(f)[i]
  {
    Skipped(s, zeros);
    assert |s[zeros..]| == |s| - zeros;
    assert HashInput(s) == t by {
      if (|s| - zeros) % 2 == 1 {
        assert s[zeros..][1..] == s[zeros + 1..];
      }
    }
    assert Evens(t) == e && Odds(t) == f;
  }

  /** The first loop: bytes at even and at odd positions. */
  method Split(premaster: seq<Byte>) returns (buf0: array<Byte>, buf1: array<Byte>)
    requires |premaster| % 2 == 0
    ensures fresh(buf0) && fresh(buf1)
    ensures buf0[..] == Evens(premaster) && buf1[..] == Odds(premaster)
  {
    var half := |premaster| / 2;
    buf0, buf1 := new Byte[half], new Byte[half];
    for i := 0 to half
      invariant forall k :: 0 <= k < i ==> buf0[k] == premaster[2 * k] && buf1[k] == premaster[2 * k + 1]
    {
      buf0[i] := premaster[2 * i];
      buf1[i] := premaster[2 * i + 1];
    }
  }

  /** The last loop: two digests, byte by byte. */
  method Merge(hash0: Digest, hash1: Digest) returns (key: SessionKey)
    ensures key == Interleave(hash0, hash1)
  {
    var k := new Byte[40];
    for i := 0 to 20
      invariant forall j :: 0 <= j < i ==> k[2 * j] == hash0[j] && k[2 * j + 1] == hash1[j]
    {
      k[2 * i] := hash0[i];
      k[2 * i + 1] := hash1[i];
    }
    forall j | 0 <= j < 40 ensures k[j] == Interleave(hash0, hash1)[j] {
      assert j == 2 * (j / 2) + j % 2;
      assert k[2 * (j / 2)] == hash0[j / 2] && k[2 * (j / 2) + 1] == hash1[j / 2];
    }
    key := k[..];
  }

  lemma SplitDropped(premaster: seq<Byte>, q: nat)
    requires |premaster| % 2 == 0 && 2 * q <= |premaster|
    ensures Evens(premaster)[q..] == Evens(premaster[2 * q..]) && Odds(premaster)[q..] == Odds(premaster[2 * q..])
  {
  }

  /** Splitting first and then dropping q bytes of each half gives the halves of the RFC's input. */
  lemma SplitThenSkip(premaster: seq<Byte>, p: nat, q: nat)
    requires |premaster| % 2 == 0 && ZerosBefore(premaster, p) && (p < |premaster| ==> premaster[p] != 0)
    requires q == (if p % 2 == 1 then p + 1 else p) / 2
    ensures q <= |premaster| / 2
    ensures Evens(premaster)[q..] == Evens(HashInput(premaster)) && Odds(premaster)[q..] == Odds(HashInput(premaster))
  {
    hide Evens, Odds, WithoutLeadingZeros;
    Skipped(premaster, p);
    if p % 2 == 1 {
      assert |premaster[p..]| % 2 == 1 && premaster[p..][1..] == premaster[2 * q..];
    } else {
      assert |premaster[p..]| % 2 == 0 && premaster[p..] == premaster[2 * q..];
    }
    SplitDropped(premaster, q);
  }

  /** The halves are split before anything is skipped, and the same number of bytes is skipped in each. */
  method SHA1Interleave(hash: Hash, premaster: seq<Byte>) returns (key: SessionKey)
    requires |premaster| % 2 == 0
    ensures key == InterleavedHash(hash, premaster)
  {
    hide Evens, Odds, HashInput, WithoutLeadingZeros, Interleave;
    var buf0, buf1 := Split(premaster);
    var p := 0;
    while p < |premaster| && premaster[p] == 0
      invariant ZerosBefore(premaster, p)
    {
      p := p + 1;
    }
    ghost var zeros := p;
    if p % 2 == 1 {
      p := p + 1;
    }
    p := p / 2;
    SplitThenSkip(premaster, zeros, p);
    var hash0, hash1 := hash(buf0[p..]), hash(buf1[p..]);
    key := Merge(hash0, hash1);
  }

  // ---- Registration ----

  /** The private exponent x of a user. */
  function PasswordExponent(hash: Hash, username: seq<Byte>, password: seq<Byte>, salt: Bytes32): nat {
    Number(hash(salt + hash(username + [58] + password)))
  }

  function CalculateVerifier(hash: Hash, username: seq<Byte>, password: seq<Byte>, salt: Bytes32): Bytes32 {
    Residue(ModExp(G, PasswordExponent(hash, username, password, salt), N))
  }

  predicate CheckLogin(hash: Hash, username: seq<Byte>, password: seq<Byte>, salt: Bytes32, verifier: Bytes32) {
    verifier == CalculateVerifier(hash, username, password, salt)
  }

  lemma VerifierNumber(hash: Hash, username: seq<Byte>, password: seq<Byte>, salt: Bytes32)
    ensures Number(CalculateVerifier(hash, username, password, salt))
         == ModExp(G, PasswordExponent(hash, username, password, salt), N)
  {
    ModTwice(Pow(G, PasswordExponent(hash, username, password, salt)), N);
  }

  /** What is hashed first, place by place: the name, a colon and the password. */
  predicate CredentialsMessage(username: seq<Byte>, password: seq<Byte>, m: seq<Byte>) {
    var n := |username|;
    |m| == n + 1 + |password| && m[..n] == username && m[n] == 58 && m[n + 1..] == password
  }

  /** And then: the salt and the first hash. */
  predicate SaltedMessage(hash: Hash, salt: Bytes32, inner: seq<Byte>, m: seq<Byte>) {
    |m| == 52 && m[..32] == salt && m[32..] == hash(inner)
  }

  /** A login passes exactly when the stored bytes are the number 7^x mod N, x being the hash of these messages. */
  lemma LoginExactly(hash: Hash, username: seq<Byte>, password: seq<Byte>, salt: Bytes32, verifier: Bytes32,
                     inner: seq<Byte>, outer: seq<Byte>)
    requires CredentialsMessage(username, password, inner) && SaltedMessage(hash, salt, inner, outer)
    ensures CheckLogin(hash, username, password, salt, verifier) <==>
            Number(verifier) == Pow(7, Number(hash(outer))) % N
  {
    assert inner == username + [58] + password && outer == salt + hash(inner);
    var expected := CalculateVerifier(hash, username, password, salt);
    VerifierNumber(hash, username, password, salt);
    EncodedOfNumber(verifier);
    EncodedOfNumber(expected);
  }

  // ---- The server ----

  /** The exclusive or of the lowest n binary digits. */
  function XorDigits(x: nat, y: nat, n: nat): (r: nat)
    ensures r < Pow(2, n)
  {
    if n == 0 then 0 else (if x % 2 != y % 2 then 1 else 0) + 2 * XorDigits(x / 2, y / 2, n - 1)
  }

  function Xor(x: Byte, y: Byte): Byte {
    TwoToTheEighth();
    XorDigits(x, y, 8)
  }

  lemma TwoToTheEighth()
    ensures Pow(2, 8) == 256
  {
  }

  /** The binary digit of weight 2^k. */
  function BinaryDigit(x: nat, k: nat): nat {
    PowPositive(2, k);
    x / Pow(2, k) % 2
  }

  lemma NextDigit(x: nat, k: nat)
    ensures BinaryDigit(x, k + 1) == BinaryDigit(x / 2, k)
    ensures BinaryDigit(x, 0) == x % 2
  {
    PowPositive(2, k);
    DivDiv(x, 2, Pow(2, k));
  }

  lemma LowDigit(low: nat, high: nat)
    requires low < 2
    ensures (low + 2 * high) % 2 == low && (low + 2 * high) / 2 == high
  {
  }

  lemma {:induction false} XorDigit(x: nat, y: nat, n: nat, k: nat)
    requires k < n
    ensures BinaryDigit(XorDigits(x, y, n), k) == if BinaryDigit(x, k) != BinaryDigit(y, k) then 1 else 0
  {
    hide BinaryDigit;
    var r, rest := XorDigits(x, y, n), XorDigits(x / 2, y / 2, n - 1);
    assert r == (if x % 2 != y % 2 then 1 else 0) + 2 * rest;
    LowDigit(if x % 2 != y % 2 then 1 else 0, rest);
    hide XorDigits;
    if k == 0 {
      NextDigit(x, 0);
      NextDigit(y, 0);
      NextDigit(r, 0);
    } else {
      NextDigit(x, k - 1);
      NextDigit(y, k - 1);
      NextDigit(r, k - 1);
      XorDigit(x / 2, y / 2, n - 1, k - 1);
    }
  }

  /** The digits determine the number. */
  lemma {:induction false} SameDigits(x: nat, y: nat, n: nat)
    requires x < Pow(2, n) && y < Pow(2, n) && forall k: nat | k < n :: BinaryDigit(x, k) == BinaryDigit(y, k)
    ensures x == y
  {
    if n > 0 {
      hide BinaryDigit;
      NextDigit(x, 0);
      NextDigit(y, 0);
      assert BinaryDigit(x, 0) == BinaryDigit(y, 0);
      forall k: nat | k < n - 1 ensures BinaryDigit(x / 2, k) == BinaryDigit(y / 2, k) {
        NextDigit(x, k);
        NextDigit(y, k);
        assert BinaryDigit(x, k + 1) == BinaryDigit(y, k + 1);
      }
      SameDigits(x / 2, y / 2, n - 1);
    }
  }

  /** Z is the exclusive or of x and y, digit by digit. */
  predicate DigitsDiffer(z: Byte, x: Byte, y: Byte) {
    forall k: nat | k < 8 :: BinaryDigit(z, k) == 1 <==> BinaryDigit(x, k) != BinaryDigit(y, k)
  }

  /** The bytes whose set digits are those in which x and y differ. */
  lemma XorExactly(x: Byte, y: Byte, z: Byte)
    ensures z == Xor(x, y) <==> DigitsDiffer(z, x, y)
  {
    forall k: nat | k < 8
      ensures BinaryDigit(Xor(x, y), k) == 1 <==> BinaryDigit(x, k) != BinaryDigit(y, k)
    {
      XorDigit(x, y, 8, k);
    }
    TwoToTheEighth();
    if DigitsDiffer(z, x, y) {
      forall k: nat | k < 8 ensures BinaryDigit(z, k) == BinaryDigit(Xor(x, y), k) {
        assert BinaryDigit(z, k) == 1 <==> BinaryDigit(x, k) != BinaryDigit(y, k);
      }
      SameDigits(z, Xor(x, y), 8);
    }
  }

  /** Applying it twice gives the byte back. */
  lemma XorTwice(x: Byte, y: Byte)
    ensures Xor(Xor(x, y), y) == x && Xor(x, x) == 0
  {
    var z := Xor(x, y);
    XorExactly(x, y, z);
    forall k: nat | k < 8 ensures BinaryDigit(x, k) == 1 <==> BinaryDigit(z, k) != BinaryDigit(y, k) {
      assert BinaryDigit(z, k) == 1 <==> BinaryDigit(x, k) != BinaryDigit(y, k);
    }
    XorExactly(z, y, x);
    forall k: nat | k < 8 ensures BinaryDigit(0, k) == 0 {
      PowPositive(2, k);
      DivModUnique(0, Pow(2, k), 0, 0);
    }
    XorExactly(x, x, 0);
  }

  function XorDigests(d: Digest, e: Digest): Digest {
    seq(20, i requires 0 <= i < 20 => Xor(d[i], e[i]))
  }

  /** The evidence message M of a session. */
  function Evidence(hash: Hash, identity: Digest, salt: Bytes32, publicA: Bytes32, publicB: Bytes32,
                    key: SessionKey): Digest
  {
    hash(XorDigests(hash(ModulusBytes()), hash([G])) + identity + salt + publicA + publicB + key)
  }

  function ModulusBytes(): (s: Bytes32)
    ensures Number(s) == N
  {
    ModulusFits();
    NumberOfEncoded(N, 32);
    Encoded(N, 32)
  }

  function Scrambler(hash: Hash, publicA: Bytes32, publicB: Bytes32): nat {
    Number(hash(publicA + publicB))
  }

  /** The key of a session with the server's private values b and v. */
  function ServerKey(hash: Hash, b: nat, v: nat, publicA: Bytes32, publicB: Bytes32): SessionKey {
    InterleavedHash(hash, Residue(ServerSecret(Number(publicA), v, Scrambler(hash, publicA, publicB), b, N)))
  }

  lemma PublishedValue(b: nat, v: nat)
    ensures (ModExp(G, b, N) + v * 3) % N == (Pow(7, b) + 3 * v) % N == PublicValue(G, b, v, N)
  {
    ModAdd(Pow(7, b), v * 3, N);
  }

  predicate HashesDiffer(z: seq<Byte>, x: Digest, y: Digest) {
    |z| == 20 && forall i :: 0 <= i < 20 ==> DigitsDiffer(z[i], x[i], y[i])
  }

  lemma HashesDifferExactly(z: seq<Byte>, x: Digest, y: Digest)
    ensures HashesDiffer(z, x, y) <==> z == XorDigests(x, y)
  {
    hide DigitsDiffer, Xor;
    if |z| == 20 {
      forall i | 0 <= i < 20 ensures DigitsDiffer(z[i], x[i], y[i]) <==> z[i] == XorDigests(x, y)[i] {
        XorExactly(x[i], y[i], z[i]);
      }
    }
  }

  /**
   The message whose hash is the evidence, place by place: the exclusive or of two hashes, the hashed name, the salt,
   both public values and the session key.
   */
  ghost predicate EvidenceMessage(hash: Hash, identity: Digest, salt: Bytes32, publicA: Bytes32, publicB: Bytes32,
                                  key: SessionKey, m: seq<Byte>)
  {
    && |m| == 176
    && m[20..40] == identity && m[40..72] == salt && m[72..104] == publicA && m[104..136] == publicB
    && m[136..176] == key
    && HashesDiffer(m[..20], hash(ModulusBytes()), hash([7]))
  }

  function SixParts(m: seq<Byte>): seq<Byte>
    requires |m| == 176
  {
    m[..20] + m[20..40] + m[40..72] + m[72..104] + m[104..136] + m[136..176]
  }

  lemma Rejoined(m: seq<Byte>)
    requires |m| == 176
    ensures SixParts(m) == m
  {
  }

  lemma Placed(a: Digest, b: Digest, c: Bytes32, d: Bytes32, e: Bytes32, f: SessionKey) returns (m: seq<Byte>)
    ensures m == a + b + c + d + e + f && |m| == 176
    ensures m[..20] == a && m[20..40] == b && m[40..72] == c && m[72..104] == d && m[104..136] == e && m[136..176] == f
  {
    m := a + b + c + d + e + f;
  }

  lemma EvidenceHashes(hash: Hash, identity: Digest, salt: Bytes32, publicA: Bytes32, publicB: Bytes32,
                       key: SessionKey) returns (m: seq<Byte>)
    ensures EvidenceMessage(hash, identity, salt, publicA, publicB, key, m)
    ensures Evidence(hash, identity, salt, publicA, publicB, key) == hash(m)
  {
    hide HashesDiffer, XorDigests, ModulusBytes;
    var z := XorDigests(hash(ModulusBytes()), hash([7]));
    m := Placed(z, identity, salt, publicA, publicB, key);
    HashesDifferExactly(z, hash(ModulusBytes()), hash([7]));
  }

  lemma EvidenceUnique(hash: Hash, identity: Digest, salt: Bytes32, publicA: Bytes32, publicB: Bytes32,
                       key: SessionKey, m: seq<Byte>)
    requires EvidenceMessage(hash, identity, salt, publicA, publicB, key, m)
    ensures Evidence(hash, identity, salt, publicA, publicB, key) == hash(m)
  {
    hide HashesDiffer, XorDigests, ModulusBytes;
    HashesDifferExactly(m[..20], hash(ModulusBytes()), hash([7]));
    Rejoined(m);
  }

  /** Whether clientM is the hash of such a message, of which there is one. */
  ghost predicate IsEvidence(hash: Hash, identity: Digest, salt: Bytes32, publicA: Bytes32, publicB: Bytes32,
                             key: SessionKey, clientM: Digest, accepted: bool)
  {
    && (exists m :: EvidenceMessage(hash, identity, salt, publicA, publicB, key, m))
    && forall m | EvidenceMessage(hash, identity, salt, publicA, publicB, key, m) :: accepted <==> clientM == hash(m)
  }

  lemma EvidenceDecides(hash: Hash, identity: Digest, salt: Bytes32, publicA: Bytes32, publicB: Bytes32,
                        key: SessionKey, clientM: Digest)
    ensures IsEvidence(hash, identity, salt, publicA, publicB, key, clientM,
                       clientM == Evidence(hash, identity, salt, publicA, publicB, key))
  {
    hide EvidenceMessage, Evidence;
    var m := EvidenceHashes(hash, identity, salt, publicA, publicB, key);
    forall other | EvidenceMessage(hash, identity, salt, publicA, publicB, key, other)
      ensures Evidence(hash, identity, salt, publicA, publicB, key) == hash(other)
    {
      EvidenceUnique(hash, identity, salt, publicA, publicB, key, other);
    }
  }

  lemma SecretMeans(a: nat, v: nat, u: nat, b: nat, n: nat)
    requires n > 0
    ensures ServerSecret(a, v, u, b, n) == Pow(a * Pow(v, u), b) % n
  {
    var w := Pow(v, u);
    ModMulLeft(w, a, n);
    assert (w % n) * a == a * (w % n) && w * a == a * w;
    hide Pow;
    PowCongruent(a * (w % n), a * w, b, n);
  }

  /** The key of a session in terms of the bytes that are hashed and the numbers that are raised. */
  lemma ServerKeyMeans(hash: Hash, b: nat, v: nat, publicA: Bytes32, publicB: Bytes32, both: seq<Byte>)
    requires |both| == 64 && both[..32] == publicA && both[32..] == publicB
    ensures var secret := Pow(Number(publicA) * Pow(v, Number(hash(both))), b) % N;
            ServerKey(hash, b, v, publicA, publicB) == InterleavedHash(hash, Residue(secret))
  {
    assert both == publicA + publicB;
    hide Pow, InterleavedHash, Residue, ServerSecret;
    SecretMeans(Number(publicA), v, Number(hash(both)), b, N);
  }

  class Server {
    const hash: Hash
    const identity: Digest
    const b: nat
    const v: nat
    const salt: Bytes32
    const publicB: Bytes32
    var used: bool

    constructor (hash: Hash, username: seq<Byte>, salt: Bytes32, verifier: Bytes32, random: Bytes32)
      ensures !used && this.hash == hash && identity == hash(username) && this.salt == salt
      ensures b == Number(random) && v == Number(verifier)
      ensures Number(publicB) == (Pow(7, b) + 3 * v) % N
    {
      this.hash, identity, this.salt, used := hash, hash(username), salt, false;
      b, v := Number(random), Number(verifier);
      PublishedValue(Number(random), Number(verifier));
      publicB := Residue(ModExp(G, Number(random), N) + Number(verifier) * 3);
    }

    /** One answer per server: the key when the client's evidence is the server's own, nothing otherwise. */
    method VerifyChallengeResponse(publicA: Bytes32, clientM: Digest) returns (r: Option<SessionKey>)
      requires !used
      modifies this`used
      ensures used
      ensures Number(publicA) % N == 0 ==> r == None
      ensures r.Some? ==> r.value == ServerKey(hash, b, v, publicA, publicB)
      ensures Number(publicA) % N != 0 ==>
                var key := ServerKey(hash, b, v, publicA, publicB);
                && (r.Some? <==> clientM == Evidence(hash, identity, salt, publicA, publicB, key))
                && IsEvidence(hash, identity, salt, publicA, publicB, key, clientM, r.Some?)
    {
      hide IsEvidence, InterleavedHash, XorDigests, ModulusBytes, ModExp, Residue, Number;
      used := true;
      var a := Number(publicA);
      if a % N == 0 {
        return None;
      }
      var u := Number(hash(publicA + publicB));
      var premaster := Residue(ModExp(a * ModExp(v, u, N), b, N));
      var key := SHA1Interleave(hash, premaster);
      assert key == ServerKey(hash, b, v, publicA, publicB);
      hide ServerKey;
      EvidenceDecides(hash, identity, salt, publicA, publicB, key, clientM);
      var ngHash := XorDigests(hash(ModulusBytes()), hash([G]));
      var ourM := hash(ngHash + identity + salt + publicA + publicB + key);
      assert ourM == Evidence(hash, identity, salt, publicA, publicB, key);
      hide Evidence;
      if ourM == clientM {
        return Some(key);
      }
      return None;
    }
  }

  // ---- The honest client ----

  function ClientPublic(a: nat): Bytes32 {
    Residue(ModExp(G, a, N))
  }

  function ClientKey(hash: Hash, x: nat, a: nat, publicB: Bytes32): SessionKey {
    var u := Scrambler(hash, ClientPublic(a), publicB);
    InterleavedHash(hash, Residue(ClientSecret(G, Number(publicB), x, a, u, N)))
  }

  /** Through the byte encodings the client and the server of a registered user have the same key. */
  lemma KeysAgree(hash: Hash, x: nat, a: nat, b: nat, verifier: Bytes32, publicB: Bytes32)
    requires Number(verifier) == ModExp(G, x, N)
    requires Number(publicB) == PublicValue(G, b, Number(verifier), N)
    ensures ServerKey(hash, b, Number(verifier), ClientPublic(a), publicB) == ClientKey(hash, x, a, publicB)
  {
    ModTwice(Pow(G, a), N);
    SecretsAgree(G, x, a, Scrambler(hash, ClientPublic(a), publicB), b, N);
  }

  const INVERSE_OF_G: nat := 0x621147B13DEA16F862E98A87F8BB5DF22A4A5A4164641EF8E806A6608BE393CC

  lemma ZeroFactor(k: nat, y: nat, n: nat)
    requires n > 0 && y % n == 0
    ensures k * y % n == 0
  {
    ModMulLeft(y, k, n);
    assert y * k == k * y && 0 * k == 0;
  }

  lemma UnitFactor(k: nat, x: nat, n: nat)
    requires n > 0 && k % n == 1
    ensures k * x % n == x % n
  {
    ModMulLeft(k, x, n);
  }

  /** Multiplying by a number with an inverse does not lead to zero. */
  lemma NoZeroProduct(g: nat, inverse: nat, unit: nat, x: nat, y: nat, n: nat)
    requires n > 0 && unit == inverse * g && y == g * x && unit % n == 1 && y % n == 0
    ensures x % n == 0
  {
    ZeroFactor(inverse, y, n);
    UnitFactor(unit, x, n);
    MulAssoc(inverse, g, x);
  }

  lemma {:induction false} PowerNotZero(g: nat, inverse: nat, e: nat, n: nat)
    requires n > 1 && inverse * g % n == 1
    ensures ModExp(g, e, n) != 0
  {
    if e > 0 {
      PowerNotZero(g, inverse, e - 1, n);
      if ModExp(g, e, n) == 0 {
        NoZeroProduct(g, inverse, inverse * g, Pow(g, e - 1), Pow(g, e), n);
      }
    }
  }

  /** The value an honest client sends is never one the server refuses. */
  lemma ClientPublicAccepted(a: nat)
    ensures Number(ClientPublic(a)) % N != 0
  {
    assert INVERSE_OF_G * G % N == 1;
    hide Pow;
    PowerNotZero(G, INVERSE_OF_G, a, N);
    ModTwice(Pow(G, a), N);
  }

  /** A registered user logging in with the right password is accepted and shares the server's key. */
  method Login(hash: Hash, username: seq<Byte>, password: seq<Byte>, salt: Bytes32, random: Bytes32, a: nat)
    returns (clientKey: SessionKey, serverKey: Option<SessionKey>)
    ensures serverKey == Some(clientKey)
  {
    hide CalculateVerifier, PasswordExponent, ClientPublic, ClientKey, ServerKey, Evidence, IsEvidence, ModExp, Pow;
    hide PublicValue;
    var verifier := CalculateVerifier(hash, username, password, salt);
    var server := new Server(hash, username, salt, verifier, random);
    var x := PasswordExponent(hash, username, password, salt);
    var publicA := ClientPublic(a);
    clientKey := ClientKey(hash, x, a, server.publicB);
    var m := Evidence(hash, hash(username), salt, publicA, server.publicB, clientKey);
    VerifierNumber(hash, username, password, salt);
    PublishedValue(server.b, server.v);
    KeysAgree(hash, x, a, server.b, verifier, server.publicB);
    ClientPublicAccepted(a);
    serverKey := server.VerifyChallengeResponse(publicA, m);
  }
}
