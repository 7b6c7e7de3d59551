/** Compression of transaction output amounts, blockchain/compress.go. */
module Amounts {
  import opened Common

  function Pow10(e: nat): (p: nat)
    ensures p >= 1
  {
    if e == 0 then 1 else 10 * Pow10(e - 1)
  }

  /** Takes factors of ten out of a number, counting up to nine in all. */
  function Strip(a: nat, e: nat): (r: (nat, nat))
    requires a > 0
    ensures r.0 > 0 && r.0 <= a
    decreases a
  {
    if a % 10 == 0 && e < 9 then Strip(a / 10, e + 1) else (a, e)
  }

  /** Exponent, last digit and the remaining digits in mixed radix. */
  function Pack(n: nat, e: nat): (c: nat)
    requires n > 0
    ensures c > 0
  {
    if e < 9 then 1 + 10 * (9 * (n / 10) + n % 10 - 1) + e else 10 + 10 * (n - 1)
  }

  function Unpack(c: nat): (nat, nat)
    requires c > 0
  {
    var e, x := (c - 1) % 10, (c - 1) / 10;
    (if e < 9 then x / 9 * 10 + x % 9 + 1 else x + 1, e)
  }

  function Compress(a: nat): nat {
    if a == 0 then 0 else Pack(Strip(a, 0).0, Strip(a, 0).1)
  }

  function Decompress(c: nat): nat {
    if c == 0 then 0 else Unpack(c).0 * Pow10(Unpack(c).1)
  }

  /** What compressing and decompressing in 64-bit arithmetic brings back. */
  function Back(a: nat): (b: nat)
    ensures b < TWO_64
  {
    Decompress(Compress(a) % TWO_64) % TWO_64
  }

  lemma Scale(n: nat, k: nat)
    requires k > 0
    ensures n * Pow10(k) == 10 * (n * Pow10(k - 1)) == (n * 10) * Pow10(k - 1)
  {
    var p := Pow10(k - 1);
    assert Pow10(k) == 10 * p;
    assert n * (10 * p) == 10 * (n * p) == (n * 10) * p;
  }

  lemma PowZero()
    ensures Pow10(0) == 1
  {
  }

  lemma TenTimes(m: nat)
    ensures (10 * m) % 10 == 0 && (10 * m) / 10 == m
  {
  }

  lemma {:induction false} StripMeans(a: nat, e: nat)
    requires a > 0 && e <= 9
    ensures
      var (n, f) := Strip(a, e);
      e <= f <= 9 && a == n * Pow10(f - e) && (f < 9 ==> n % 10 != 0)
    decreases a
  {
    if a % 10 == 0 && e < 9 {
      StripMeans(a / 10, e + 1);
      var (n, f) := Strip(a / 10, e + 1);
      Scale(n, f - e);
    }
  }

  lemma {:induction false} StripOf(n: nat, e: nat, k: nat)
    requires n > 0 && e + k <= 9 && (n % 10 != 0 || e + k == 9)
    ensures n * Pow10(k) > 0 && Strip(n * Pow10(k), e) == (n, e + k)
    decreases k
  {
    hide Pow10;
    assert k == 0 ==> Pow10(k) == 1 by { PowZero(); }
    if k > 0 {
      StripOf(n, e + 1, k - 1);
      Scale(n, k);
      TenTimes(n * Pow10(k - 1));
    }
  }

  lemma LastDigit(y: nat, e: nat)
    requires e < 10
    ensures (10 * y + e) % 10 == e && (10 * y + e) / 10 == y
  {
  }

  lemma Regroup(q: nat, d: nat)
    requires 1 <= d <= 9
    ensures (9 * q + d - 1) / 9 == q && (9 * q + d - 1) % 9 == d - 1
  {
  }

  /** What has been packed can be taken apart again. */
  lemma UnpackPack(n: nat, e: nat)
    requires n > 0 && e <= 9 && (e < 9 ==> n % 10 != 0)
    ensures Unpack(Pack(n, e)) == (n, e)
  {
    if e < 9 {
      var y := 9 * (n / 10) + n % 10 - 1;
      LastDigit(y, e);
      Regroup(n / 10, n % 10);
      assert Pack(n, e) - 1 == 10 * y + e;
    } else {
      LastDigit(n - 1, 9);
    }
  }

  lemma PackUnpack(c: nat)
    requires c > 0
    ensures var (n, e) := Unpack(c); n > 0 && e <= 9 && (e < 9 ==> n % 10 != 0) && Pack(n, e) == c
  {
    var e, x := (c - 1) % 10, (c - 1) / 10;
    assert c == 10 * x + e + 1;
    if e < 9 {
      LastDigit(x / 9, x % 9 + 1);
      assert x == 9 * (x / 9) + x % 9;
    }
  }

  /** The documented formula: an amount is `n` times a power of ten, the largest up to the ninth. */
  lemma CompressFormula(n: nat, e: nat)
    requires n > 0 && e <= 9 && (e < 9 ==> n % 10 != 0)
    ensures Compress(n * Pow10(e)) == if e < 9 then 1 + 10 * (9 * (n / 10) + n % 10 - 1) + e else 10 + 10 * (n - 1)
  {
    hide Strip, Pow10;
    StripOf(n, 0, e);
  }

  /** Decompression inverts compression on every amount. */
  lemma CompressInverts(a: nat)
    ensures Decompress(Compress(a)) == a
  {
    hide Strip, Pow10, Pack, Unpack;
    if a > 0 {
      StripMeans(a, 0);
      UnpackPack(Strip(a, 0).0, Strip(a, 0).1);
    }
  }

  /** Compression inverts decompression on every number: no code is wasted. */
  lemma DecompressInverts(c: nat)
    ensures Compress(Decompress(c)) == c
  {
    hide Strip, Pow10, Pack, Unpack;
    if c > 0 {
      PackUnpack(c);
      StripOf(Unpack(c).0, 0, Unpack(c).1);
    }
  }

  /** A compressed amount is at most nine times the amount. */
  lemma AtMostNineTimes(a: nat)
    ensures Compress(a) <= 9 * a
  {
    hide Strip, Pow10;
    if a > 0 {
      StripMeans(a, 0);
      var (n, e) := Strip(a, 0);
      if e == 0 {
        PowZero();
      } else {
        AtLeastTenTimes(n, e);
      }
    }
  }

  lemma AtLeastTenTimes(n: nat, e: nat)
    requires e > 0
    ensures n * Pow10(e) >= 10 * n
  {
    hide Pow10;
    Scale(n, e);
    MulAtLeast(n, Pow10(e - 1));
  }

  lemma MulAtLeast(n: nat, p: nat)
    requires p >= 1
    ensures n * p >= n
  {
  }

  /** The compression loop, in 64-bit arithmetic. */
  method CompressAmount(amount: nat) returns (c: nat)
    requires amount < TWO_64
    ensures c == Compress(amount) % TWO_64
  {
    if amount == 0 {
      return 0;
    }
    var n: nat, exponent: nat := amount, 0;
    while n % 10 == 0 && exponent < 9
      invariant n > 0 && exponent <= 9 && Strip(n, exponent) == Strip(amount, 0)
      decreases n
    {
      n := n / 10;
      exponent := exponent + 1;
    }
    if exponent < 9 {
      var lastDigit := n % 10;
      n := n / 10;
      return (1 + 10 * (9 * n + lastDigit - 1) + exponent) % TWO_64;
    }
    return (10 + 10 * (n - 1)) % TWO_64;
  }

  lemma WrapMultiply(n: nat)
    ensures n % TWO_64 * 10 % TWO_64 == n * 10 % TWO_64
  {
    var q, r := n / TWO_64, n % TWO_64;
    assert n == r + q * TWO_64;
    assert n * 10 == r * 10 + (q * 10) * TWO_64;
    WrapAdd(r * 10, q * 10);
  }

  /** The decompression loop, in 64-bit arithmetic. */
  method DecompressAmount(c: nat) returns (amount: nat)
    requires c < TWO_64
    ensures amount == Decompress(c) % TWO_64
  {
    if c == 0 {
      return 0;
    }
    var x := c - 1;
    var exponent := x % 10;
    x := x / 10;
    var n: nat;
    if exponent < 9 {
      var lastDigit := x % 9 + 1;
      x := x / 9;
      n := x * 10 + lastDigit;
    } else {
      n := x + 1;
    }
    amount := ApplyExponent(n, exponent);
  }

  /** Multiplies by ten repeatedly, in 64-bit arithmetic. */
  method ApplyExponent(start: nat, exponent: nat) returns (n: nat)
    requires start < TWO_64
    ensures n == start * Pow10(exponent) % TWO_64
  {
    hide Pow10;
    PowZero();
    n := start;
    var e := exponent;
    ghost var exact := start;
    while e > 0
      invariant e >= 0 && n == exact % TWO_64 && exact * Pow10(e) == start * Pow10(exponent)
    {
      WrapMultiply(exact);
      Scale(exact, e);
      exact := exact * 10;
      n := n * 10 % TWO_64;
      e := e - 1;
    }
  }

  /** The 64-bit code gives back every amount whose compressed form fits 64 bits, in
      particular every amount with nine times its value below 2^64. */
  lemma RoundTrip64(a: nat)
    requires a < TWO_64 && Compress(a) < TWO_64
    ensures Back(a) == a
  {
    hide Compress, Decompress;
    CompressInverts(a);
  }

  lemma NineTimesFits(a: nat)
    requires 9 * a < TWO_64
    ensures Compress(a) < TWO_64 && Back(a) == a
  {
    hide Compress, Decompress;
    AtMostNineTimes(a);
    RoundTrip64(a);
  }

  /** The largest 64-bit amount does not survive. */
  lemma LargestAmountLost()
    ensures Back(TWO_64 - 1) != TWO_64 - 1
  {
    var a := TWO_64 - 1;
    assert Strip(a, 0) == (a, 0);
    var c := Compress(a) % TWO_64;
    assert Compress(a) == 9 * a - 4;
    assert c == TWO_64 - 13;
    var x := (c - 1) / 10;
    assert (c - 1) % 10 == 2;
    assert Pow10(2) == 100;
    assert Decompress(c) == (x / 9 * 10 + x % 9 + 1) * 100;
  }
}
