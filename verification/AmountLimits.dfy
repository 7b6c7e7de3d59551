/**
 Exactly which 64-bit amounts survive compression and decompression in blockchain/compress.go:
 those whose compressed value fits in 64 bits. When it does not, decompression may overflow as
 well, and the two overflows never cancel.
 */
module AmountLimits {
  import opened Common
  import opened Amounts

  /** A multiple of ten does not grow. */
  lemma TenDivides(a: nat)
    requires a % 10 == 0
    ensures Compress(a) <= a
  {
    if a > 0 {
      hide Strip, Pow10;
      StripMeans(a, 0);
      var (n, e) := Strip(a, 0);
      if e == 0 {
        PowZero();
        assert false;
      }
      AtLeastTenTimes(n, e);
      assert n % 10 <= n;
    }
  }

  /** Any other amount grows by a factor of almost nine. */
  lemma NotTen(a: nat)
    requires a % 10 != 0
    ensures Compress(a) == 9 * a + a % 10 - 9
  {
    assert Strip(a, 0) == (a, 0);
  }

  /** The difference between an amount and the digits that come back, when `k` times 2^64 has
      been lost, `e` is the exponent that comes back and `d` is the last digit. */
  function Difference(k: nat, e: nat, d: nat): nat
    requires d <= 9
  {
    (k * TWO_64 + 9 + e - d) / 9
  }

  lemma DigitsBack(a: nat, k: nat, e: nat)
    requires a % 10 != 0 && e < 9 && (k * TWO_64 + e) % 10 == 0 && k * TWO_64 <= 9 * a + a % 10 - 9
    ensures var c := 9 * a + a % 10 - 9 - k * TWO_64;
            && c > 0 && (c - 1) % 10 == e
            && var x := (c - 1) / 10; x / 9 * 10 + x % 9 + 1 == a - Difference(k, e, a % 10)
  {
    var n, d, lost := a / 10, a % 10, (k * TWO_64 + e) / 10;
    var c := 9 * a + d - 9 - k * TWO_64;
    assert a == 10 * n + d;
    assert c - 1 == 10 * (9 * n + d - 1 - lost) + e;
    var x := 9 * n + d - 1 - lost;
    assert x >= 0;
    assert (c - 1) % 10 == e && (c - 1) / 10 == x;
    var back := x / 9 * 10 + x % 9 + 1;
    assert 9 * (a - back) == k * TWO_64 + 1 + e + x % 9 - d;
  }

  /** Solving a linear congruence with the inverse of its coefficient. */
  lemma Residue(p: nat, i: nat, j: nat, a: nat, difference: nat, t: int)
    requires p > 0 && i * (p - 1) == 1 + j * TWO_64 && a < TWO_64
    requires (p - 1) * a == difference * p + t * TWO_64
    ensures a == i * difference * p % TWO_64
  {
    Associate(i, p - 1, a);
    Distribute(1, j, TWO_64, a);
    Spread(i, difference * p, t, TWO_64);
    Associate(i, difference, p);
    Gather(i * difference * p, a, j * a, i * t);
  }

  lemma Associate(x: int, y: int, z: int)
    ensures x * (y * z) == x * y * z
  {
  }

  lemma Distribute(x: int, y: int, m: int, a: int)
    ensures (x + y * m) * a == x * a + y * a * m
  {
  }

  lemma Spread(i: int, x: int, t: int, m: int)
    ensures i * (x + t * m) == i * x + i * t * m
  {
  }

  lemma Gather(x: int, a: nat, y: int, z: int)
    requires a + y * TWO_64 == x + z * TWO_64 && a < TWO_64
    ensures a == x % TWO_64
  {
    assert x == a + (y - z) * TWO_64;
    WrapAdd(a, y - z);
  }

  /** The inverse of 10^e - 1 modulo 2^64 for the exponents that can come back. */
  function Inverse(e: nat): nat
  {
    if e == 2 then 12670490878911611211
    else if e == 4 then 13458245626333751279
    else if e == 6 then 1672254362768354751
    else 300153063250403071
  }

  function Quotient(e: nat): nat {
    if e == 2 then 68 else if e == 4 then 7295 else if e == 6 then 90653 else 1627133
  }

  function Ten(e: nat): nat {
    if e == 2 then 100 else if e == 4 then 10000 else if e == 6 then 1000000 else 100000000
  }

  lemma IsInverse(e: nat)
    requires e in {2, 4, 6, 8}
    ensures Ten(e) == Pow10(e) && Inverse(e) * (Ten(e) - 1) == 1 + Quotient(e) * TWO_64
  {
    Powers();
    if e == 2 {
    } else if e == 4 {
    } else if e == 6 {
    } else {
    }
  }

  lemma Powers()
    ensures Pow10(0) == 1 && Pow10(2) == 100 && Pow10(4) == 10000 && Pow10(6) == 1000000 && Pow10(8) == 100000000
  {
    assert Pow10(1) == 10 && Pow10(3) == 1000 && Pow10(5) == 100000 && Pow10(7) == 10000000;
  }

  /** The exponent that comes back when `k` times 2^64 has been lost. */
  function Exponent(k: nat): nat {
    if k == 1 || k == 6 then 4 else if k == 2 || k == 7 then 8 else if k == 3 || k == 8 then 2 else if k == 4 then 6 else 0
  }

  /** The equation an amount satisfies when it comes back although `k` times 2^64 was lost. */
  ghost predicate Cancels(a: nat, k: nat, e: nat, t: int) {
    (Pow10(e) - 1) * a == Difference(k, e, a % 10) * Pow10(e) + t * TWO_64
  }

  /** The only solution of that equation with last digit `d`. */
  function Candidate(k: nat, e: nat, d: nat): nat
    requires d <= 9
  {
    Solution(k, e, d) % TWO_64
  }

  function Solution(k: nat, e: nat, d: nat): int
    requires d <= 9
  {
    Inverse(e) * Difference(k, e, d) * Ten(e)
  }

  lemma OneCandidate(a: nat, k: nat, e: nat, t: int)
    requires a < TWO_64 && e in {2, 4, 6, 8} && Cancels(a, k, e, t)
    ensures a == Candidate(k, e, a % 10)
  {
    hide Inverse, Quotient, Pow10, Difference, Ten;
    IsInverse(e);
    Residue(Pow10(e), Inverse(e), Quotient(e), a, Difference(k, e, a % 10), t);
  }

  /** A candidate has another last digit, or would lose another multiple of 2^64. */
  ghost predicate Excluded(k: nat, e: nat, d: nat)
    requires d <= 9
  {
    var a := Candidate(k, e, d);
    a % 10 != d || 9 * a + d - 9 < k * TWO_64 || 9 * a + d - 9 >= (k + 1) * TWO_64
  }

  lemma ByNumbers(k: nat, e: nat, d: nat, candidate: nat, z: nat)
    requires d <= 9 && candidate < TWO_64 && Solution(k, e, d) == candidate + z * TWO_64
    requires candidate % 10 != d || 9 * candidate + d - 9 < k * TWO_64 || 9 * candidate + d - 9 >= (k + 1) * TWO_64
    ensures Excluded(k, e, d)
  {
    hide Solution;
    WrapAdd(candidate, z);
  }

  lemma Excluded1()
    ensures Excluded(1, 4, 2) && Excluded(1, 4, 4) && Excluded(1, 4, 6) && Excluded(1, 4, 8)
  {
    hide Excluded;
    ByNumbers(1, 4, 2, 10300052185393623248, 14953606251481945874472);
    ByNumbers(1, 4, 4, 15288550632769423584, 14953606251481945867176);
    ByNumbers(1, 4, 6, 15288550632769423584, 14953606251481945867176);
    ByNumbers(1, 4, 8, 15288550632769423584, 14953606251481945867176);
  }

  lemma Excluded2()
    ensures Excluded(2, 8, 2) && Excluded(2, 8, 4) && Excluded(2, 8, 6) && Excluded(2, 8, 8)
  {
    hide Excluded;
    ByNumbers(2, 8, 2, 14781022037580233472, 6670068072231179357905858);
    ByNumbers(2, 8, 4, 14781022037580233472, 6670068072231179357905858);
    ByNumbers(2, 8, 6, 14480868974329830400, 6670068072231179356278725);
    ByNumbers(2, 8, 8, 14480868974329830400, 6670068072231179356278725);
  }

  lemma Excluded3()
    ensures Excluded(3, 2, 2) && Excluded(3, 2, 4) && Excluded(3, 2, 6) && Excluded(3, 2, 8)
  {
    hide Excluded;
    ByNumbers(3, 2, 2, 14595908610510924680, 422349695963720373745);
    ByNumbers(3, 2, 4, 14595908610510924680, 422349695963720373745);
    ByNumbers(3, 2, 6, 1925417731599313468, 422349695963720373677);
    ByNumbers(3, 2, 8, 1925417731599313468, 422349695963720373677);
  }

  lemma Excluded4()
    ensures Excluded(4, 6, 2) && Excluded(4, 6, 4) && Excluded(4, 6, 6) && Excluded(4, 6, 8)
  {
    hide Excluded;
    ByNumbers(4, 6, 2, 15833915935345966592, 743224161230379889413913);
    ByNumbers(4, 6, 4, 15833915935345966592, 743224161230379889413913);
    ByNumbers(4, 6, 6, 15833915935345966592, 743224161230379889413913);
    ByNumbers(4, 6, 8, 14161661572577611840, 743224161230379889323260);
  }

  lemma Excluded6()
    ensures Excluded(6, 4, 2) && Excluded(6, 4, 4) && Excluded(6, 4, 6) && Excluded(6, 4, 8)
  {
    hide Excluded;
    ByNumbers(6, 4, 2, 4486081875444583760, 89721637508891675195765);
    ByNumbers(6, 4, 4, 4486081875444583760, 89721637508891675195765);
    ByNumbers(6, 4, 6, 4486081875444583760, 89721637508891675195765);
    ByNumbers(6, 4, 8, 4486081875444583760, 89721637508891675195765);
  }

  lemma Excluded7()
    ensures Excluded(7, 8, 2) && Excluded(7, 8, 4) && Excluded(7, 8, 6) && Excluded(7, 8, 8)
  {
    hide Excluded;
    ByNumbers(7, 8, 2, 4566181225880527360, 23345238252809127746975540);
    ByNumbers(7, 8, 4, 4266028162630124288, 23345238252809127745348407);
    ByNumbers(7, 8, 6, 4266028162630124288, 23345238252809127745348407);
    ByNumbers(7, 8, 8, 4266028162630124288, 23345238252809127745348407);
  }

  lemma Excluded8()
    ensures Excluded(8, 2, 2) && Excluded(8, 2, 4) && Excluded(8, 2, 6) && Excluded(8, 2, 8)
  {
    hide Excluded;
    ByNumbers(8, 2, 2, 1656273317504785780, 1126265855903254329920);
    ByNumbers(8, 2, 4, 1656273317504785780, 1126265855903254329920);
    ByNumbers(8, 2, 6, 7432526512302726184, 1126265855903254329851);
    ByNumbers(8, 2, 8, 7432526512302726184, 1126265855903254329851);
  }

  lemma ExponentBack(k: nat)
    requires 1 <= k <= 8
    ensures var e := Exponent(k); (k * TWO_64 + e) % 10 == 0 && if k == 5 then e == 0 else e in {2, 4, 6, 8}
  {
    if k == 1 { } else if k == 2 { } else if k == 3 { } else if k == 4 { } else if k == 5 { } else if k == 6 { } else if k == 7 { } else { }
  }

  lemma AllExcluded(k: nat, d: nat)
    requires 1 <= k <= 8 && k != 5 && d in {2, 4, 6, 8}
    ensures Excluded(k, Exponent(k), d)
  {
    hide Excluded;
    if k == 1 { Excluded1(); } else if k == 2 { Excluded2(); } else if k == 3 { Excluded3(); }
    else if k == 4 { Excluded4(); } else if k == 6 { Excluded6(); } else if k == 7 { Excluded7(); } else { Excluded8(); }
  }

  /** What comes back is even, so an odd amount does not. */
  lemma OddDoesNotCancel(a: nat, k: nat, e: nat, t: int)
    requires e in {2, 4, 6, 8} && Cancels(a, k, e, t)
    ensures a % 10 in {0, 2, 4, 6, 8}
  {
    hide Difference;
    Powers();
    var d := Difference(k, e, a % 10);
    if e == 2 {
      EvenAmount(a, 50 * a - 50 * d - t * TWO_63);
    } else if e == 4 {
      EvenAmount(a, 5000 * a - 5000 * d - t * TWO_63);
    } else if e == 6 {
      EvenAmount(a, 500000 * a - 500000 * d - t * TWO_63);
    } else {
      EvenAmount(a, 50000000 * a - 50000000 * d - t * TWO_63);
    }
  }

  lemma EvenAmount(a: nat, x: int)
    requires a == 2 * x
    ensures a % 10 in {0, 2, 4, 6, 8}
  {
  }

  /** The overflows do not cancel. */
  lemma NeverCancels(a: nat, k: nat, t: int)
    requires a < TWO_64 && a % 10 != 0 && 1 <= k <= 8 && k != 5
    requires k * TWO_64 <= 9 * a + a % 10 - 9 < (k + 1) * TWO_64
    ensures !Cancels(a, k, Exponent(k), t)
  {
    hide Cancels, Candidate, Exponent;
    ExponentBack(k);
    if Cancels(a, k, Exponent(k), t) {
      OddDoesNotCancel(a, k, Exponent(k), t);
      OneCandidate(a, k, Exponent(k), t);
      AllExcluded(k, a % 10);
      assert false;
    }
  }

  lemma Lost(a: nat)
    requires a < TWO_64 && Compress(a) >= TWO_64
    ensures Back(a) != a
  {
    hide Compress, Difference, Exponent, Cancels;
    if a % 10 == 0 {
      TenDivides(a);
    }
    NotTen(a);
    var k, c := Compress(a) / TWO_64, Compress(a) % TWO_64;
    ExponentBack(k);
    var e := Exponent(k);
    DigitsBack(a, k, e);
    LostDigits(a, k, a - Difference(k, e, a % 10));
  }

  lemma LostDigits(a: nat, k: nat, back: nat)
    requires a < TWO_64 && a % 10 != 0 && 1 <= k <= 8 && back == a - Difference(k, Exponent(k), a % 10)
    requires k * TWO_64 <= 9 * a + a % 10 - 9 < (k + 1) * TWO_64
    ensures back * Pow10(Exponent(k)) % TWO_64 != a
  {
    hide Exponent;
    ExponentBack(k);
    var e := Exponent(k);
    Powers();
    if k != 5 && back * Pow10(e) % TWO_64 == a {
      var t := back * Pow10(e) / TWO_64;
      assert back * Pow10(e) == a + t * TWO_64;
      CancelsMeans(a, k, e, t, back);
      NeverCancels(a, k, t);
    }
  }

  lemma CancelsMeans(a: nat, k: nat, e: nat, t: int, back: nat)
    requires back == a - Difference(k, e, a % 10) && back * Pow10(e) == a + t * TWO_64
    ensures Cancels(a, k, e, t)
  {
    hide Difference, Pow10;
    LessOne(a, Difference(k, e, a % 10), Pow10(e));
  }

  lemma LessOne(a: int, d: int, p: int)
    ensures (p - 1) * a == (a - d) * p + d * p - a
  {
  }

  /** An amount comes back from compression and decompression in 64-bit arithmetic if and only
      if its compressed value fits in 64 bits, which can be told from the amount. */
  lemma SurvivesExactly(a: nat)
    requires a < TWO_64
    ensures Back(a) == a <==> Compress(a) < TWO_64
    ensures Compress(a) < TWO_64 <==> a % 10 == 0 || 9 * a + a % 10 - 9 < TWO_64
  {
    hide Compress, Decompress;
    if a % 10 == 0 {
      TenDivides(a);
    } else {
      NotTen(a);
    }
    if Compress(a) < TWO_64 {
      RoundTrip64(a);
    } else {
      Lost(a);
    }
  }
}
