/**
 Variable length quantities, blockchain/compress.go: base-128 digits, most significant
 first, the high bit set on all but the last byte, and one subtracted at every shift so
 that no number has two encodings.
 */
module Vlq {
  import opened Common

  /** The bytes of `n` when more bytes follow. */
  function Leading(n: nat): (s: seq<byte>)
    ensures |s| >= 1
  {
    if n <= 127 then [n + 128] else Leading(n / 128 - 1) + [n % 128 + 128]
  }

  function Encode(n: nat): (s: seq<byte>)
    ensures |s| >= 1
  {
    if n <= 127 then [n] else Leading(n / 128 - 1) + [n % 128]
  }

  /** Reading on with `acc` accumulated so far, up to the first byte without the high bit. */
  function ReadFrom(acc: nat, s: seq<byte>): nat
    decreases |s|
  {
    if s == [] then acc
    else
      var n := acc * 128 + s[0] % 128;
      if s[0] < 128 then n else ReadFrom(n + 1, s[1..])
  }

  function Value(s: seq<byte>): nat { ReadFrom(0, s) }

  /** How many bytes are read. */
  function Size(s: seq<byte>): (k: nat)
    ensures k <= |s|
  {
    if s == [] then 0 else if s[0] < 128 then 1 else 1 + Size(s[1..])
  }

  predicate AllLeading(s: seq<byte>) {
    forall i :: 0 <= i < |s| ==> s[i] >= 128
  }

  /** A complete encoding: the high bit on every byte but the last. */
  predicate Terminated(s: seq<byte>) {
    s != [] && s[|s| - 1] < 128 && AllLeading(s[..|s| - 1])
  }

  lemma {:induction false} LeadingAllLeading(n: nat)
    ensures AllLeading(Leading(n)) && |Leading(n)| == |Encode(n)|
  {
    if n > 127 {
      LeadingAllLeading(n / 128 - 1);
    }
  }

  lemma EncodeTerminated(n: nat)
    ensures Terminated(Encode(n))
  {
    if n > 127 {
      LeadingAllLeading(n / 128 - 1);
      assert Encode(n)[..|Encode(n)| - 1] == Leading(n / 128 - 1);
    }
  }

  lemma LeadingStep(n: nat)
    ensures n <= 127 ==> Leading(n) == [n + 128] && Encode(n) == [n]
    ensures n > 127 ==> Leading(n) == Leading(n / 128 - 1) + [n % 128 + 128]
    ensures n > 127 ==> Encode(n) == Leading(n / 128 - 1) + [n % 128]
  {
  }

  /** Reading one byte that is followed by more. */
  lemma ReadByte(acc: nat, b: byte, rest: seq<byte>)
    requires b >= 128
    ensures ReadFrom(acc, [b] + rest) == ReadFrom(acc * 128 + (b - 128) + 1, rest)
    ensures Size([b] + rest) == 1 + Size(rest)
  {
    assert ([b] + rest)[1..] == rest && b % 128 == b - 128;
  }

  lemma {:induction false} ReadLeading(n: nat, rest: seq<byte>)
    ensures ReadFrom(0, Leading(n) + rest) == ReadFrom(n + 1, rest)
    ensures Size(Leading(n) + rest) == |Leading(n)| + Size(rest)
  {
    hide Leading, ReadFrom;
    LeadingStep(n);
    if n > 127 {
      var m, b := n / 128 - 1, n % 128 + 128;
      assert Leading(n) + rest == Leading(m) + ([b] + rest);
      ReadLeading(m, [b] + rest);
      ReadByte(m + 1, b, rest);
    } else {
      ReadByte(0, n + 128, rest);
    }
  }

  /** Reading gives back the encoded number and stops after its last byte, whatever follows. */
  lemma RoundTrip(n: nat, rest: seq<byte>)
    ensures Value(Encode(n) + rest) == n
    ensures Size(Encode(n) + rest) == |Encode(n)|
  {
    if n > 127 {
      var m, b := n / 128 - 1, n % 128;
      assert Encode(n) + rest == Leading(m) + ([b] + rest);
      ReadLeading(m, [b] + rest);
    }
  }

  lemma {:induction false} ReadAllLeading(s: seq<byte>) returns (n: nat)
    requires s != [] && AllLeading(s)
    ensures Leading(n) == s
  {
    var k := |s| - 1;
    if k == 0 {
      n := s[0] - 128;
    } else {
      var m := ReadAllLeading(s[..k]);
      n := (m + 1) * 128 + (s[k] - 128);
      assert n / 128 - 1 == m && n % 128 == s[k] - 128;
      assert s == s[..k] + [s[k]];
    }
  }

  /** Every complete byte string is the encoding of the number it is read as. */
  lemma Onto(s: seq<byte>)
    requires Terminated(s)
    ensures Encode(Value(s)) == s
  {
    var k := |s| - 1;
    if k > 0 {
      var m := ReadAllLeading(s[..k]);
      var n := (m + 1) * 128 + s[k];
      assert n / 128 - 1 == m && n % 128 == s[k];
      assert Encode(n) == s[..k] + [s[k]] == s;
      RoundTrip(n, []);
      assert s + [] == s;
    }
  }

  /** A byte string is an encoding if and only if all of its bytes but the last have the high bit
      set, and then it is that of the value it is read as: numbers and such strings correspond
      one to one. */
  lemma Bijection(n: nat, s: seq<byte>)
    ensures s == Encode(n) <==> Terminated(s) && Value(s) == n
  {
    EncodeTerminated(n);
    RoundTrip(n, []);
    assert Encode(n) + [] == Encode(n);
    if Terminated(s) {
      Onto(s);
    }
  }

  /** No encoding is the beginning of another one. */
  lemma PrefixFree(a: nat, b: nat)
    requires |Encode(a)| <= |Encode(b)| && Encode(b)[..|Encode(a)|] == Encode(a)
    ensures a == b
  {
    RoundTrip(a, Encode(b)[|Encode(a)|..]);
    assert Encode(a) + Encode(b)[|Encode(a)|..] == Encode(b);
    RoundTrip(b, []);
    assert Encode(b) + [] == Encode(b);
  }

  /** The size loop counts the bytes of the encoding. */
  method SerializeSize(n: nat) returns (size: nat)
    ensures size == |Encode(n)|
  {
    size := 1;
    var m := n;
    while m > 0x7f
      invariant size + |Encode(m)| == |Encode(n)| + 1
    {
      LeadingAllLeading(m / 128 - 1);
      m := m / 128 - 1;
      size := size + 1;
    }
  }

  function Reversed(s: seq<byte>): (r: seq<byte>)
    ensures |r| == |s|
  {
    if s == [] then [] else Reversed(s[1..]) + [s[0]]
  }

  lemma {:induction false} ReversedAppend(s: seq<byte>, b: byte)
    ensures Reversed(s + [b]) == [b] + Reversed(s)
  {
    if s == [] {
      assert ([] + [b])[1..] == [];
    } else {
      assert (s + [b])[1..] == s[1..] + [b];
      ReversedAppend(s[1..], b);
    }
  }

  lemma {:induction false} ReversedAt(s: seq<byte>, k: nat)
    requires k < |s|
    ensures Reversed(s)[k] == s[|s| - 1 - k]
  {
    if k < |s| - 1 {
      ReversedAt(s[1..], k);
    }
  }

  /** Everything outside `lo .. hi-1` is as it was. */
  twostate predicate OnlyWithin(target: array<byte>, lo: nat, hi: nat)
    reads target
  {
    forall k :: 0 <= k < target.Length && !(lo <= k < hi) ==> target[k] == old(target[k])
  }

  /** Reverses part of a buffer in place. */
  method ReverseRange(target: array<byte>, lo: nat, hi: nat)
    requires lo <= hi <= target.Length
    modifies target
    ensures target[lo..hi] == Reversed(old(target[lo..hi]))
    ensures OnlyWithin(target, lo, hi)
  {
    hide Reversed;
    ghost var was := target[..];
    var i, j: int := lo, hi - 1;
    while i < j
      invariant lo <= i && j < hi && i + j == lo + hi - 1 && i <= j + 1
      invariant forall k :: 0 <= k < target.Length && !(lo <= k < i || j < k < hi) ==> target[k] == was[k]
      invariant forall k :: lo <= k < i || j < k < hi ==> target[k] == was[lo + hi - 1 - k]
    {
      target[i], target[j] := target[j], target[i];
      i, j := i + 1, j - 1;
    }
    ghost var r, s := target[lo..hi], was[lo..hi];
    forall k | 0 <= k < |s| ensures r[k] == s[|s| - 1 - k] {
      assert r[k] == target[lo + k] && s[|s| - 1 - k] == was[hi - 1 - k];
    }
    IsReversed(r, s);
  }

  lemma IsReversed(r: seq<byte>, s: seq<byte>)
    requires |r| == |s| && forall k :: 0 <= k < |s| ==> r[k] == s[|s| - 1 - k]
    ensures r == Reversed(s)
  {
    forall k | 0 <= k < |s| ensures r[k] == Reversed(s)[k] {
      ReversedAt(s, k);
    }
  }

  /** Writes the encoding at `start`: digits least significant first, then a reversal in place. */
  method Put(target: array<byte>, start: nat, n: nat) returns (size: nat)
    requires n < TWO_64 && start + |Encode(n)| <= target.Length
    modifies target
    ensures size == |Encode(n)| && target[start..start + size] == Encode(n)
    ensures OnlyWithin(target, start, start + size)
  {
    size := PutDigits(target, start, n);
    ReverseRange(target, start, start + size);
  }

  /** What is still to be written when `done`, least significant digit first, has been. */
  predicate DigitsDone(n: nat, m: nat, done: seq<byte>) {
    if done == [] then m == n else Encode(n) == Leading(m) + Reversed(done)
  }

  lemma LastDigit(n: nat, m: nat, done: seq<byte>, b: byte)
    requires m <= 127 && DigitsDone(n, m, done) && b == m + if done == [] then 0 else 128
    ensures Reversed(done + [b]) == Encode(n) && |done| < |Encode(n)|
  {
    hide Leading, Encode, Reversed;
    LeadingStep(m);
    ReversedAppend(done, b);
    assert done == [] ==> [b] + Reversed(done) == [b];
  }

  lemma OtherDigit(n: nat, m: nat, done: seq<byte>, b: byte)
    requires m > 127 && DigitsDone(n, m, done) && b == m % 128 + if done == [] then 0 else 128
    ensures DigitsDone(n, m / 128 - 1, done + [b]) && |done| + 1 < |Encode(n)|
  {
    hide Leading, Encode, Reversed;
    LeadingStep(m);
    ReversedAppend(done, b);
    var l := Leading(m / 128 - 1);
    if done == [] {
      assert [b] + Reversed(done) == [b];
    } else {
      assert l + [b] + Reversed(done) == l + ([b] + Reversed(done));
    }
    assert Encode(n) == l + Reversed(done + [b]);
    assert |Reversed(done + [b])| == |done| + 1 && |l| >= 1;
  }

  /** The first loop: the digits in reverse order. */
  method PutDigits(target: array<byte>, start: nat, n: nat) returns (size: nat)
    requires n < TWO_64 && start + |Encode(n)| <= target.Length
    modifies target
    ensures size == |Encode(n)| && Reversed(target[start..start + size]) == Encode(n)
    ensures OnlyWithin(target, start, start + size)
  {
    hide Encode, Leading, Reversed;
    var offset: nat, m: nat := 0, n;
    while true
      invariant m < TWO_64 && offset < |Encode(n)|
      invariant DigitsDone(n, m, target[start..start + offset])
      invariant OnlyWithin(target, start, start + offset)
      decreases m
    {
      var b: byte := m % 128 + if offset == 0 then 0 else 128;
      ghost var done := target[start..start + offset];
      target[start + offset] := b;
      offset := offset + 1;
      assert target[start..start + offset] == done + [b];
      if m <= 0x7f {
        LastDigit(n, m, done, b);
        return offset;
      }
      OtherDigit(n, m, done, b);
      m := m / 128 - 1;
    }
  }

  /** Accumulating modulo 2^64 gives the value modulo 2^64. */
  lemma {:induction false} ReadModulo(acc: nat, k: nat, s: seq<byte>) returns (q: nat)
    ensures ReadFrom(acc + k * TWO_64, s) == ReadFrom(acc, s) + q * TWO_64
    decreases |s|
  {
    if s == [] {
      q := k;
    } else {
      var n := acc * 128 + s[0] % 128;
      assert (acc + k * TWO_64) * 128 + s[0] % 128 == n + (k * 128) * TWO_64;
      if s[0] < 128 {
        q := k * 128;
      } else {
        q := ReadModulo(n + 1, k * 128, s[1..]);
      }
    }
  }

  /** A shift by seven bits that drops what does not fit in 64 bits. */
  lemma ShiftWraps(acc: nat) returns (q: nat)
    ensures acc * 128 == acc * 128 % TWO_64 + q * TWO_64
    ensures acc * 128 % TWO_64 <= TWO_64 - 128
  {
    var r := acc % 0x200_0000_0000_0000;
    q := acc / 0x200_0000_0000_0000;
    assert acc * 128 == q * TWO_64 + r * 128;
    assert (r * 128) % TWO_64 == r * 128;
    WrapAdd(r * 128, q);
  }

  /** One round of the reading loop, in 64-bit arithmetic. */
  lemma ReadWrapped(acc: nat, s: seq<byte>)
    requires s != []
    ensures
      var n := acc * 128 % TWO_64 + s[0] % 128;
      && n < TWO_64
      && ReadFrom(acc, s) % TWO_64 == (if s[0] < 128 then n else ReadFrom((n + 1) % TWO_64, s[1..])) % TWO_64
  {
    var k := ShiftWraps(acc);
    var n := acc * 128 % TWO_64 + s[0] % 128;
    if s[0] < 128 {
      assert ReadFrom(acc, s) == n + k * TWO_64;
      WrapAdd(n, k);
    } else {
      ReadOn(acc, s, n, k);
    }
  }

  lemma ReadOn(acc: nat, s: seq<byte>, n: nat, k: nat)
    requires s != [] && s[0] >= 128 && acc * 128 + s[0] % 128 == n + k * TWO_64 && n < TWO_64
    ensures ReadFrom(acc, s) % TWO_64 == ReadFrom((n + 1) % TWO_64, s[1..]) % TWO_64
  {
    var l := if n + 1 == TWO_64 then 1 else 0;
    var m := n + 1 - l * TWO_64;
    assert (n + 1) % TWO_64 == m;
    assert ReadFrom(acc, s) == ReadFrom(m + (k + l) * TWO_64, s[1..]);
    var q := ReadModulo(m, k + l, s[1..]);
    WrapAdd(ReadFrom(m, s[1..]), q);
  }

  /** Reads a number, modulo 2^64, and says how many bytes it took. */
  method Deserialize(serialized: seq<byte>) returns (n: nat, size: nat)
    ensures n == Value(serialized) % TWO_64 && size == Size(serialized)
  {
    hide ReadFrom;
    n, size := 0, 0;
    assert serialized[0..] == serialized;
    while size < |serialized|
      invariant 0 <= size <= |serialized| && n < TWO_64
      invariant ReadFrom(n, serialized[size..]) % TWO_64 == Value(serialized) % TWO_64
      invariant size + Size(serialized[size..]) == Size(serialized)
    {
      var val := serialized[size];
      ReadWrapped(n, serialized[size..]);
      assert serialized[size..][1..] == serialized[size + 1..];
      size := size + 1;
      n := n * 128 % TWO_64 + val % 128;
      if val < 0x80 {
        return;
      }
      n := (n + 1) % TWO_64;
    }
    ReadNothing(n, serialized[size..]);
  }

  lemma ReadNothing(n: nat, s: seq<byte>)
    requires s == []
    ensures ReadFrom(n, s) == n
  {
  }

  /** For numbers below 2^64 the 64-bit reader inverts the encoding. */
  lemma RoundTrip64(n: nat, rest: seq<byte>)
    requires n < TWO_64
    ensures Value(Encode(n) + rest) % TWO_64 == n
  {
    RoundTrip(n, rest);
  }

  function Pow128(k: nat): (p: nat)
    ensures p >= 1
  {
    if k == 0 then 1 else 128 * Pow128(k - 1)
  }

  lemma {:induction false} LengthBound(n: nat, k: nat)
    requires n < 128 * Pow128(k)
    ensures |Encode(n)| <= k + 1
  {
    hide Encode, Leading;
    LeadingStep(n);
    if n > 127 {
      LengthBound(n / 128 - 1, k - 1);
      LeadingAllLeading(n / 128 - 1);
    }
  }

  /** Numbers below 2^32 take at most five bytes, and numbers below 2^64 at most ten. */
  lemma MaxBytes(n: nat)
    requires n < TWO_64
    ensures |Encode(n)| <= 10 && (n < 0x1_0000_0000 ==> |Encode(n)| <= 5)
  {
    assert Pow128(3) == 2097152 && Pow128(6) == 128 * (128 * (128 * Pow128(3)));
    assert Pow128(9) == 128 * (128 * (128 * Pow128(6)));
    LengthBound(n, 9);
    if n < 0x1_0000_0000 {
      assert Pow128(4) == 128 * Pow128(3);
      LengthBound(n, 4);
    }
  }
}
