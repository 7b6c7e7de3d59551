/**
 Compression of public key scripts, blockchain/compress.go.

 Public keys are abstract: a curve says which serialized keys parse and what the
 uncompressed form of a parsed key is.
 */
module Scripts {
  import opened Common
  import Vlq

  const OP_DATA_20: byte := 0x14
  const OP_DATA_33: byte := 0x21
  const OP_DATA_65: byte := 0x41
  const OP_DUP: byte := 0x76
  const OP_EQUAL: byte := 0x87
  const OP_EQUALVERIFY: byte := 0x88
  const OP_HASH160: byte := 0xa9
  const OP_CHECKSIG: byte := 0xac

  const NUM_SPECIAL_SCRIPTS := 6

  /** `parses(k)`: `k` is a valid serialized public key; `full(k)`: its uncompressed form. */
  datatype Curve = Curve(parses: seq<byte> -> bool, full: seq<byte> -> seq<byte>)

  /** Point compression inverts, as in sections 2.3.3 and 2.3.4 of SEC 1: a valid uncompressed
      key is recovered from its x-coordinate and the parity of its y-coordinate. */
  ghost predicate Sec1(curve: Curve) {
    forall k: seq<byte> :: |k| == 65 && k[0] == 4 && curve.parses(k) ==>
      var c := [2 + k[64] % 2] + k[1..33];
      curve.parses(c) && curve.full(c) == k
  }

  predicate IsPubKeyHash(s: seq<byte>) {
    |s| == 25 && s[0] == OP_DUP && s[1] == OP_HASH160 && s[2] == OP_DATA_20 &&
    s[23] == OP_EQUALVERIFY && s[24] == OP_CHECKSIG
  }

  predicate IsScriptHash(s: seq<byte>) {
    |s| == 23 && s[0] == OP_HASH160 && s[1] == OP_DATA_20 && s[22] == OP_EQUAL
  }

  predicate IsCompressedKey(curve: Curve, s: seq<byte>) {
    |s| == 35 && s[0] == OP_DATA_33 && s[34] == OP_CHECKSIG && (s[1] == 2 || s[1] == 3) && curve.parses(s[1..34])
  }

  predicate IsUncompressedKey(curve: Curve, s: seq<byte>) {
    |s| == 67 && s[0] == OP_DATA_65 && s[66] == OP_CHECKSIG && s[1] == 4 && curve.parses(s[1..66])
  }

  function Compress(curve: Curve, s: seq<byte>): (c: seq<byte>) {
    if IsPubKeyHash(s) then [0] + s[3..23]
    else if IsScriptHash(s) then [1] + s[2..22]
    else if IsCompressedKey(curve, s) then [s[1]] + s[2..34]
    else if IsUncompressedKey(curve, s) then [4 + s[65] % 2] + s[2..34]
    else Vlq.Encode(|s| + NUM_SPECIAL_SCRIPTS) + s
  }

  /** The four standard forms, built from a hash or from the coordinates of a key. */
  function PayToPubKeyHash(h: seq<byte>): seq<byte> {
    [0x76, 0xa9, 0x14] + h + [0x88, 0xac]
  }

  function PayToScriptHash(h: seq<byte>): seq<byte> {
    [0xa9, 0x14] + h + [0x87]
  }

  function PayToPubKey(key: seq<byte>): seq<byte> {
    [|key| % 256] + key + [0xac]
  }

  /** The form of a key: compressed with its x-coordinate, or uncompressed with both. */
  ghost predicate IsKey(curve: Curve, key: seq<byte>, prefix: byte, x: seq<byte>, y: seq<byte>) {
    && key == [prefix] + x + y && |x| == 32 && curve.parses(key)
    && (((prefix == 2 || prefix == 3) && y == []) || (prefix == 4 && |y| == 32))
  }

  /** A script of a standard form becomes a type byte and the hash or x-coordinate. */
  lemma HashForms(curve: Curve, h: seq<byte>)
    requires |h| == 20
    ensures Compress(curve, PayToPubKeyHash(h)) == [0] + h
    ensures Compress(curve, PayToScriptHash(h)) == [1] + h
  {
    assert PayToPubKeyHash(h)[3..23] == h;
    assert PayToScriptHash(h)[2..22] == h;
  }

  lemma KeyForms(curve: Curve, key: seq<byte>, prefix: byte, x: seq<byte>, y: seq<byte>)
    requires IsKey(curve, key, prefix, x, y)
    ensures Compress(curve, PayToPubKey(key)) == [if prefix == 4 then 4 + y[31] % 2 else prefix] + x
  {
    var s := PayToPubKey(key);
    assert s[1..|s| - 1] == key;
    assert s[2..34] == x;
  }

  /** Whether a script has one of the standard forms. */
  ghost predicate Standard(curve: Curve, s: seq<byte>) {
    || (exists h: seq<byte> :: |h| == 20 && (s == PayToPubKeyHash(h) || s == PayToScriptHash(h)))
    || exists key, prefix, x, y :: IsKey(curve, key, prefix, x, y) && s == PayToPubKey(key)
  }

  /** Exactly the standard scripts get shorter; any other one is kept behind its length. */
  lemma OnlyStandardShrinks(curve: Curve, s: seq<byte>)
    ensures |Compress(curve, s)| < |s| <==> Standard(curve, s)
    ensures !Standard(curve, s) ==> Compress(curve, s) == Vlq.Encode(|s| + 6) + s
  {
    hide Standard, Vlq.Encode;
    if IsPubKeyHash(s) {
      assert s == PayToPubKeyHash(s[3..23]);
      StandardHash(curve, s, s[3..23]);
    } else if IsScriptHash(s) {
      assert s == PayToScriptHash(s[2..22]);
      StandardHash(curve, s, s[2..22]);
    } else if IsCompressedKey(curve, s) {
      assert s[1..34] == [s[1]] + s[2..34] + [];
      StandardKey(curve, s, s[1..34], s[1], s[2..34], []);
    } else if IsUncompressedKey(curve, s) {
      assert s[1..66] == [s[1]] + s[2..34] + s[34..66];
      StandardKey(curve, s, s[1..66], s[1], s[2..34], s[34..66]);
    } else {
      NotStandard(curve, s);
    }
  }

  lemma StandardHash(curve: Curve, s: seq<byte>, h: seq<byte>)
    requires |h| == 20 && (s == PayToPubKeyHash(h) || s == PayToScriptHash(h))
    ensures Standard(curve, s)
  {
    hide PayToPubKeyHash, PayToScriptHash, PayToPubKey, IsKey;
  }

  lemma StandardKey(curve: Curve, s: seq<byte>, key: seq<byte>, prefix: byte, x: seq<byte>, y: seq<byte>)
    requires IsKey(curve, key, prefix, x, y) && s == PayToPubKey(key)
    ensures Standard(curve, s)
  {
    hide PayToPubKeyHash, PayToScriptHash, PayToPubKey, IsKey;
  }

  lemma NotStandard(curve: Curve, s: seq<byte>)
    requires !IsPubKeyHash(s) && !IsScriptHash(s) && !IsCompressedKey(curve, s) && !IsUncompressedKey(curve, s)
    ensures !Standard(curve, s)
  {
    forall key, prefix, x, y | IsKey(curve, key, prefix, x, y)
      ensures s != PayToPubKey(key)
    {
      assert PayToPubKey(key)[1..|key| + 1] == key;
    }
  }

  /** The size precomputed for a script. */
  function CompressedSize(curve: Curve, s: seq<byte>): (n: nat)
    ensures n == |Compress(curve, s)|
  {
    if IsPubKeyHash(s) then 21
    else if IsScriptHash(s) then 21
    else if IsCompressedKey(curve, s) || IsUncompressedKey(curve, s) then 33
    else |Vlq.Encode(|s| + NUM_SPECIAL_SCRIPTS)| + |s|
  }

  /** Conversion of an unsigned to a signed 64-bit number. */
  function ToInt64(x: int): int {
    (x + TWO_63) % TWO_64 - TWO_63
  }

  /** The size of the compressed script at the start of some bytes. */
  function DecodeSize(serialized: seq<byte>): int {
    var size, bytesRead := Vlq.Value(serialized) % TWO_64, Vlq.Size(serialized);
    if bytesRead == 0 then 0
    else if size <= 1 then 21
    else if size <= 5 then 33
    else ToInt64(size - NUM_SPECIAL_SCRIPTS + bytesRead)
  }

  /** A sub-slice; bytes that are too short, on which the source would panic, give nothing. */
  function Slice(c: seq<byte>, from: nat, len: nat): seq<byte> {
    if from + len <= |c| then c[from..from + len] else []
  }

  /** The script a compressed script stands for; nothing when a key does not parse. */
  function Decompress(curve: Curve, c: seq<byte>): seq<byte> {
    if c == [] then []
    else
      var size, bytesRead := Vlq.Value(c) % TWO_64, Vlq.Size(c);
      if size == 0 then [OP_DUP, OP_HASH160, OP_DATA_20] + Slice(c, bytesRead, 20) + [OP_EQUALVERIFY, OP_CHECKSIG]
      else if size == 1 then [OP_HASH160, OP_DATA_20] + Slice(c, bytesRead, 20) + [OP_EQUAL]
      else if size <= 3 then [OP_DATA_33, size] + Slice(c, bytesRead, 32) + [OP_CHECKSIG]
      else if size <= 5 then
        var key := [size - 2] + Slice(c, 1, 32);
        if curve.parses(key) then [OP_DATA_65] + curve.full(key) + [OP_CHECKSIG] else []
      else Slice(c, bytesRead, size - NUM_SPECIAL_SCRIPTS)
  }

  /** A one-byte number at the start of some bytes. */
  lemma SmallNumber(b: byte, rest: seq<byte>)
    requires b <= 5
    ensures Vlq.Value([b] + rest) == b && Vlq.Size([b] + rest) == 1
  {
    Vlq.LeadingStep(b);
    Vlq.RoundTrip(b, rest);
  }

  /** A special script, followed by anything, is read with its own type and size. */
  lemma SpecialSize(b: byte, data: seq<byte>, rest: seq<byte>)
    requires b <= 5 && |data| == if b <= 1 then 20 else 32
    ensures DecodeSize(([b] + data) + rest) == |data| + 1
    ensures Vlq.Value([b] + data) == b && Vlq.Size([b] + data) == 1
    ensures Slice([b] + data, 1, |data|) == data
  {
    hide Vlq.Value, Vlq.Size;
    SmallNumber(b, data + rest);
    SmallNumber(b, data);
    assert [b] + data + rest == [b] + (data + rest);
  }

  /** A general script, followed by anything, is read with its own size. */
  lemma GeneralSize(s: seq<byte>, rest: seq<byte>)
    requires |s| + 16 < TWO_63
    ensures
      var c := Vlq.Encode(|s| + NUM_SPECIAL_SCRIPTS) + s;
      DecodeSize(c + rest) == |c|
  {
    hide Vlq.Value, Vlq.Size, Vlq.Encode;
    var n := |s| + NUM_SPECIAL_SCRIPTS;
    var e := Vlq.Encode(n);
    Vlq.RoundTrip(n, s + rest);
    assert e + s + rest == e + (s + rest);
    Vlq.MaxBytes(n);
    assert n % TWO_64 == n;
  }

  lemma GeneralScript(curve: Curve, s: seq<byte>)
    requires |s| + 16 < TWO_63
    ensures Decompress(curve, Vlq.Encode(|s| + NUM_SPECIAL_SCRIPTS) + s) == s
  {
    hide Vlq.Value, Vlq.Size, Vlq.Encode;
    var n := |s| + NUM_SPECIAL_SCRIPTS;
    var e := Vlq.Encode(n);
    Vlq.RoundTrip(n, s);
    assert n % TWO_64 == n;
    assert Slice(e + s, |e|, |s|) == s;
  }

  /** The size of a compressed script is found again whatever follows it. */
  lemma SizeFound(curve: Curve, s: seq<byte>, rest: seq<byte>)
    requires |s| + 16 < TWO_63
    ensures DecodeSize(Compress(curve, s) + rest) == |Compress(curve, s)|
  {
    hide DecodeSize, Slice;
    if IsPubKeyHash(s) {
      SpecialSize(0, s[3..23], rest);
    } else if IsScriptHash(s) {
      SpecialSize(1, s[2..22], rest);
    } else if IsCompressedKey(curve, s) {
      SpecialSize(s[1], s[2..34], rest);
    } else if IsUncompressedKey(curve, s) {
      SpecialSize(4 + s[65] % 2, s[2..34], rest);
    } else {
      GeneralSize(s, rest);
    }
  }

  lemma CompressedNotEmpty(curve: Curve, s: seq<byte>)
    ensures Compress(curve, s) != []
  {
  }

  /** Decompression gives back every script. */
  lemma RoundTrip(curve: Curve, s: seq<byte>)
    requires Sec1(curve) && |s| + 16 < TWO_63
    ensures Decompress(curve, Compress(curve, s)) == s
  {
    hide Vlq.Value, Vlq.Size, Slice, Sec1;
    if IsPubKeyHash(s) {
      SpecialSize(0, s[3..23], []);
    } else if IsScriptHash(s) {
      SpecialSize(1, s[2..22], []);
    } else if IsCompressedKey(curve, s) {
      SpecialSize(s[1], s[2..34], []);
    } else if IsUncompressedKey(curve, s) {
      UncompressedKey(curve, s);
    } else {
      GeneralScript(curve, s);
    }
  }

  lemma UncompressedKey(curve: Curve, s: seq<byte>)
    requires Sec1(curve) && IsUncompressedKey(curve, s)
    ensures Decompress(curve, [4 + s[65] % 2] + s[2..34]) == s
  {
    hide Vlq.Value, Vlq.Size, Slice;
    SpecialSize(4 + s[65] % 2, s[2..34], []);
    var k := s[1..66];
    assert k[1..33] == s[2..34] && k[64] == s[65];
    assert curve.full([2 + k[64] % 2] + k[1..33]) == k;
  }

  /** A stored x-coordinate that is not on the curve stands for no script. */
  lemma NoSuchKey(curve: Curve, b: byte, x: seq<byte>)
    requires 4 <= b <= 5 && |x| == 32 && !curve.parses([b - 2] + x)
    ensures Decompress(curve, [b] + x) == []
  {
    hide Vlq.Value, Vlq.Size;
    SpecialSize(b, x, []);
  }

  /** Copies bytes into a buffer. */
  method Copy(target: array<byte>, start: nat, s: seq<byte>)
    requires start + |s| <= target.Length
    modifies target
    ensures target[start..start + |s|] == s && Vlq.OnlyWithin(target, start, start + |s|)
  {
    var i := 0;
    while i < |s|
      invariant 0 <= i <= |s| && target[start..start + i] == s[..i] && Vlq.OnlyWithin(target, start, start + i)
    {
      target[start + i] := s[i];
      i := i + 1;
    }
  }

  /** Writes one byte and then some data. */
  method PutSpecial(target: array<byte>, start: nat, b: byte, data: seq<byte>)
    requires start + 1 + |data| <= target.Length
    modifies target
    ensures target[start..start + 1 + |data|] == [b] + data && Vlq.OnlyWithin(target, start, start + 1 + |data|)
  {
    target[start] := b;
    Copy(target, start + 1, data);
    assert target[start..start + 1 + |data|] == [target[start]] + target[start + 1..start + 1 + |data|];
  }

  /** Compresses a script into a buffer. */
  method Put(curve: Curve, target: array<byte>, start: nat, s: seq<byte>) returns (size: nat)
    requires |s| + 16 < TWO_63 && start + |Compress(curve, s)| <= target.Length
    modifies target
    ensures size == |Compress(curve, s)| && target[start..start + size] == Compress(curve, s)
    ensures Vlq.OnlyWithin(target, start, start + size)
  {
    if IsPubKeyHash(s) {
      PutSpecial(target, start, 0, s[3..23]);
      return 21;
    }
    if IsScriptHash(s) {
      PutSpecial(target, start, 1, s[2..22]);
      return 21;
    }
    if IsCompressedKey(curve, s) {
      PutSpecial(target, start, s[1], s[2..34]);
      return 33;
    }
    if IsUncompressedKey(curve, s) {
      PutSpecial(target, start, 4 + s[65] % 2, s[2..34]);
      return 33;
    }
    size := PutGeneral(target, start, s);
  }

  method PutGeneral(target: array<byte>, start: nat, s: seq<byte>) returns (size: nat)
    requires |s| + 16 < TWO_63 && start + |Vlq.Encode(|s| + NUM_SPECIAL_SCRIPTS)| + |s| <= target.Length
    modifies target
    ensures size == |Vlq.Encode(|s| + NUM_SPECIAL_SCRIPTS)| + |s|
    ensures target[start..start + size] == Vlq.Encode(|s| + NUM_SPECIAL_SCRIPTS) + s
    ensures Vlq.OnlyWithin(target, start, start + size)
  {
    hide Vlq.Encode;
    var k := Vlq.Put(target, start, |s| + NUM_SPECIAL_SCRIPTS);
    ghost var head := target[start..start + k];
    Copy(target, start + k, s);
    assert target[start..start + k] == head;
    size := k + |s|;
    assert target[start..start + size] == target[start..start + k] + target[start + k..start + size];
  }
}
