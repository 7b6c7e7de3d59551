/**
 Keys of the unspent output set, blockchain/chainio.go: a transaction hash followed by
 the output index as a VLQ, and the seek that looks for any output of a transaction.
 */
module UtxoKeys {
  import opened Common
  import opened ByteOrder
  import Vlq

  const MAX_KEY := 37

  function KeyOf(hash: Hash, index: nat): seq<byte> {
    hash + Vlq.Encode(index)
  }

  lemma ShorterBy(n: nat)
    requires n > 127
    ensures |Vlq.Encode(n)| == |Vlq.Encode(n / 128 - 1)| + 1
  {
    hide Vlq.Encode, Vlq.Leading;
    Vlq.LeadingStep(n);
    Vlq.LeadingAllLeading(n / 128 - 1);
  }

  /** Fills a key buffer taken from the pool, whatever an earlier use left in it; the key is its
      first `len` bytes. */
  method OutpointKey(key: array<byte>, hash: Hash, index: nat) returns (len: nat)
    requires index < TWO_32 && key.Length == MAX_KEY
    modifies key
    ensures len <= MAX_KEY && key[..len] == KeyOf(hash, index)
  {
    hide Vlq.Encode;
    Vlq.MaxBytes(index);
    var size := Vlq.SerializeSize(index);
    len := 32 + size;
    for i := 0 to 32
      invariant key[..i] == hash[..i]
    {
      key[i] := hash[i];
    }
    assert hash[..32] == hash;
    label copied:
    var written := Vlq.Put(key, 32, index);
    assert key[..32] == old@copied(key[..32]);
    assert key[..len] == key[..32] + key[32..len];
  }

  /** For one hash, index 0 has the least key of all. */
  lemma IndexZeroLeast(hash: Hash, index: nat)
    requires index > 0
    ensures KeyLess(KeyOf(hash, 0), KeyOf(hash, index))
  {
    Vlq.LeadingStep(0);
    Vlq.LeadingStep(index);
    if index > 127 {
      Vlq.LeadingAllLeading(index / 128 - 1);
    }
    KeyLessAfter(hash, Vlq.Encode(0), Vlq.Encode(index));
  }

  /** The keys of a bucket in cursor order, all of them outpoint keys. */
  ghost predicate IsBucket(keys: seq<seq<byte>>) {
    && (forall i, j :: 0 <= i < j < |keys| ==> KeyLess(keys[i], keys[j]))
    && (forall i :: 0 <= i < |keys| ==> IsOutpointKey(keys[i]))
  }

  ghost predicate IsOutpointKey(key: seq<byte>) {
    exists hash: Hash, index: nat :: key == KeyOf(hash, index)
  }

  /** Some key of the bucket belongs to the hash. */
  ghost predicate HasHash(keys: seq<seq<byte>>, hash: Hash) {
    exists i, index: nat :: 0 <= i < |keys| && keys[i] == KeyOf(hash, index)
  }

  /** The cursor's seek: the first key that is not less than the one asked for. */
  method Seek(keys: seq<seq<byte>>, key: seq<byte>) returns (i: nat)
    ensures i <= |keys| && (forall j :: 0 <= j < i ==> KeyLess(keys[j], key))
    ensures i < |keys| ==> !KeyLess(keys[i], key)
  {
    i := 0;
    while i < |keys| && KeyLess(keys[i], key)
      invariant i <= |keys| && forall j :: 0 <= j < i ==> KeyLess(keys[j], key)
    {
      i := i + 1;
    }
  }

  /** Seeking the index-0 key finds an output of the transaction whenever there is one. */
  method FetchByHash(keys: seq<seq<byte>>, hash: Hash) returns (r: Option<nat>)
    requires IsBucket(keys)
    ensures r.Some? <==> HasHash(keys, hash)
    ensures r.Some? ==> r.value < |keys| && exists index: nat :: keys[r.value] == KeyOf(hash, index)
  {
    var i := Seek(keys, KeyOf(hash, 0));
    if HasHash(keys, hash) {
      SeekStops(keys, hash, i);
    }
    if i == |keys| || |keys[i]| < 32 || keys[i][..32] != hash {
      if i < |keys| { NotOfHash(keys[i], hash); }
      return None;
    }
    OfHash(keys[i], hash);
    return Some(i);
  }

  lemma NotOfHash(key: seq<byte>, hash: Hash)
    requires |key| < 32 || key[..32] != hash
    ensures forall index: nat :: key != KeyOf(hash, index)
  {
    forall index: nat ensures key != KeyOf(hash, index) {
      assert KeyOf(hash, index)[..32] == hash;
    }
  }

  lemma OfHash(key: seq<byte>, hash: Hash)
    requires IsOutpointKey(key) && |key| >= 32 && key[..32] == hash
    ensures exists index: nat :: key == KeyOf(hash, index)
  {
    var h: Hash, index: nat :| key == KeyOf(h, index);
    assert key[..32] == h;
  }

  lemma SeekStops(keys: seq<seq<byte>>, hash: Hash, i: nat)
    requires IsBucket(keys) && HasHash(keys, hash) && i <= |keys|
    requires forall j :: 0 <= j < i ==> KeyLess(keys[j], KeyOf(hash, 0))
    requires i < |keys| ==> !KeyLess(keys[i], KeyOf(hash, 0))
    ensures i < |keys| && |keys[i]| >= 32 && keys[i][..32] == hash
  {
    hide KeyLess, IsOutpointKey, Vlq.Encode;
    var j: nat, index: nat :| j < |keys| && keys[j] == KeyOf(hash, index);
    NotLessThanZero(hash, index);
    assert i <= j;
    if i < j {
      KeyLessAsymmetric(keys[i], keys[j]);
    } else {
      KeyLessIrreflexive(keys[i]);
    }
    Between(hash, Vlq.Encode(0), keys[i], Vlq.Encode(index));
  }

  lemma KeyLessIrreflexive(a: seq<byte>)
    ensures !KeyLess(a, a)
  {
    if KeyLess(a, a) {
      KeyLessAsymmetric(a, a);
      assert false;
    }
  }

  lemma NotLessThanZero(hash: Hash, index: nat)
    ensures !KeyLess(KeyOf(hash, index), KeyOf(hash, 0))
  {
    if index > 0 {
      IndexZeroLeast(hash, index);
      KeyLessAsymmetric(KeyOf(hash, 0), KeyOf(hash, index));
    } else {
      KeyLessIrreflexive(KeyOf(hash, 0));
    }
  }

  /** The number that the first `k` bytes of an encoding stand for. */
  function Head(n: nat, k: nat): nat
    requires 1 <= k <= |Vlq.Encode(n)|
  {
    if k == |Vlq.Encode(n)| then n else LongerThanOne(n); ShorterBy(n); Head(n / 128 - 1, k)
  }

  lemma LongerThanOne(n: nat)
    requires |Vlq.Encode(n)| > 1
    ensures n > 127
  {
  }

  /** Leading bytes of the same length compare as the numbers do. */
  lemma {:induction false} LeadingOrder(a: nat, b: nat, x: seq<byte>, y: seq<byte>)
    requires |Vlq.Leading(a)| == |Vlq.Leading(b)|
    ensures KeyLess(Vlq.Leading(a) + x, Vlq.Leading(b) + y) <==> a < b || (a == b && KeyLess(x, y))
  {
    hide Vlq.Leading, KeyLess;
    Vlq.LeadingStep(a);
    Vlq.LeadingStep(b);
    if a > 127 && b > 127 {
      var p, q := a / 128 - 1, b / 128 - 1;
      var d, e := a % 128 + 128, b % 128 + 128;
      assert Vlq.Leading(a) + x == Vlq.Leading(p) + ([d] + x);
      assert Vlq.Leading(b) + y == Vlq.Leading(q) + ([e] + y);
      LeadingOrder(p, q, [d] + x, [e] + y);
      OneByteOrder(d, x, e, y);
    } else if a <= 127 && b <= 127 {
      OneByteOrder(a + 128, x, b + 128, y);
    }
  }

  lemma OneByteOrder(d: byte, x: seq<byte>, e: byte, y: seq<byte>)
    ensures KeyLess([d] + x, [e] + y) <==> d < e || (d == e && KeyLess(x, y))
  {
    assert ([d] + x)[1..] == x && ([e] + y)[1..] == y;
  }

  /** An encoding starts with the leading bytes of its head, and more leading bytes follow
      when the head is shorter than all but the last byte. */
  lemma {:induction false} HeadBytes(n: nat, k: nat) returns (rest: seq<byte>)
    requires 1 <= k < |Vlq.Encode(n)|
    ensures Vlq.Encode(n) == Vlq.Leading(Head(n, k)) + rest && |Vlq.Leading(Head(n, k))| == k && rest != []
    ensures k + 1 < |Vlq.Encode(n)| ==> rest[0] >= 128
    decreases n
  {
    hide Vlq.Leading;
    LongerThanOne(n);
    ShorterBy(n);
    Vlq.LeadingStep(n);
    var m := n / 128 - 1;
    Vlq.LeadingAllLeading(m);
    if k == |Vlq.Encode(m)| {
      rest := [n % 128];
    } else {
      rest := HeadOfLeading(m, k);
      rest := rest + [n % 128];
      assert Vlq.Encode(n) == Vlq.Leading(Head(n, k)) + rest;
    }
  }

  lemma {:induction false} HeadOfLeading(n: nat, k: nat) returns (rest: seq<byte>)
    requires 1 <= k < |Vlq.Encode(n)|
    ensures Vlq.Leading(n) == Vlq.Leading(Head(n, k)) + rest && |Vlq.Leading(Head(n, k))| == k
    ensures rest != [] && rest[0] >= 128
    decreases n
  {
    hide Vlq.Leading;
    LongerThanOne(n);
    ShorterBy(n);
    Vlq.LeadingStep(n);
    var m := n / 128 - 1;
    Vlq.LeadingAllLeading(m);
    if k == |Vlq.Encode(m)| {
      rest := [n % 128 + 128];
    } else {
      rest := HeadOfLeading(m, k);
      rest := rest + [n % 128 + 128];
      assert Vlq.Leading(n) == Vlq.Leading(Head(n, k)) + rest;
    }
  }

  /** Of two indexes, the smaller one has the smaller key exactly when both encodings have the
      same length, or the smaller index fits one byte, or its leading groups are not greater
      than those of the larger index. */
  lemma KeyOrder(hash: Hash, a: nat, b: nat)
    requires a < b
    ensures |Vlq.Encode(a)| <= |Vlq.Encode(b)|
    ensures KeyLess(KeyOf(hash, a), KeyOf(hash, b)) <==>
      || |Vlq.Encode(a)| == |Vlq.Encode(b)|
      || a <= 127
      || a / 128 - 1 <= Head(b, |Vlq.Encode(a)| - 1)
  {
    KeyLessAfter(hash, Vlq.Encode(a), Vlq.Encode(b));
    LongerIsLater(a, b);
    VlqOrder(a, b);
  }

  lemma {:induction false} LongerIsLater(a: nat, b: nat)
    requires a <= b
    ensures |Vlq.Encode(a)| <= |Vlq.Encode(b)|
  {
    hide Vlq.Encode, Vlq.Leading;
    Vlq.LeadingStep(a);
    Vlq.LeadingStep(b);
    if a > 127 {
      ShorterBy(a);
      ShorterBy(b);
      LongerIsLater(a / 128 - 1, b / 128 - 1);
    }
  }

  lemma VlqOrder(a: nat, b: nat)
    requires a < b && |Vlq.Encode(a)| <= |Vlq.Encode(b)|
    ensures KeyLess(Vlq.Encode(a), Vlq.Encode(b)) <==>
      || |Vlq.Encode(a)| == |Vlq.Encode(b)|
      || a <= 127
      || a / 128 - 1 <= Head(b, |Vlq.Encode(a)| - 1)
  {
    hide Vlq.Encode, Vlq.Leading, KeyLess, Head;
    Vlq.LeadingStep(a);
    Vlq.LeadingStep(b);
    if a <= 127 {
      if b <= 127 {
        OneByteOrder(a, [], b, []);
        assert [a] + [] == [a] && [b] + [] == [b];
      } else {
        Vlq.LeadingAllLeading(b / 128 - 1);
        FirstByteDecides(a, Vlq.Encode(b));
      }
    } else {
      var p := a / 128 - 1;
      ShorterBy(a);
      Vlq.LeadingAllLeading(p);
      if |Vlq.Encode(a)| == |Vlq.Encode(b)| {
        var q := b / 128 - 1;
        ShorterBy(b);
        Vlq.LeadingAllLeading(q);
        LeadingOrder(p, q, [a % 128], [b % 128]);
        OneByteOrder(a % 128, [], b % 128, []);
        assert [a % 128] + [] == [a % 128] && [b % 128] + [] == [b % 128];
      } else {
        var k := |Vlq.Encode(a)| - 1;
        var rest := HeadBytes(b, k);
        LeadingOrder(p, Head(b, k), [a % 128], rest);
        FirstByteDecides(a % 128, rest);
      }
    }
  }

  lemma FirstByteDecides(d: byte, s: seq<byte>)
    requires s != [] && d < s[0]
    ensures KeyLess([d], s)
  {
  }

  /** The order of keys is not the order of indexes: 16512 comes before 16511. */
  lemma OrderBroken(hash: Hash)
    ensures KeyLess(KeyOf(hash, 16512), KeyOf(hash, 16511))
  {
    assert Vlq.Encode(16511) == [255, 127];
    assert Vlq.Leading(128) == [128, 128];
    assert Vlq.Encode(16512) == [128, 128, 0];
    KeyLessAfter(hash, Vlq.Encode(16512), Vlq.Encode(16511));
  }
}
