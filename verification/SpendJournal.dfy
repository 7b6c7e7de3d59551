/**
 Compressed transaction outputs and the spend journal, blockchain/compress.go and
 blockchain/chainio.go. A journal entry lists the outputs a block spent, last one first,
 and does not say how many there are.
 */
module SpendJournal {
  import opened Common
  import Vlq
  import Amounts
  import AmountLimits
  import Scripts

  /** An output that was spent, with where it was created. */
  datatype SpentTxOut = SpentTxOut(amount: int, script: seq<byte>, height: int, isCoinBase: bool)
  {
    /** The values the program's types admit. */
    predicate Typed() {
      && -0x8000_0000 <= height < 0x8000_0000
      && -0x8000_0000_0000_0000 <= amount < 0x8000_0000_0000_0000
      && |script| + 16 < TWO_63
    }

    /** Those among them whose amount, read as an unsigned number, has a compressed form that
        fits in 64 bits. */
    predicate Storable() {
      Typed() && Amounts.Compress(amount % TWO_64) < TWO_64
    }

    /** What writing and reading makes of it. */
    function Stored(): SpentTxOut {
      this.(amount := Scripts.ToInt64(Amounts.Back(amount % TWO_64)))
    }
  }

  predicate AllTyped(stxos: seq<SpentTxOut>) {
    forall i :: 0 <= i < |stxos| ==> stxos[i].Typed()
  }

  predicate AllStorable(stxos: seq<SpentTxOut>) {
    forall i :: 0 <= i < |stxos| ==> stxos[i].Storable()
  }

  function AllStored(stxos: seq<SpentTxOut>): seq<SpentTxOut> {
    seq(|stxos|, i requires 0 <= i < |stxos| => stxos[i].Stored())
  }

  /** An output survives exactly when its compressed amount fits. */
  lemma StoredExactly(x: SpentTxOut)
    requires x.Typed()
    ensures x.Stored() == x <==> x.Storable()
  {
    hide Amounts.Back, Amounts.Compress;
    var u := x.amount % TWO_64;
    AmountLimits.SurvivesExactly(u);
    SignedBack(x.amount, Amounts.Back(u));
  }

  lemma SignedBack(amount: int, v: nat)
    requires -0x8000_0000_0000_0000 <= amount < 0x8000_0000_0000_0000 && v < TWO_64
    ensures Scripts.ToInt64(v) == amount <==> v == amount % TWO_64
  {
  }

  lemma AllStoredExactly(stxos: seq<SpentTxOut>)
    requires AllTyped(stxos)
    ensures AllStored(stxos) == stxos <==> AllStorable(stxos)
  {
    forall i | 0 <= i < |stxos| ensures AllStored(stxos)[i] == stxos[i] <==> stxos[i].Storable() {
      StoredExactly(stxos[i]);
    }
  }

  function EncodeTxOut(curve: Scripts.Curve, amount: nat, script: seq<byte>): seq<byte> {
    Vlq.Encode(Amounts.Compress(amount) % TWO_64) + Scripts.Compress(curve, script)
  }

  /** What is read from the start of some bytes: the output and the number of bytes it took. */
  datatype ReadTxOut = ReadTxOut(amount: nat, script: seq<byte>, bytesRead: nat)

  function DecodeTxOut(curve: Scripts.Curve, s: seq<byte>): (r: Option<ReadTxOut>)
    ensures r.Some? ==> r.value.bytesRead <= |s|
  {
    var compressed, bytesRead := Vlq.Value(s) % TWO_64, Vlq.Size(s);
    if bytesRead >= |s| then None
    else
      var size := Scripts.DecodeSize(s[bytesRead..]);
      if |s| - bytesRead < size || size < 0 then None
      else Some(ReadTxOut(
        Amounts.Decompress(compressed) % TWO_64,
        Scripts.Decompress(curve, s[bytesRead..bytesRead + size]),
        bytesRead + size))
  }

  /** An output is read back whatever follows it, with the amount that 64-bit arithmetic leaves. */
  lemma TxOutRoundTrip(curve: Scripts.Curve, amount: nat, script: seq<byte>, rest: seq<byte>)
    requires Scripts.Sec1(curve) && |script| + 16 < TWO_63 && amount < TWO_64
    ensures
      var e := EncodeTxOut(curve, amount, script);
      e != [] && DecodeTxOut(curve, e + rest) == Some(ReadTxOut(Amounts.Back(amount), script, |e|))
  {
    hide Vlq.Encode, Vlq.Value, Vlq.Size, Scripts.Compress, Scripts.Decompress, Scripts.DecodeSize, Amounts.Compress, Amounts.Decompress, Scripts.Sec1;
    var a, c := Vlq.Encode(Amounts.Compress(amount) % TWO_64), Scripts.Compress(curve, script);
    var n := Amounts.Compress(amount) % TWO_64;
    Vlq.RoundTrip(n, c + rest);
    var s := a + c + rest;
    assert s == a + (c + rest) && s[|a|..] == c + rest;
    Scripts.SizeFound(curve, script, rest);
    Scripts.CompressedNotEmpty(curve, script);
    assert s[|a|..|a| + |c|] == c;
    Scripts.RoundTrip(curve, script);
  }

  /** Height and coinbase flag in one unsigned 64-bit number. */
  function HeaderCode(x: SpentTxOut): nat {
    x.height * 2 % TWO_64 + if x.isCoinBase then 1 else 0
  }

  /** An entry: header code, a reserved zero unless the height is zero, and the output. */
  function EncodeStxo(curve: Scripts.Curve, x: SpentTxOut): seq<byte>
  {
    EncodeHeader(x) + EncodeTxOut(curve, x.amount % TWO_64, x.script)
  }

  datatype ReadStxo = ReadStxo(stxo: SpentTxOut, bytesRead: nat)

  function DecodeStxo(curve: Scripts.Curve, s: seq<byte>): (r: Option<ReadStxo>)
    ensures r.Some? ==> r.value.bytesRead <= |s|
  {
    if s == [] then None
    else
      var code, offset := Vlq.Value(s) % TWO_64, Vlq.Size(s);
      if offset >= |s| then None
      else
        var height := ToInt32(code / 2);
        var start := OutputStart(s, height);
        if start >= |s| then None
        else
          var out := DecodeTxOut(curve, s[start..]);
          if out.None? then None
          else
            var x := SpentTxOut(Scripts.ToInt64(out.value.amount), out.value.script, height, code % 2 != 0);
            Some(ReadStxo(x, start + out.value.bytesRead))
  }

  lemma HeaderCodeParts(x: SpentTxOut)
    requires x.Typed()
    ensures var code := HeaderCode(x);
      code < TWO_64 && code % TWO_64 == code && ToInt32(code / 2) == x.height && (code % 2 != 0) == x.isCoinBase
  {
    hide ToInt32;
    var flag := if x.isCoinBase then 1 else 0;
    if x.height >= 0 {
      assert HeaderCode(x) == 2 * x.height + flag;
      assert HeaderCode(x) / 2 == x.height;
      SignedHeight(x.height, 0);
    } else {
      assert x.height * 2 % TWO_64 == 2 * (x.height + TWO_63);
      assert HeaderCode(x) == 2 * (x.height + TWO_63) + flag;
      assert HeaderCode(x) / 2 == x.height + TWO_63;
      SignedHeight(x.height, 0x8000_0000);
    }
  }

  /** Multiples of 2^32 are lost in the conversion to a signed 32-bit number. */
  lemma SignedHeight(height: int, z: nat)
    requires -0x8000_0000 <= height < 0x8000_0000
    ensures ToInt32(height + z * TWO_32) == height
  {
    var y := height + 0x8000_0000;
    assert height + z * TWO_32 + TWO_31 == y + z * TWO_32;
    assert (y + z * TWO_32) % TWO_32 == y;
  }

  /** Where the output starts in an entry that begins with the given header code. */
  function OutputStart(s: seq<byte>, height: int): nat
    requires Vlq.Size(s) <= |s|
  {
    Vlq.Size(s) + if height > 0 then Vlq.Size(s[Vlq.Size(s)..]) else 0
  }

  /** The header is read back, and what follows it begins where the output is looked for. */
  lemma HeaderFound(x: SpentTxOut, more: seq<byte>)
    requires x.Typed()
    ensures
      var s := EncodeHeader(x) + more;
      && Vlq.Value(s) == HeaderCode(x) && Vlq.Size(s) <= |s|
      && OutputStart(s, x.height) == |EncodeHeader(x)| && s[|EncodeHeader(x)|..] == more
  {
    hide Vlq.Encode, Vlq.Value, Vlq.Size, HeaderCode;
    var h, z := Vlq.Encode(HeaderCode(x)), if x.height > 0 then Vlq.Encode(0) else [];
    assert h + z + more == h + (z + more);
    Vlq.RoundTrip(HeaderCode(x), z + more);
    assert (h + (z + more))[|h|..] == z + more;
    Vlq.RoundTrip(0, more);
  }

  /** An entry is read back whatever follows it. */
  lemma StxoRoundTrip(curve: Scripts.Curve, x: SpentTxOut, rest: seq<byte>)
    requires Scripts.Sec1(curve) && x.Typed()
    ensures
      var e := EncodeStxo(curve, x);
      e != [] && DecodeStxo(curve, e + rest) == Some(ReadStxo(x.Stored(), |e|))
  {
    hide Vlq.Value, Vlq.Size, EncodeHeader, EncodeTxOut, DecodeTxOut, OutputStart, Amounts.Back, HeaderCode, ToInt32, Scripts.Sec1, Scripts.ToInt64;
    var h, t := EncodeHeader(x), EncodeTxOut(curve, x.amount % TWO_64, x.script);
    HeaderCodeParts(x);
    HeaderFound(x, t + rest);
    TxOutRoundTrip(curve, x.amount % TWO_64, x.script, rest);
    assert h + t + rest == h + (t + rest);
    StartsInside(h + (t + rest), x.height);
  }

  lemma StartsInside(s: seq<byte>, height: int)
    requires Vlq.Size(s) <= |s|
    ensures Vlq.Size(s) <= OutputStart(s, height)
  {
  }

  /** The entry of a block: the spent outputs in reverse order. */
  function EncodeJournal(curve: Scripts.Curve, stxos: seq<SpentTxOut>): seq<byte> {
    if stxos == [] then []
    else EncodeStxo(curve, stxos[|stxos| - 1]) + EncodeJournal(curve, stxos[..|stxos| - 1])
  }

  /** Reads `k` entries; the first one read is the last of the list. */
  function ReadBack(curve: Scripts.Curve, s: seq<byte>, k: nat): (r: Option<seq<SpentTxOut>>)
    ensures r.Some? ==> |r.value| == k
  {
    if k == 0 then Some([])
    else
      var x := DecodeStxo(curve, s);
      if x.None? then None
      else
        var before := ReadBack(curve, s[x.value.bytesRead..], k - 1);
        if before.None? then None else Some(before.value + [x.value.stxo])
  }

  lemma {:induction false} JournalRoundTrip(curve: Scripts.Curve, stxos: seq<SpentTxOut>, rest: seq<byte>)
    requires Scripts.Sec1(curve) && AllTyped(stxos)
    ensures ReadBack(curve, EncodeJournal(curve, stxos) + rest, |stxos|) == Some(AllStored(stxos))
    decreases |stxos|
  {
    hide EncodeStxo, DecodeStxo, Scripts.Sec1, Amounts.Compress;
    if stxos != [] {
      var k := |stxos| - 1;
      var x, before := stxos[k], stxos[..k];
      var e, j := EncodeStxo(curve, x), EncodeJournal(curve, before);
      StxoRoundTrip(curve, x, j + rest);
      assert e + j + rest == e + (j + rest);
      assert (e + (j + rest))[|e|..] == j + rest;
      JournalRoundTrip(curve, before, rest);
      assert AllStored(before) + [x.Stored()] == AllStored(stxos);
    } else {
      NoneStored();
    }
  }

  function Sum(counts: seq<nat>): nat {
    if counts == [] then 0 else Sum(counts[..|counts| - 1]) + counts[|counts| - 1]
  }

  datatype JournalError = Mismatch | Corrupt
  datatype Journal = Entries(stxos: seq<SpentTxOut>) | Failed(error: JournalError)

  /** The spent outputs of a block whose transactions have the given numbers of inputs. */
  function DecodeJournal(curve: Scripts.Curve, s: seq<byte>, counts: seq<nat>): Journal {
    if s == [] then
      if Sum(counts) != 0 then Failed(Mismatch) else Entries([])
    else
      var r := ReadBack(curve, s, Sum(counts));
      if r.None? then Failed(Corrupt) else Entries(r.value)
  }

  lemma {:induction false} JournalNotEmpty(curve: Scripts.Curve, stxos: seq<SpentTxOut>)
    requires Scripts.Sec1(curve) && AllTyped(stxos) && stxos != []
    ensures EncodeJournal(curve, stxos) != []
  {
    hide EncodeStxo, Scripts.Sec1, Amounts.Compress;
    StxoRoundTrip(curve, stxos[|stxos| - 1], []);
  }

  /** The journal entry of a block gives back the spent outputs in their original order, however
      the inputs are distributed over its transactions. They are unchanged if and only if the
      compressed form of every amount fits in 64 bits. */
  lemma SpentOutputsRestored(curve: Scripts.Curve, stxos: seq<SpentTxOut>, counts: seq<nat>)
    requires Scripts.Sec1(curve) && AllTyped(stxos) && Sum(counts) == |stxos|
    ensures DecodeJournal(curve, EncodeJournal(curve, stxos), counts) == Entries(AllStored(stxos))
    ensures AllStored(stxos) == stxos <==> AllStorable(stxos)
  {
    hide ReadBack, EncodeStxo, Scripts.Sec1, AllStored, AllStorable;
    AllStoredExactly(stxos);
    var s := EncodeJournal(curve, stxos);
    JournalRoundTrip(curve, stxos, []);
    assert s + [] == s;
    if stxos != [] {
      JournalNotEmpty(curve, stxos);
    } else {
      NoneStored();
    }
  }

  lemma {:induction false} SumPositive(counts: seq<nat>)
    ensures Sum(counts) > 0 <==> exists i: nat :: i < |counts| && counts[i] > 0
  {
    if counts != [] {
      var last := |counts| - 1;
      SumPositive(counts[..last]);
      assert forall i: nat :: i < last ==> counts[..last][i] == counts[i];
    }
  }

  /** A missing entry is a mismatch exactly when some transaction has inputs; an entry that is
      read has one output for every input. */
  lemma JournalErrors(curve: Scripts.Curve, s: seq<byte>, counts: seq<nat>)
    ensures var r := DecodeJournal(curve, s, counts);
            && (r == Failed(Mismatch) <==> s == [] && exists i: nat :: i < |counts| && counts[i] > 0)
            && (r.Entries? ==> |r.stxos| == Sum(counts))
            && (r == Failed(Corrupt) ==> s != [])
  {
    SumPositive(counts);
  }

  lemma NoneStored()
    ensures AllStored([]) == []
  {
  }

  /** Two neighbouring parts of a buffer, read as one. */
  lemma Joined(target: array<byte>, lo: nat, mid: nat, hi: nat)
    requires lo <= mid <= hi <= target.Length
    ensures target[lo..hi] == target[lo..mid] + target[mid..hi]
  {
  }

  method PutTxOut(curve: Scripts.Curve, target: array<byte>, start: nat, amount: nat, script: seq<byte>) returns (size: nat)
    requires amount < TWO_64 && |script| + 16 < TWO_63
    requires start + |EncodeTxOut(curve, amount, script)| <= target.Length
    modifies target
    ensures size == |EncodeTxOut(curve, amount, script)| && target[start..start + size] == EncodeTxOut(curve, amount, script)
    ensures Vlq.OnlyWithin(target, start, start + size)
  {
    hide Vlq.Encode, Scripts.Compress, Amounts.Compress;
    var c := Amounts.CompressAmount(amount);
    var k := Vlq.Put(target, start, c);
    ghost var head := target[start..start + k];
    var l := Scripts.Put(curve, target, start + k, script);
    assert target[start..start + k] == head;
    size := k + l;
    Joined(target, start, start + k, start + size);
  }

  /** The size precomputed for an entry. */
  method StxoSize(curve: Scripts.Curve, x: SpentTxOut) returns (size: nat)
    requires x.Typed()
    ensures size == |EncodeStxo(curve, x)|
  {
    size := Vlq.SerializeSize(HeaderCode(x));
    if x.height > 0 {
      var reserved := Vlq.SerializeSize(0);
      size := size + reserved;
    }
    var c := Amounts.CompressAmount(x.amount % TWO_64);
    var amountSize := Vlq.SerializeSize(c);
    size := size + amountSize + Scripts.CompressedSize(curve, x.script);
  }

  /** What precedes the output in an entry. */
  function EncodeHeader(x: SpentTxOut): seq<byte> {
    Vlq.Encode(HeaderCode(x)) + if x.height > 0 then Vlq.Encode(0) else []
  }

  method PutHeader(target: array<byte>, start: nat, x: SpentTxOut) returns (size: nat)
    requires x.Typed() && start + |EncodeHeader(x)| <= target.Length
    modifies target
    ensures size == |EncodeHeader(x)| && target[start..start + size] == EncodeHeader(x)
    ensures Vlq.OnlyWithin(target, start, start + size)
  {
    hide Vlq.Encode, Amounts.Compress, HeaderCode;
    HeaderCodeParts(x);
    size := Vlq.Put(target, start, HeaderCode(x));
    ghost var head := target[start..start + size];
    assert head + [] == head;
    if x.height > 0 {
      var reserved := Vlq.Put(target, start + size, 0);
      assert target[start..start + size] == head;
      Joined(target, start, start + size, start + size + reserved);
      size := size + reserved;
    }
  }

  method PutStxo(curve: Scripts.Curve, target: array<byte>, start: nat, x: SpentTxOut) returns (size: nat)
    requires x.Typed() && start + |EncodeStxo(curve, x)| <= target.Length
    modifies target
    ensures size == |EncodeStxo(curve, x)| && target[start..start + size] == EncodeStxo(curve, x)
    ensures Vlq.OnlyWithin(target, start, start + size)
  {
    hide EncodeHeader, EncodeTxOut, Amounts.Compress;
    var offset := PutHeader(target, start, x);
    ghost var head := target[start..start + offset];
    var l := PutTxOut(curve, target, start + offset, x.amount % TWO_64, x.script);
    assert target[start..start + offset] == head;
    size := offset + l;
    Joined(target, start, start + offset, start + size);
  }

  /** Writes one more entry behind what is there and returns the new end. */
  method PutNext(curve: Scripts.Curve, target: array<byte>, offset: nat, x: SpentTxOut) returns (end: nat)
    requires x.Typed() && offset + |EncodeStxo(curve, x)| <= target.Length
    modifies target
    ensures end == offset + |EncodeStxo(curve, x)| && target[..end] == old(target[..offset]) + EncodeStxo(curve, x)
  {
    hide EncodeStxo;
    var k := PutStxo(curve, target, offset, x);
    end := offset + k;
    assert target[..offset] == old(target[..offset]);
    assert target[..end] == target[..offset] + target[offset..end];
  }

  lemma {:induction false} JournalSplit(curve: Scripts.Curve, stxos: seq<SpentTxOut>, i: nat)
    requires AllTyped(stxos) && i < |stxos|
    ensures EncodeJournal(curve, stxos[..i + 1]) == EncodeStxo(curve, stxos[i]) + EncodeJournal(curve, stxos[..i])
  {
    assert stxos[..i + 1][..i] == stxos[..i];
  }

  method JournalSize(curve: Scripts.Curve, stxos: seq<SpentTxOut>) returns (size: nat)
    requires AllTyped(stxos)
    ensures size == |EncodeJournal(curve, stxos)|
  {
    hide EncodeStxo;
    size := 0;
    var i := 0;
    while i < |stxos|
      invariant 0 <= i <= |stxos| && size == |EncodeJournal(curve, stxos[..i])|
    {
      var k := StxoSize(curve, stxos[i]);
      JournalSplit(curve, stxos, i);
      size := size + k;
      i := i + 1;
    }
    assert stxos[..|stxos|] == stxos;
  }

  /** Serializes the spent outputs last one first into a buffer of the precomputed size, which
      they fill exactly. */
  method SerializeJournal(curve: Scripts.Curve, stxos: seq<SpentTxOut>) returns (serialized: array<byte>)
    requires AllTyped(stxos)
    ensures fresh(serialized) && serialized[..] == EncodeJournal(curve, stxos)
  {
    hide EncodeStxo, EncodeJournal;
    var size := JournalSize(curve, stxos);
    serialized := new byte[size](_ => 0);
    ghost var all := EncodeJournal(curve, stxos);
    var i, offset := |stxos|, 0;
    assert stxos[..i] == stxos;
    while i > 0
      invariant 0 <= i <= |stxos| && 0 <= offset && serialized.Length == |all|
      invariant offset + |EncodeJournal(curve, stxos[..i])| == |all|
      invariant all == serialized[..offset] + EncodeJournal(curve, stxos[..i])
      invariant fresh(serialized)
    {
      i := i - 1;
      JournalSplit(curve, stxos, i);
      offset := PutNext(curve, serialized, offset, stxos[i]);
    }
    assert stxos[..0] == [];
    EmptyJournal(curve);
    assert serialized[..offset] == serialized[..];
  }

  lemma EmptyJournal(curve: Scripts.Curve)
    ensures EncodeJournal(curve, []) == []
  {
  }

  method TotalInputs(counts: seq<nat>) returns (total: nat)
    ensures total == Sum(counts)
  {
    total := 0;
    var i := 0;
    while i < |counts|
      invariant 0 <= i <= |counts| && total == Sum(counts[..i])
    {
      SumNext(counts, i);
      total := total + counts[i];
      i := i + 1;
    }
    assert counts[..|counts|] == counts;
  }

  /** Decodes a journal entry, walking the transactions and their inputs backwards. */
  method DeserializeJournal(curve: Scripts.Curve, s: seq<byte>, counts: seq<nat>) returns (r: Journal)
    ensures r == DecodeJournal(curve, s, counts)
  {
    hide DecodeStxo, Continues, ReadBack, Sum;
    var numStxos := TotalInputs(counts);
    if |s| == 0 {
      return if numStxos != 0 then Failed(Mismatch) else Entries([]);
    }
    var offset := 0;
    var read: seq<SpentTxOut> := [];
    var txIdx := |counts|;
    assert counts[..txIdx] == counts && s[0..] == s;
    ContinuesStart(curve, s, numStxos);
    while txIdx > 0
      invariant 0 <= txIdx <= |counts| && 0 <= offset <= |s|
      invariant Continues(curve, s, numStxos, s[offset..], Sum(counts[..txIdx]), read)
    {
      txIdx := txIdx - 1;
      SumNext(counts, txIdx);
      var left := counts[txIdx];
      while left > 0
        invariant 0 <= left <= counts[txIdx] && 0 <= offset <= |s|
        invariant Continues(curve, s, numStxos, s[offset..], Sum(counts[..txIdx]) + left, read)
      {
        var x := DecodeStxo(curve, s[offset..]);
        if x.None? {
          ContinuesNot(curve, s, numStxos, s[offset..], Sum(counts[..txIdx]) + left, read);
          return Failed(Corrupt);
        }
        assert s[offset..][x.value.bytesRead..] == s[offset + x.value.bytesRead..];
        ContinuesStep(curve, s, numStxos, s[offset..], Sum(counts[..txIdx]) + left, read);
        offset := offset + x.value.bytesRead;
        read := [x.value.stxo] + read;
        left := left - 1;
      }
    }
    ContinuesEnd(curve, s, numStxos, s[offset..], counts[..0], read);
    return Entries(read);
  }

  /** With `left` entries still to be read from `rest`, and `read` behind them, the whole is the same. */
  ghost predicate Continues(curve: Scripts.Curve, s: seq<byte>, total: nat, rest: seq<byte>, left: nat, read: seq<SpentTxOut>) {
    var r := ReadBack(curve, rest, left);
    ReadBack(curve, s, total) == if r.None? then None else Some(r.value + read)
  }

  lemma ContinuesStart(curve: Scripts.Curve, s: seq<byte>, total: nat)
    ensures Continues(curve, s, total, s, total, [])
  {
    var r := ReadBack(curve, s, total);
    assert r.Some? ==> r.value + [] == r.value;
  }

  lemma ContinuesEnd(curve: Scripts.Curve, s: seq<byte>, total: nat, rest: seq<byte>, counts: seq<nat>, read: seq<SpentTxOut>)
    requires counts == [] && Continues(curve, s, total, rest, Sum(counts), read)
    ensures ReadBack(curve, s, total) == Some(read)
  {
    assert [] + read == read;
  }

  lemma ContinuesNot(curve: Scripts.Curve, s: seq<byte>, total: nat, rest: seq<byte>, left: nat, read: seq<SpentTxOut>)
    requires left > 0 && DecodeStxo(curve, rest).None? && Continues(curve, s, total, rest, left, read)
    ensures ReadBack(curve, s, total).None?
  {
  }

  lemma SumNext(counts: seq<nat>, i: nat)
    requires i < |counts|
    ensures Sum(counts[..i + 1]) == Sum(counts[..i]) + counts[i]
  {
    assert counts[..i + 1][..i] == counts[..i];
  }

  lemma ContinuesStep(curve: Scripts.Curve, s: seq<byte>, total: nat, rest: seq<byte>, left: nat, read: seq<SpentTxOut>)
    requires left > 0 && DecodeStxo(curve, rest).Some? && Continues(curve, s, total, rest, left, read)
    ensures
      var x := DecodeStxo(curve, rest).value;
      Continues(curve, s, total, rest[x.bytesRead..], left - 1, [x.stxo] + read)
  {
    hide DecodeStxo;
    var x := DecodeStxo(curve, rest).value;
    var r := ReadBack(curve, rest[x.bytesRead..], left - 1);
    if r.Some? {
      assert r.value + [x.stxo] + read == r.value + ([x.stxo] + read);
    }
  }

  /** An unspent output is stored as header code and output, without the reserved byte. */
  function EncodeUtxo(curve: Scripts.Curve, x: SpentTxOut): seq<byte> {
    Vlq.Encode(HeaderCode(x)) + EncodeTxOut(curve, x.amount % TWO_64, x.script)
  }

  function DecodeUtxo(curve: Scripts.Curve, s: seq<byte>): Option<SpentTxOut> {
    var code, offset := Vlq.Value(s) % TWO_64, Vlq.Size(s);
    if offset >= |s| then None
    else
      var out := DecodeTxOut(curve, s[offset..]);
      if out.None? then None
      else Some(SpentTxOut(Scripts.ToInt64(out.value.amount), out.value.script, ToInt32(code / 2), code % 2 != 0))
  }

  /** The unspent output set gives back what was stored in it, under the same condition. */
  lemma UtxoRoundTrip(curve: Scripts.Curve, x: SpentTxOut)
    requires Scripts.Sec1(curve) && x.Typed()
    ensures DecodeUtxo(curve, EncodeUtxo(curve, x)) == Some(x.Stored())
    ensures x.Stored() == x <==> x.Storable()
  {
    hide Vlq.Encode, Vlq.Value, Vlq.Size, EncodeTxOut, DecodeTxOut, Amounts.Compress, HeaderCode, ToInt32, Scripts.Sec1;
    var h, t := Vlq.Encode(HeaderCode(x)), EncodeTxOut(curve, x.amount % TWO_64, x.script);
    StoredExactly(x);
    HeaderCodeParts(x);
    Vlq.RoundTrip(HeaderCode(x), t);
    TxOutRoundTrip(curve, x.amount % TWO_64, x.script, []);
    assert (h + t)[|h|..] == t + [];
  }
}
