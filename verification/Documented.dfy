/**
 The byte formats on the values that the documentation of blockchain/compress.go and
 blockchain/chainio.go spells out. With the round trips these fix the formats, not only their
 invertibility.
 */
module Documented {
  import opened Common
  import Vlq
  import Amounts
  import Scripts
  import opened SpendJournal

  lemma AmountOf(n: nat, e: nat, amount: nat)
    requires 0 < n < 1_000_000_000 && e < 9 && n % 10 != 0 && amount == n * Amounts.Pow10(e)
    ensures Amounts.Compress(amount) == 1 + 10 * (9 * (n / 10) + n % 10 - 1) + e
  {
    Amounts.CompressFormula(n, e);
  }

  lemma ThreeBytes(n: nat)
    requires 16512 <= n < 2113664
    ensures Vlq.Encode(n) == [(n / 128 - 1) / 128 - 1 + 128, (n / 128 - 1) % 128 + 128, n % 128]
  {
    hide Vlq.Encode, Vlq.Leading;
    Vlq.LeadingStep(n);
    Vlq.LeadingStep(n / 128 - 1);
    Vlq.LeadingStep((n / 128 - 1) / 128 - 1);
  }

  /** An unspent output of block 338156 that pays to a script hash. */
  lemma UnspentExample(curve: Scripts.Curve, h: seq<byte>)
    requires |h| == 20
    ensures EncodeUtxo(curve, SpentTxOut(366875659, Scripts.PayToScriptHash(h), 338156, false))
            == [0xa8, 0xa2, 0x58, 0x8b, 0xa5, 0xb9, 0xe7, 0x63, 0x01] + h
  {
    hide Scripts.Compress, Scripts.PayToScriptHash, Amounts.Compress, Vlq.Encode, Vlq.Leading;
    Scripts.HashForms(curve, h);
    ThreeBytes(676312);
    assert Amounts.Pow10(0) == 1;
    AmountOf(366875659, 0, 366875659);
    FiveBytes();
  }

  lemma FiveBytes()
    ensures Vlq.Encode(3301880931) == [0x8b, 0xa5, 0xb9, 0xe7, 0x63]
  {
    hide Vlq.Encode, Vlq.Leading;
    Vlq.LeadingStep(3301880931);
    Vlq.LeadingStep(25795943);
    Vlq.LeadingStep(201529);
    Vlq.LeadingStep(1573);
    Vlq.LeadingStep(11);
  }

  /** An output of block 100024 that pays to a key hash, as a journal entry. */
  lemma EntryExample(curve: Scripts.Curve, h: seq<byte>, n: nat, amount: nat)
    requires |h| == 20 && 16512 <= n < 2113664 && Amounts.Compress(amount) == n && amount < TWO_63
    ensures EncodeStxo(curve, SpentTxOut(amount, Scripts.PayToPubKeyHash(h), 100024, false))
            == [0x8b, 0x99, 0x70, 0x00] + Vlq.Encode(n) + [0x00] + h
  {
    hide Scripts.Compress, Scripts.PayToPubKeyHash, Amounts.Compress, Vlq.Encode;
    Scripts.HashForms(curve, h);
    ThreeBytes(200048);
    Vlq.LeadingStep(0);
  }

  /** The journal entry of block 100025: two outputs that pay to key hashes, last one first. */
  lemma JournalExample(curve: Scripts.Curve, first: seq<byte>, last: seq<byte>)
    requires |first| == |last| == 20
    ensures
      EncodeJournal(curve, [
        SpentTxOut(13761000000, Scripts.PayToPubKeyHash(first), 100024, false),
        SpentTxOut(34405000000, Scripts.PayToPubKeyHash(last), 100024, false)])
      == [0x8b, 0x99, 0x70, 0x00, 0x91, 0xf2, 0x0f, 0x00] + last + [0x8b, 0x99, 0x70, 0x00, 0x86, 0xc6, 0x47, 0x00] + first
  {
    hide Scripts.PayToPubKeyHash, Amounts.Compress, Vlq.Encode, EncodeStxo;
    assert Amounts.Pow10(6) == 1000000;
    AmountOf(34405, 6, 34405000000);
    AmountOf(13761, 6, 13761000000);
    ThreeBytes(309647);
    ThreeBytes(123847);
    EntryExample(curve, first, 123847, 13761000000);
    EntryExample(curve, last, 309647, 34405000000);
    var a := SpentTxOut(13761000000, Scripts.PayToPubKeyHash(first), 100024, false);
    var b := SpentTxOut(34405000000, Scripts.PayToPubKeyHash(last), 100024, false);
    assert [a, b][..1] == [a] && [a][..0] == [];
    assert EncodeJournal(curve, [a]) == EncodeStxo(curve, a) + EncodeJournal(curve, []);
  }

  /** A journal entry of block 170: a coinbase output of block 9 that pays to an uncompressed key
      with an odd y-coordinate. */
  lemma CoinbaseExample(curve: Scripts.Curve, key: seq<byte>, x: seq<byte>, y: seq<byte>)
    requires Scripts.IsKey(curve, key, 4, x, y) && y[31] % 2 == 1
    ensures EncodeStxo(curve, SpentTxOut(5000000000, Scripts.PayToPubKey(key), 9, true)) == [0x13, 0x00, 0x32, 0x05] + x
  {
    hide Scripts.Compress, Scripts.PayToPubKey, Amounts.Compress, Vlq.Encode;
    Scripts.KeyForms(curve, key, 4, x, y);
    assert Amounts.Pow10(9) == 1000000000;
    Amounts.CompressFormula(5, 9);
    Vlq.LeadingStep(0x13);
    Vlq.LeadingStep(0);
    Vlq.LeadingStep(50);
  }
}
