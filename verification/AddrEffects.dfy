/**
 What the operations of the address manager do to the tables, as seen by comparing the tables
 before and after.
 */
module AddrEffects {
  import opened Common
  import opened AddrTables

  /** An address was put into bucket `b`, which had room or was relieved first. */
  ghost predicate PutInto(before: Tables, after: Tables, k: Key, b: nat, bad: Key -> bool)
    requires b < |before.news|
  {
    && after.tried == before.tried && |after.news| == |before.news|
    && (forall c: nat :: c < |before.news| && c != b ==> after.news[c] == before.news[c])
    && (|before.news[b]| <= NEW_BUCKET_SIZE ==> after.news[b] == before.news[b] + {k})
    && (|before.news[b]| > NEW_BUCKET_SIZE ==> k in after.news[b] && Relieved(before, after.news[b] - {k}, b, bad))
    && OthersAfter(before, after, k, b)
  }

  /** Every other record is what it was, except that an address that left bucket `b` has one
      reference less, and is forgotten when that was its last one. */
  ghost predicate OthersAfter(before: Tables, after: Tables, k: Key, b: nat)
    requires b < |before.news| == |after.news|
  {
    forall m :: m in before.index && m != k ==>
      var ka := before.index[m];
      if m !in before.news[b] - after.news[b] then m in after.index && after.index[m] == ka
      else if ka.refs == 1 then m !in after.index
      else m in after.index && after.index[m] == ka.(refs := ka.refs - 1)
  }

  /** What is left of a bucket that was too full. */
  ghost predicate Relieved(t: Tables, rest: set<Key>, b: nat, bad: Key -> bool)
    requires b < |t.news|
  {
    && rest <= t.news[b]
    && (forall m :: m in rest ==> !bad(m))
    && ((forall m :: m in t.news[b] ==> bad(m)) || exists o :: OldestGone(t, rest, b, bad, o))
  }

  ghost predicate OldestGone(t: Tables, rest: set<Key>, b: nat, bad: Key -> bool, o: Key)
    requires b < |t.news|
  {
    && o in t.news[b] && !bad(o)
    && (forall m :: m in t.news[b] && !bad(m) ==> Get(t.index, o).timestamp <= Get(t.index, m).timestamp)
    && forall m :: m in t.news[b] ==> (m in rest <==> !bad(m) && m != o)
  }

  lemma ExpiredIsRelieved(t: Tables, k: Key, b: nat, bad: Key -> bool, gone: set<Key>)
    requires b < |t.news| && k !in t.news[b] && MayExpire(t, b, bad, gone)
    ensures Relieved(t, (t.news[b] - gone + {k}) - {k}, b, bad)
  {
    var rest := (t.news[b] - gone + {k}) - {k};
    assert rest == t.news[b] - gone;
    if Kept(t, b, bad) == {} {
      forall m | m in t.news[b] ensures bad(m) {
        assert m !in Kept(t, b, bad);
      }
    } else {
      var o :| o in Kept(t, b, bad) && IsOldest(t.index, Kept(t, b, bad), o) && gone == t.news[b] - Kept(t, b, bad) + {o};
      assert OldestGone(t, rest, b, bad, o);
    }
  }

  /** Dropping others from a bucket leaves an address, the other buckets and the tried ones alone. */
  lemma DropOthers(t: Tables, b: nat, gone: set<Key>, k: Key)
    requires b < |t.news| && k !in gone
    ensures var u := Drop(t, b, gone);
            Get(u.index, k) == Get(t.index, k) && u.news == t.news[b := t.news[b] - gone] && u.tried == t.tried
  {
  }

  lemma DropRecords(t: Tables, k: Key, b: nat, gone: set<Key>)
    requires b < |t.news| && gone <= t.news[b] && k !in t.news[b]
    ensures OthersAfter(t, Place(Drop(t, b, gone), k, b), k, b)
  {
    var u := Place(Drop(t, b, gone), k, b);
    assert t.news[b] - u.news[b] == gone;
  }

  lemma PlacedIsPut(t: Tables, k: Key, b: nat, bad: Key -> bool, u: Tables)
    requires b < |t.news| && k !in t.news[b] && Placed(t, k, b, bad, u)
    ensures PutInto(t, u, k, b, bad)
    ensures k in u.index && u.index[k] == Get(t.index, k).(refs := Get(t.index, k).refs + 1)
  {
    hide MayExpire, Relieved, Drop, Get, OthersAfter;
    if |t.news[b]| > NEW_BUCKET_SIZE {
      var gone :| MayExpire(t, b, bad, gone) && u == Place(Drop(t, b, gone), k, b);
      DropOthers(t, b, gone, k);
      ExpiredIsRelieved(t, k, b, bad, gone);
      DropRecords(t, k, b, gone);
    } else {
      PlaceRecords(t, k, b);
    }
  }

  lemma PlaceRecords(t: Tables, k: Key, b: nat)
    requires b < |t.news|
    ensures OthersAfter(t, Place(t, k, b), k, b)
  {
  }

  /** A change to the record of the address itself does not matter to what happens to others. */
  lemma PutRegardless(r: Tables, t: Tables, u: Tables, k: Key, b: nat, bad: Key -> bool)
    requires b < |t.news| && r.news == t.news && r.tried == t.tried && k !in t.news[b]
    requires forall m :: m != k && m in t.index ==> m in r.index && r.index[m] == t.index[m]
    requires forall m :: m in t.news[b] ==> m in t.index
    requires PutInto(r, u, k, b, bad)
    ensures PutInto(t, u, k, b, bad)
  {
    hide Relieved, OthersAfter;
    OthersRegardless(r, t, u, k, b);
    if |t.news[b]| > NEW_BUCKET_SIZE {
      RelievedRegardless(r, t, u.news[b] - {k}, k, b, bad);
    }
  }

  lemma OthersRegardless(r: Tables, t: Tables, u: Tables, k: Key, b: nat)
    requires b < |t.news| == |u.news| && r.news == t.news
    requires forall m :: m != k && m in t.index ==> m in r.index && r.index[m] == t.index[m]
    requires OthersAfter(r, u, k, b)
    ensures OthersAfter(t, u, k, b)
  {
  }

  lemma RelievedRegardless(r: Tables, t: Tables, rest: set<Key>, k: Key, b: nat, bad: Key -> bool)
    requires b < |t.news| && r.news == t.news && k !in t.news[b]
    requires forall m :: m != k && m in t.index ==> m in r.index && r.index[m] == t.index[m]
    requires forall m :: m in t.news[b] ==> m in t.index
    requires Relieved(r, rest, b, bad)
    ensures Relieved(t, rest, b, bad)
  {
    if !(forall m :: m in t.news[b] ==> bad(m)) {
      var o :| OldestGone(r, rest, b, bad, o);
      assert OldestGone(t, rest, b, bad, o);
    }
  }

  lemma HeldIsKnown(t: Tables, b: nat)
    requires NewOk(t) && b < |t.news|
    ensures forall m :: m in t.news[b] ==> m in t.index && !t.index[m].tried
  {
    assert t.news[b] <= Untried(t.index);
  }

  /** A new address ends up untried in its bucket, with one reference and its timestamp. */
  lemma AddEffect(t: Tables, k: Key, timestamp: int, services: bool, random: nat, b: nat, bad: Key -> bool, u: Tables)
    requires Inv(t) && b < NEW_BUCKET_COUNT && k !in t.index && Updated(t, k, timestamp, services, random, b, bad, u)
    ensures k in u.index && u.index[k] == Known(timestamp, 1, false)
    ensures PutInto(t, u, k, b, bad)
  {
    hide RefsOk, TriedOk, CountsOk, SizesOk, NewOk, PutInto, Placed;
    HeldIsKnown(t, b);
    PlacedIsPut(Register(t, k, timestamp), k, b, bad, u);
    PutRegardless(Register(t, k, timestamp), t, u, k, b, bad);
  }

  /** Whether an announcement of a known address puts it into one more bucket. */
  ghost predicate Spreads(t: Tables, k: Key, random: nat, b: nat)
    requires k in t.index && b < |t.news|
  {
    var ka := t.index[k];
    !ka.tried && 0 < ka.refs < NEW_BUCKETS_PER_ADDRESS && random % (2 * ka.refs) == 0 && k !in t.news[b]
  }

  /** A known address takes the announced timestamp exactly when that is later or services are
      new. It gets one more bucket exactly when it is untried, below the limit, not in that
      bucket and the draw is zero; otherwise nothing else changes. */
  lemma RefreshEffect(t: Tables, k: Key, timestamp: int, services: bool, random: nat, b: nat, bad: Key -> bool, u: Tables)
    requires Inv(t) && b < NEW_BUCKET_COUNT && k in t.index && Updated(t, k, timestamp, services, random, b, bad, u)
    ensures k in u.index
    ensures u.index[k].timestamp == if timestamp > t.index[k].timestamp || services then timestamp else t.index[k].timestamp
    ensures u.index[k].tried == t.index[k].tried
    ensures u.index[k].refs == t.index[k].refs + if Spreads(t, k, random, b) then 1 else 0
    ensures Spreads(t, k, random, b) ==> PutInto(t, u, k, b, bad)
    ensures !Spreads(t, k, random, b) ==> u == t.(index := t.index[k := u.index[k]])
  {
    hide RefsOk, TriedOk, CountsOk, SizesOk, NewOk, PutInto, Placed;
    HeldIsKnown(t, b);
    var r := Refreshed(t, k, timestamp, services);
    if Spreads(t, k, random, b) {
      PlacedIsPut(r, k, b, bad, u);
      PutRegardless(r, t, u, k, b, bad);
    } else {
      RefsBounded(t, k);
      NotSpread(r, k, random, b, bad, u);
    }
  }

  lemma RefsBounded(t: Tables, k: Key)
    requires RefsOk(t, None) && k in t.index
    ensures 0 <= t.index[k].refs <= NEW_BUCKETS_PER_ADDRESS
    ensures t.index[k].tried ==> t.index[k].refs == 0
  {
    hide Holders;
    assert RefOk(t, k, false);
  }

  lemma NotSpread(t: Tables, k: Key, random: nat, b: nat, bad: Key -> bool, u: Tables)
    requires Sized(t) && b < NEW_BUCKET_COUNT && k in t.index && t.index[k].refs <= NEW_BUCKETS_PER_ADDRESS
    requires UpdatedKnown(t, k, random, b, bad, u) && !Spreads(t, k, random, b)
    ensures u == t
  {
  }

  /** The new buckets once an address has left them all and another, if any, has come to one. */
  ghost predicate Left(before: Tables, after: Tables, k: Key, into: nat, rm: set<Key>) {
    && |after.news| == |before.news|
    && forall c: nat :: c < |before.news| ==> after.news[c] == before.news[c] - {k} + if c == into then rm else {}
  }

  /** The records once `k` has become tried and `rm`, if any, untried. */
  ghost predicate KindsAfter(before: Tables, after: Tables, k: Key, rm: set<Key>)
    requires k in before.index
  {
    && after.index.Keys == before.index.Keys
    && after.index[k] == Known(before.index[k].timestamp, 0, true)
    && (forall m :: m in rm && m in before.index ==> after.index[m] == Known(before.index[m].timestamp, 1, false))
    && forall m :: m in before.index && m != k && m !in rm ==> after.index[m] == before.index[m]
  }

  /** The tried buckets once `k` has taken slot `j` of bucket `tb`. */
  ghost predicate TookSlot(before: Tables, after: Tables, k: Key, tb: nat, j: nat)
    requires tb < |before.tried|
  {
    && |after.tried| == |before.tried| && j < |after.tried[tb]| && after.tried[tb][j] == k
    && (forall c: nat :: c < |before.tried| && c != tb ==> after.tried[c] == before.tried[c])
    && forall i: nat :: i < |before.tried[tb]| && i != j ==> i < |after.tried[tb]| && after.tried[tb][i] == before.tried[tb][i]
  }

  /** `k` traded places with the entry in slot `j`, which no other entry of the bucket is older
      than. That entry went to its own new bucket if there was room, and otherwise to the first
      of those that `k` left. */
  ghost predicate Traded(t: Tables, u: Tables, k: Key, tb: nat, nb: nat, j: nat, into: nat)
    requires tb < |t.tried| && nb < |t.news| && k in t.index
  {
    && j < |t.tried[tb]|
    && var rm := t.tried[tb][j];
    && rm in t.index && rm != k
    && (forall m :: m in t.tried[tb] ==> t.index[rm].timestamp <= Get(t.index, m).timestamp)
    && KindsAfter(t, u, k, {rm})
    && TookSlot(t, u, k, tb, j) && |u.tried[tb]| == |t.tried[tb]|
    && Left(t, u, k, into, {rm})
    && (if |t.news[nb] - {k}| < NEW_BUCKET_SIZE then into == nb else Earliest(t, k, into))
    && u.nNew == t.nNew && u.nTried == t.nTried
  }

  ghost predicate Earliest(t: Tables, k: Key, b: nat) {
    b < |t.news| && k in t.news[b] && forall c: nat :: c < b ==> k !in t.news[c]
  }

  /** An unknown or tried address stays as it is. An untried one leaves all new buckets and
      becomes tried. If its tried bucket had room, it is added at the end and nothing else
      changes; otherwise it trades places with an oldest entry of that bucket. */
  ghost predicate MadeGood(t: Tables, u: Tables, k: Key, tb: nat, nb: nat)
    requires Sized(t) && tb < TRIED_BUCKET_COUNT && nb < NEW_BUCKET_COUNT
  {
    if k !in t.index || t.index[k].tried then u == t
    else if |t.tried[tb]| < TRIED_BUCKET_SIZE then
      && KindsAfter(t, u, k, {}) && Left(t, u, k, 0, {})
      && TookSlot(t, u, k, tb, |t.tried[tb]|) && |u.tried[tb]| == |t.tried[tb]| + 1
      && u.nNew == t.nNew - 1 && u.nTried == t.nTried + 1
    else exists j: nat, into: nat :: Traded(t, u, k, tb, nb, j, into)
  }

  lemma GoodEffect(t: Tables, k: Key, tb: nat, nb: nat)
    requires Inv(t) && tb < TRIED_BUCKET_COUNT && nb < NEW_BUCKET_COUNT
    ensures MadeGood(t, Good(t, k, tb, nb), k, tb, nb)
  {
    hide RefsOk, NewOk, TriedOk, CountsOk, Swap, Move, Traded, KindsAfter, TookSlot, Left;
    if k in t.index && !t.index[k].tried {
      AlwaysHeld(t, k);
      if |t.tried[tb]| < TRIED_BUCKET_SIZE {
        MoveEffect(t, k, tb);
      } else {
        var first, j := FirstHolder(t.news, k, 0), PickTried(t.index, t.tried[tb]);
        ListedIsTried(t, tb, j);
        RefsBounded(t, t.tried[tb][j]);
        assert Without(t.news, k)[nb] == t.news[nb] - {k};
        TradeEffect(t, k, tb, nb, if |t.news[nb] - {k}| >= NEW_BUCKET_SIZE then first else nb);
      }
    }
  }

  lemma MoveEffect(t: Tables, k: Key, tb: nat)
    requires tb < |t.tried| && k in t.index
    ensures var u := Move(t, k, tb);
            && KindsAfter(t, u, k, {}) && Left(t, u, k, 0, {})
            && TookSlot(t, u, k, tb, |t.tried[tb]|) && |u.tried[tb]| == |t.tried[tb]| + 1
            && u.nNew == t.nNew - 1 && u.nTried == t.nTried + 1
  {
  }

  lemma TradeEffect(t: Tables, k: Key, tb: nat, nb: nat, into: nat)
    requires tb < |t.tried| && t.tried[tb] != [] && nb < |t.news| && k in t.index && into < |t.news|
    requires var rm := t.tried[tb][PickTried(t.index, t.tried[tb])]; rm in t.index && rm != k && t.index[rm].refs == 0
    requires if |t.news[nb] - {k}| < NEW_BUCKET_SIZE then into == nb else Earliest(t, k, into)
    ensures var j := PickTried(t.index, t.tried[tb]); Traded(t, Swap(t, k, tb, j, into), k, tb, nb, j, into)
  {
    hide PickTried, Swap, KindsAfter, TookSlot, Left;
    var j := PickTried(t.index, t.tried[tb]);
    SwapRecords(t, k, tb, j, into);
    SwapBuckets(t, k, tb, j, into);
  }

  lemma SwapRecords(t: Tables, k: Key, tb: nat, j: nat, into: nat)
    requires tb < |t.tried| && j < |t.tried[tb]| && into < |t.news| && k in t.index
    requires var rm := t.tried[tb][j]; rm in t.index && rm != k && t.index[rm].refs == 0
    ensures KindsAfter(t, Swap(t, k, tb, j, into), k, {t.tried[tb][j]})
  {
    hide Without;
  }

  lemma SwapBuckets(t: Tables, k: Key, tb: nat, j: nat, into: nat)
    requires tb < |t.tried| && j < |t.tried[tb]| && into < |t.news|
    ensures var u := Swap(t, k, tb, j, into);
            && TookSlot(t, u, k, tb, j) && |u.tried[tb]| == |t.tried[tb]|
            && Left(t, u, k, into, {t.tried[tb][j]})
            && u.nNew == t.nNew && u.nTried == t.nTried
  {
  }
}
