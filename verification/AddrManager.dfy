/**
 The address manager of addrmgr/addrmanager.go. Its operations update the tables in place and
 are proved to be the steps of `AddrTables`.
 */
module AddrManagers {
  import opened Common
  import opened AddrTables
  import AddrEffects
  import opened PeersFiles

  /** Dropping one more entry of a bucket is dropping them together. */
  lemma DropMore(t: Tables, b: nat, gone: set<Key>, k: Key)
    requires b < |t.news| && gone <= t.news[b] && k in t.news[b] && k !in gone
    ensures Drop(Drop(t, b, gone), b, {k}) == Drop(t, b, gone + {k})
  {
    var u, v, w := Drop(t, b, gone), Drop(Drop(t, b, gone), b, {k}), Drop(t, b, gone + {k});
    DropMoreCount(t, b, gone, k);
    assert v.index == w.index;
    assert v.news[b] == w.news[b];
    assert v.news == w.news;
  }

  lemma DropMoreCount(t: Tables, b: nat, gone: set<Key>, k: Key)
    requires b < |t.news| && gone <= t.news[b] && k in t.news[b] && k !in gone
    ensures Drop(Drop(t, b, gone), b, {k}).nNew == Drop(t, b, gone + {k}).nNew
  {
    var lost, more := Lost(t.index, gone), Lost(Drop(t, b, gone).index, {k});
    assert lost !! more && Lost(t.index, gone + {k}) == lost + more;
  }

  /** The rest of the bucket is still there, with unchanged records. */
  lemma DropRest(t: Tables, b: nat, gone: set<Key>, k: Key)
    requires Sized(t) && NewOk(t) && b < NEW_BUCKET_COUNT && gone <= t.news[b] && k in t.news[b] && k !in gone
    ensures var u := Drop(t, b, gone); Sized(u) && k in u.news[b] && k in t.index && k in u.index && u.index[k] == t.index[k]
  {
  }

  lemma DropNone(t: Tables, b: nat)
    requires b < |t.news|
    ensures Drop(t, b, {}) == t
  {
    var u := Drop(t, b, {});
    assert Lost(t.index, {}) == {};
    assert u.index == t.index;
    assert u.news[b] == t.news[b];
    assert u.news == t.news;
  }

  /** The oldest of the entries of a bucket that are not bad and have been looked at. */
  ghost predicate OldestSeen(t: Tables, b: nat, bad: Key -> bool, ahead: set<Key>, oldest: Option<Key>)
    requires b < |t.news|
  {
    var seen := Kept(t, b, bad) - ahead;
    if oldest.None? then seen == {} else oldest.value in seen && IsOldest(t.index, seen, oldest.value)
  }

  ghost function BadSeen(t: Tables, b: nat, bad: Key -> bool, ahead: set<Key>): set<Key>
    requires b < |t.news|
  {
    set k | k in t.news[b] && k !in ahead && bad(k)
  }

  /** Looking at one more entry. */
  lemma SeenNext(t: Tables, b: nat, bad: Key -> bool, ahead: set<Key>, oldest: Option<Key>, k: Key)
    requires b < |t.news| && k in ahead && ahead <= t.news[b] && OldestSeen(t, b, bad, ahead, oldest)
    ensures bad(k) ==> BadSeen(t, b, bad, ahead - {k}) == BadSeen(t, b, bad, ahead) + {k}
    ensures !bad(k) ==> BadSeen(t, b, bad, ahead - {k}) == BadSeen(t, b, bad, ahead)
    ensures bad(k) ==> OldestSeen(t, b, bad, ahead - {k}, oldest)
    ensures !bad(k) && (oldest.None? || Get(t.index, k).timestamp <= Get(t.index, oldest.value).timestamp)
            ==> OldestSeen(t, b, bad, ahead - {k}, Some(k))
    ensures !bad(k) && oldest.Some? && Get(t.index, oldest.value).timestamp < Get(t.index, k).timestamp
            ==> OldestSeen(t, b, bad, ahead - {k}, oldest)
  {
    var now, before := Kept(t, b, bad) - (ahead - {k}), Kept(t, b, bad) - ahead;
    assert now == if bad(k) then before else before + {k};
  }

  lemma NoneSeen(t: Tables, b: nat, bad: Key -> bool)
    requires b < |t.news|
    ensures OldestSeen(t, b, bad, t.news[b], None) && BadSeen(t, b, bad, t.news[b]) == {} && Drop(t, b, {}) == t
  {
    DropNone(t, b);
  }

  lemma AllSeen(t: Tables, b: nat, bad: Key -> bool, oldest: Option<Key>)
    requires b < |t.news| && OldestSeen(t, b, bad, {}, oldest)
    ensures oldest.None? ==> MayExpire(t, b, bad, BadSeen(t, b, bad, {}))
    ensures oldest.Some? ==> MayExpire(t, b, bad, BadSeen(t, b, bad, {}) + {oldest.value})
  {
    assert Kept(t, b, bad) - {} == Kept(t, b, bad);
    assert BadSeen(t, b, bad, {}) == t.news[b] - Kept(t, b, bad);
  }

  /** The new buckets with an address taken out of the first `n`. */
  ghost function PartlyWithout(news: seq<set<Key>>, k: Key, n: nat): seq<set<Key>>
    requires n <= |news|
  {
    Without(news[..n], k) + news[n..]
  }

  lemma PartlyEnds(news: seq<set<Key>>, k: Key)
    ensures PartlyWithout(news, k, 0) == news && HeldBelow(news, k, 0) == 0
    ensures PartlyWithout(news, k, |news|) == Without(news, k) && HeldBelow(news, k, |news|) == |Holders(news, k)|
    ensures FirstHolder(news, k, |news|) == |news|
  {
    assert news[..|news|] == news;
  }

  lemma PartlyNext(news: seq<set<Key>>, k: Key, n: nat)
    requires n < |news|
    ensures var now := PartlyWithout(news, k, n);
            && |now| == |news| && now[n] == news[n]
            && PartlyWithout(news, k, n + 1) == if k in news[n] then now[n := now[n] - {k}] else now
  {
    var now, next := PartlyWithout(news, k, n), PartlyWithout(news, k, n + 1);
    assert next == now[n := now[n] - {k}];
    assert k !in news[n] ==> news[n] - {k} == news[n];
  }

  lemma FirstNext(news: seq<set<Key>>, k: Key, i: nat)
    requires i < |news|
    ensures FirstHolder(news, k, i) == if k in news[i] then i else FirstHolder(news, k, i + 1)
  {
  }

  lemma RefsRight(t: Tables, k: Key)
    requires Inv(t) && k in t.index
    ensures t.index[k].refs == |Holders(t.news, k)|
  {
    assert RefOk(t, k, false);
  }

  lemma NotHeld(news: seq<set<Key>>, k: Key)
    requires FirstHolder(news, k, 0) == |news|
    ensures Holders(news, k) == {} && Without(news, k) == news
  {
    assert forall i: nat :: i < |news| ==> news[i] - {k} == news[i];
  }

  lemma AllListedAreTried(t: Tables, k: Key, tb: nat)
    requires Inv(t) && k in t.index && !t.index[k].tried && tb < |t.tried|
    ensures forall j: nat :: j < |t.tried[tb]| ==> t.tried[tb][j] in t.index && t.tried[tb][j] != k
  {
    forall j: nat | j < |t.tried[tb]| ensures t.tried[tb][j] in t.index && t.tried[tb][j] != k {
      ListedIsTried(t, tb, j);
    }
  }

  /** The choice only depends on the timestamps. */
  lemma {:induction false} PickSame(index: map<Key, Known>, other: map<Key, Known>, bucket: seq<Key>)
    requires bucket != []
    requires forall j: nat :: j < |bucket| ==> Get(index, bucket[j]).timestamp == Get(other, bucket[j]).timestamp
    ensures PickTried(index, bucket) == PickTried(other, bucket)
  {
    if |bucket| > 1 {
      PickSame(index, other, bucket[..|bucket| - 1]);
    }
  }

  /** An address taken out of all new buckets and no longer counted. */
  ghost function Removed(t: Tables, k: Key): Tables
    requires k in t.index
  {
    t.(index := t.index[k := t.index[k].(refs := 0)], news := Without(t.news, k), nNew := t.nNew - 1)
  }

  /** The exchange seen from the state in which the new address is already removed. */
  lemma SwapRemoved(t: Tables, k: Key, tb: nat, j: nat, b: nat)
    requires k in t.index && tb < |t.tried| && j < |t.tried[tb]| && b < |t.news|
    requires t.tried[tb][j] in t.index && t.tried[tb][j] != k
    ensures var r, rm := Removed(t, k), t.tried[tb][j];
            && |r.news| == |t.news|
            && Swap(t, k, tb, j, b) == Tables(
                 r.index[k := r.index[k].(tried := true)][rm := r.index[rm].(tried := false, refs := r.index[rm].refs + 1)],
                 r.news[b := r.news[b] + {rm}],
                 t.tried[tb := t.tried[tb][j := k]],
                 r.nNew + 1,
                 r.nTried)
  {
    var r, rm := Removed(t, k), t.tried[tb][j];
    var ka := t.index[k].(refs := 0, tried := true);
    assert r.index[k := r.index[k].(tried := true)] == t.index[k := ka];
  }

  /** Freshly listed addresses: no references, not tried. */
  ghost predicate Blank(index: map<Key, Known>) {
    forall k :: k in index ==> index[k].refs == 0 && !index[k].tried
  }

  lemma ListedNext(parse: Parser, addresses: seq<SavedAddress>, i: nat)
    requires i < |addresses| && parse(addresses[i].addr).Some?
    ensures Listed(parse, addresses[..i + 1]) == Listed(parse, addresses[..i]) + {parse(addresses[i].addr).value}
  {
    var now, next := addresses[..i], addresses[..i + 1];
    assert next[i] == addresses[i];
    assert forall a :: a in next <==> a in now || a == addresses[i];
  }

  /** References count the entries read so far; nothing is tried yet. */
  ghost predicate Counted(index: map<Key, Known>, keys: set<Key>, done: seq<seq<Key>>) {
    index.Keys == keys && forall k :: k in index ==> index[k].refs == Occurrences(done, k) && !index[k].tried
  }

  lemma OccurrencesAdd(before: seq<seq<Key>>, bucket: seq<Key>, k: Key)
    ensures Occurrences(before + [bucket], k) == Occurrences(before, k) + multiset(bucket)[k]
  {
    assert (before + [bucket])[..|before|] == before;
  }

  lemma OccurrencesNext(before: seq<seq<Key>>, bucket: seq<Key>, j: nat, k: Key)
    requires j < |bucket|
    ensures Occurrences(before + [bucket[..j + 1]], k)
            == Occurrences(before + [bucket[..j]], k) + if k == bucket[j] then 1 else 0
  {
    OccurrencesAdd(before, bucket[..j], k);
    OccurrencesAdd(before, bucket[..j + 1], k);
    assert bucket[..j + 1] == bucket[..j] + [bucket[j]];
  }

  lemma CountedStart(index: map<Key, Known>, keys: set<Key>, before: seq<seq<Key>>, bucket: seq<Key>)
    requires Counted(index, keys, before)
    ensures Counted(index, keys, before + [bucket[..0]]) && Elements(bucket[..0]) == {}
  {
    assert bucket[..0] == [];
    forall k | k in index ensures index[k].refs == Occurrences(before + [[]], k) {
      OccurrencesAdd(before, [], k);
    }
  }

  lemma NoneCounted(index: map<Key, Known>)
    requires Blank(index)
    ensures Counted(index, index.Keys, []) && Referenced(index) == {} && AllIn([], index.Keys) && Total([]) == 0
  {
  }

  lemma CountedKeys(index: map<Key, Known>, keys: set<Key>, done: seq<seq<Key>>)
    requires Counted(index, keys, done)
    ensures index.Keys == keys && forall k :: k in index ==> index[k].refs >= 0
  {
  }

  lemma CountedNext(index: map<Key, Known>, keys: set<Key>, before: seq<seq<Key>>, bucket: seq<Key>, j: nat)
    requires j < |bucket| && bucket[j] in index && Counted(index, keys, before + [bucket[..j]])
    ensures var k := bucket[j];
            var next := index[k := index[k].(refs := index[k].refs + 1)];
            && Counted(next, keys, before + [bucket[..j + 1]])
            && |Referenced(next)| == |Referenced(index)| + if index[k].refs == 0 then 1 else 0
    ensures Elements(bucket[..j + 1]) == Elements(bucket[..j]) + {bucket[j]}
  {
    var k := bucket[j];
    var next := index[k := index[k].(refs := index[k].refs + 1)];
    hide Occurrences, Referenced;
    assert bucket[..j + 1] == bucket[..j] + [k];
    assert Elements(bucket[..j + 1]) == Elements(bucket[..j]) + {k};
    forall m | m in next ensures next[m].refs == Occurrences(before + [bucket[..j + 1]], m) {
      OccurrencesNext(before, bucket, j, m);
    }
    ReferencedNext(index, k);
  }

  lemma ReferencedNext(index: map<Key, Known>, k: Key)
    requires k in index && index[k].refs >= 0
    ensures var next := index[k := index[k].(refs := index[k].refs + 1)];
            |Referenced(next)| == |Referenced(index)| + if index[k].refs == 0 then 1 else 0
  {
    var next := index[k := index[k].(refs := index[k].refs + 1)];
    assert index[k].refs > 0 ==> Referenced(next) == Referenced(index);
    assert index[k].refs == 0 ==> k !in Referenced(index) && Referenced(next) == Referenced(index) + {k};
  }

  lemma SomeReferenced(index: map<Key, Known>, k: Key)
    requires k in index && index[k].refs > 0
    ensures |Referenced(index)| > 0
  {
    assert k in Referenced(index);
  }

  /** The tried marks are those of the entries read so far; the rest is unchanged. */
  ghost predicate Marked(before: map<Key, Known>, index: map<Key, Known>, done: seq<seq<Key>>) {
    && index.Keys == before.Keys
    && forall k :: k in index ==> index[k].refs == before[k].refs && (index[k].tried <==> ListedAt(done, k))
  }

  lemma ListedAdd(before: seq<seq<Key>>, bucket: seq<Key>, k: Key)
    ensures ListedAt(before + [bucket], k) <==> ListedAt(before, k) || k in bucket
  {
    var all := before + [bucket];
    if ListedAt(before, k) {
      var b: nat, j: nat :| b < |before| && j < |before[b]| && before[b][j] == k;
      assert all[b][j] == k;
    }
    if k in bucket {
      var j: nat :| j < |bucket| && bucket[j] == k;
      assert all[|before|][j] == k;
    }
  }

  lemma TotalAdd(before: seq<seq<Key>>, bucket: seq<Key>)
    ensures Total(before + [bucket]) == Total(before) + |bucket|
  {
    assert (before + [bucket])[..|before|] == before;
  }

  lemma NoneMarked(index: map<Key, Known>)
    requires forall k :: k in index ==> !index[k].tried
    ensures Marked(index, index, []) && AllIn([], index.Keys) && Total([]) == 0
  {
  }

  lemma AllInNext(buckets: seq<seq<Key>>, keys: set<Key>, i: nat)
    requires i < |buckets|
    ensures AllIn(buckets[..i + 1], keys) <==> AllIn(buckets[..i], keys) && forall j: nat :: j < |buckets[i]| ==> buckets[i][j] in keys
    ensures AllIn(buckets, keys) ==> AllIn(buckets[..i + 1], keys)
  {
    var some, less := buckets[..i + 1], buckets[..i];
    if AllIn(some, keys) {
      forall b: nat, j: nat | b < |less| && j < |less[b]| ensures less[b][j] in keys {
        assert some[b][j] in keys;
      }
      forall j: nat | j < |buckets[i]| ensures buckets[i][j] in keys {
        assert some[i][j] in keys;
      }
    }
    if AllIn(less, keys) && forall j: nat :: j < |buckets[i]| ==> buckets[i][j] in keys {
      forall b: nat, j: nat | b < |some| && j < |some[b]| ensures some[b][j] in keys {
        assert b < i ==> less[b][j] in keys;
      }
    }
  }

  lemma MarkedKeys(was: map<Key, Known>, index: map<Key, Known>, done: seq<seq<Key>>)
    requires Marked(was, index, done)
    ensures index.Keys == was.Keys
  {
  }

  lemma MarkedStart(was: map<Key, Known>, index: map<Key, Known>, before: seq<seq<Key>>, bucket: seq<Key>)
    requires Marked(was, index, before)
    ensures Marked(was, index, before + [bucket[..0]]) && Total(before + [bucket[..0]]) == Total(before)
  {
    assert bucket[..0] == [];
    TotalAdd(before, []);
    forall k | k in index ensures index[k].tried <==> ListedAt(before + [[]], k) {
      ListedAdd(before, [], k);
    }
  }

  lemma MarkedNext(was: map<Key, Known>, index: map<Key, Known>, before: seq<seq<Key>>, bucket: seq<Key>, j: nat)
    requires j < |bucket| && bucket[j] in index && Marked(was, index, before + [bucket[..j]])
    ensures Marked(was, index[bucket[j] := index[bucket[j]].(tried := true)], before + [bucket[..j + 1]])
    ensures Total(before + [bucket[..j + 1]]) == Total(before + [bucket[..j]]) + 1
  {
    hide ListedAt;
    TotalAdd(before, bucket[..j]);
    TotalAdd(before, bucket[..j + 1]);
    assert bucket[..j + 1] == bucket[..j] + [bucket[j]];
    forall k | k in index
      ensures ListedAt(before + [bucket[..j + 1]], k) <==> ListedAt(before + [bucket[..j]], k) || k == bucket[j]
    {
      ListedAdd(before, bucket[..j], k);
      ListedAdd(before, bucket[..j + 1], k);
    }
  }

  lemma LoadedAll(s: Saved, counted: map<Key, Known>, index: map<Key, Known>)
    requires Counted(counted, counted.Keys, s.newBuckets) && Marked(counted, index, s.triedBuckets)
    ensures (forall k :: k in index ==> (index[k].refs > 0 <==> !index[k].tried))
            == (forall k :: k in counted.Keys ==> (Occurrences(s.newBuckets, k) > 0 <==> !ListedAt(s.triedBuckets, k)))
    ensures forall k :: k in index ==> index[k].refs == Occurrences(s.newBuckets, k) && index[k].refs >= 0
    ensures Referenced(index) == Referenced(counted)
  {
    hide Occurrences, ListedAt;
    assert forall k :: k in counted.Keys ==> k in index;
  }

  class AddrManager {
    var addrIndex: map<Key, Known>
    var addrNew: seq<set<Key>>
    var addrTried: seq<seq<Key>>
    var nNew: int
    var nTried: int

    function State(): Tables
      reads this
    {
      Tables(addrIndex, addrNew, addrTried, nNew, nTried)
    }

    constructor ()
      ensures State() == Empty() && Inv(State())
    {
      addrIndex, nNew, nTried := map[], 0, 0;
      addrNew := seq(NEW_BUCKET_COUNT, _ => {});
      addrTried := seq(TRIED_BUCKET_COUNT, _ => []);
      new;
      EmptyInv();
    }

    /** Takes one entry out of a new bucket. */
    method Release(b: nat, k: Key)
      requires Sized(State()) && b < NEW_BUCKET_COUNT && k in addrNew[b] && k in addrIndex
      modifies this`addrIndex, this`addrNew, this`nNew
      ensures State() == Drop(old(State()), b, {k})
    {
      assert Lost(addrIndex, {k}) == if addrIndex[k].refs == 1 then {k} else {};
      addrNew := addrNew[b := addrNew[b] - {k}];
      addrIndex := addrIndex[k := addrIndex[k].(refs := addrIndex[k].refs - 1)];
      if addrIndex[k].refs == 0 {
        nNew := nNew - 1;
        addrIndex := addrIndex - {k};
      }
      assert addrIndex == Drop(old(State()), b, {k}).index;
    }

    /** Drops the bad entries of a new bucket and the oldest of the others, in any order. */
    method ExpireNew(b: nat, bad: Key -> bool)
      requires Sized(State()) && NewOk(State()) && b < NEW_BUCKET_COUNT
      modifies this`addrIndex, this`addrNew, this`nNew
      ensures exists gone :: MayExpire(old(State()), b, bad, gone) && State() == Drop(old(State()), b, gone)
    {
      hide MayExpire, OldestSeen, BadSeen, Drop, Kept, NewOk, Untried;
      ghost var t := State();
      ghost var gone := BadSeen(t, b, bad, addrNew[b]);
      var oldest, ahead := None, addrNew[b];
      NoneSeen(t, b, bad);
      while ahead != {}
        invariant ahead <= t.news[b] && gone == BadSeen(t, b, bad, ahead)
        invariant gone <= t.news[b] && gone !! ahead && State() == Drop(t, b, gone)
        invariant OldestSeen(t, b, bad, ahead, oldest)
        invariant oldest.Some? ==> oldest.value in t.news[b] && oldest.value !in gone && !bad(oldest.value)
      {
        var k :| k in ahead;
        SeenNext(t, b, bad, ahead, oldest, k);
        ahead := ahead - {k};
        DropRest(t, b, gone, k);
        if oldest.Some? {
          DropRest(t, b, gone, oldest.value);
        }
        if bad(k) {
          DropMore(t, b, gone, k);
          Release(b, k);
          gone := gone + {k};
        } else if oldest == None || addrIndex[k].timestamp <= addrIndex[oldest.value].timestamp {
          oldest := Some(k);
        }
      }
      AllSeen(t, b, bad, oldest);
      if oldest.Some? {
        DropRest(t, b, gone, oldest.value);
        DropMore(t, b, gone, oldest.value);
        Release(b, oldest.value);
        gone := gone + {oldest.value};
      }
    }

    /** Puts a known address into a new bucket unless it is there already. */
    method PlaceAddress(k: Key, b: nat, bad: Key -> bool)
      requires Sized(State()) && NewOk(State()) && b < NEW_BUCKET_COUNT && k in addrIndex
      modifies this`addrIndex, this`addrNew, this`nNew
      ensures Placed(old(State()), k, b, bad, State())
    {
      hide MayExpire, NewOk, Untried;
      if k in addrNew[b] {
        return;
      }
      if |addrNew[b]| > NEW_BUCKET_SIZE {
        ExpireNew(b, bad);
      }
      assert k in addrIndex;
      addrIndex := addrIndex[k := addrIndex[k].(refs := addrIndex[k].refs + 1)];
      addrNew := addrNew[b := addrNew[b] + {k}];
    }

    /** Updates a known address or adds a new one. The caller says whether the address is
        routable, whether it brings new services, and which bucket it hashes to; `random` is what
        the random source would yield. */
    method UpdateAddress(k: Key, routable: bool, timestamp: int, services: bool, random: nat, b: nat, bad: Key -> bool)
      requires Inv(State()) && b < NEW_BUCKET_COUNT
      modifies this`addrIndex, this`addrNew, this`nNew
      ensures if routable then Updated(old(State()), k, timestamp, services, random, b, bad, State()) else State() == old(State())
      ensures Inv(State())
    {
      hide Inv, Placed;
      if !routable {
        return;
      }
      if k in addrIndex {
        UpdateKnown(k, timestamp, services, random, b, bad);
      } else {
        RegisterKeeps(State(), k, timestamp);
        addrIndex := addrIndex[k := Known(timestamp, 0, false)];
        nNew := nNew + 1;
        PlaceAddress(k, b, bad);
      }
      UpdateKeeps(old(State()), k, timestamp, services, random, b, bad, State());
    }

    method UpdateKnown(k: Key, timestamp: int, services: bool, random: nat, b: nat, bad: Key -> bool)
      requires Inv(State()) && b < NEW_BUCKET_COUNT && k in addrIndex
      modifies this`addrIndex, this`addrNew, this`nNew
      ensures Updated(old(State()), k, timestamp, services, random, b, bad, State())
    {
      hide Placed, RefsOk, TriedOk, CountsOk, SizesOk;
      TouchKeeps(State(), k, timestamp);
      if timestamp > addrIndex[k].timestamp || services {
        addrIndex := addrIndex[k := addrIndex[k].(timestamp := timestamp)];
      }
      var ka := addrIndex[k];
      if ka.tried || ka.refs == NEW_BUCKETS_PER_ADDRESS {
        return;
      }
      DrawPossible(State(), k);
      if random % (2 * ka.refs) == 0 {
        PlaceAddress(k, b, bad);
      }
    }

    /** Finds the first of the oldest entries of a tried bucket. */
    method PickTried(tb: nat) returns (oldest: nat)
      requires Sized(State()) && tb < TRIED_BUCKET_COUNT && addrTried[tb] != []
      requires forall j: nat :: j < |addrTried[tb]| ==> addrTried[tb][j] in addrIndex
      ensures oldest == AddrTables.PickTried(addrIndex, addrTried[tb])
    {
      var bucket := addrTried[tb];
      oldest := 0;
      assert bucket[..1] == [bucket[0]];
      for e := 1 to |bucket|
        invariant oldest == AddrTables.PickTried(addrIndex, bucket[..e]) && oldest < e
      {
        assert bucket[..e + 1][..e] == bucket[..e];
        if addrIndex[bucket[oldest]].timestamp > addrIndex[bucket[e]].timestamp {
          oldest := e;
        }
      }
      assert bucket[..|bucket|] == bucket;
    }

    /** Takes an address out of all new buckets and returns the first it was in, or -1. */
    method RemoveFromNew(k: Key) returns (first: int)
      requires Sized(State()) && k in addrIndex && addrIndex[k].refs == |Holders(addrNew, k)|
      modifies this`addrIndex, this`addrNew
      ensures addrNew == Without(old(addrNew), k)
      ensures addrIndex == old(addrIndex)[k := old(addrIndex)[k].(refs := 0)]
      ensures first == if FirstHolder(old(addrNew), k, 0) == NEW_BUCKET_COUNT then -1 else FirstHolder(old(addrNew), k, 0)
    {
      hide Holders, FirstHolder, Without, PartlyWithout, HeldBelow;
      ghost var news, refs := addrNew, addrIndex[k].refs;
      first := -1;
      PartlyEnds(news, k);
      for i := 0 to NEW_BUCKET_COUNT
        invariant addrNew == PartlyWithout(news, k, i)
        invariant addrIndex == old(addrIndex)[k := old(addrIndex)[k].(refs := refs - HeldBelow(news, k, i))]
        invariant first == -1 ==> FirstHolder(news, k, 0) == FirstHolder(news, k, i)
        invariant first != -1 ==> 0 <= first < NEW_BUCKET_COUNT && first == FirstHolder(news, k, 0)
      {
        HeldBelowNext(news, k, i);
        FirstNext(news, k, i);
        PartlyNext(news, k, i);
        if k in addrNew[i] {
          addrNew := addrNew[i := addrNew[i] - {k}];
          addrIndex := addrIndex[k := addrIndex[k].(refs := addrIndex[k].refs - 1)];
          if first == -1 {
            first := i;
          }
        }
      }
    }

    /** Marks an address as good: it moves to the tried buckets, trading places with an old
        entry when there is no room. */
    method Good(k: Key, tb: nat, nb: nat)
      requires Inv(State()) && tb < TRIED_BUCKET_COUNT && nb < NEW_BUCKET_COUNT
      modifies this
      ensures State() == AddrTables.Good(old(State()), k, tb, nb) && Inv(State())
      ensures AddrEffects.MadeGood(old(State()), State(), k, tb, nb)
    {
      hide Inv, FirstHolder, AddrTables.PickTried, Holders, Without, Move, Swap, AddrEffects.MadeGood;
      GoodKeeps(State(), k, tb, nb);
      AddrEffects.GoodEffect(State(), k, tb, nb);
      if k !in addrIndex || addrIndex[k].tried {
        return;
      }
      RefsRight(State(), k);
      ghost var t := State();
      var first := RemoveFromNew(k);
      nNew := nNew - 1;
      if first == -1 {
        NotHeld(t.news, k);
        return;
      }
      if |addrTried[tb]| < TRIED_BUCKET_SIZE {
        AddTried(k, tb, t);
      } else {
        AllListedAreTried(t, k, tb);
        TradePlaces(k, tb, nb, first, t);
      }
    }

    method AddTried(k: Key, tb: nat, ghost t: Tables)
      requires Sized(t) && k in t.index && State() == Removed(t, k) && tb < TRIED_BUCKET_COUNT
      modifies this
      ensures State() == Move(t, k, tb)
    {
      addrIndex := addrIndex[k := addrIndex[k].(tried := true)];
      addrTried := addrTried[tb := addrTried[tb] + [k]];
      nTried := nTried + 1;
    }

    method TradePlaces(k: Key, tb: nat, nb: nat, first: nat, ghost t: Tables)
      requires Sized(t) && k in t.index && State() == Removed(t, k)
      requires tb < TRIED_BUCKET_COUNT && nb < NEW_BUCKET_COUNT && first < NEW_BUCKET_COUNT && t.tried[tb] != []
      requires forall j: nat :: j < |t.tried[tb]| ==> t.tried[tb][j] in t.index && t.tried[tb][j] != k
      modifies this
      ensures State() == Swap(t, k, tb, AddrTables.PickTried(t.index, t.tried[tb]),
                              if |Without(t.news, k)[nb]| >= NEW_BUCKET_SIZE then first else nb)
    {
      hide AddrTables.PickTried, Swap, Without;
      var entry := PickTried(tb);
      PickSame(t.index, addrIndex, addrTried[tb]);
      var rm := addrTried[tb][entry];
      var newBucket := nb;
      if |addrNew[nb]| >= NEW_BUCKET_SIZE {
        newBucket := first;
      }
      SwapRemoved(t, k, tb, entry, newBucket);
      addrIndex := addrIndex[k := addrIndex[k].(tried := true)];
      addrTried := addrTried[tb := addrTried[tb][entry := k]];
      addrIndex := addrIndex[rm := addrIndex[rm].(tried := false, refs := addrIndex[rm].refs + 1)];
      nNew := nNew + 1;
      addrNew := addrNew[newBucket := addrNew[newBucket] + {rm}];
    }

    /** What `savePeers` writes: maps are walked in any order. */
    method SavePeers(src: Key -> Key) returns (s: Saved)
      requires Sized(State())
      ensures IsSavedOf(State(), s)
      ensures forall i: nat :: i < |s.addresses| ==> s.addresses[i].src == src(s.addresses[i].addr)
    {
      var addresses := CollectAddresses(addrIndex.Keys, src);
      var newBuckets: seq<seq<Key>> := [];
      for i := 0 to NEW_BUCKET_COUNT
        invariant |newBuckets| == i
        invariant forall b: nat :: b < i ==> Distinct(newBuckets[b]) && Elements(newBuckets[b]) == addrNew[b]
      {
        var keys := CollectKeys(addrNew[i]);
        newBuckets := newBuckets + [keys];
      }
      s := Saved(SERIALISATION_VERSION, addresses, newBuckets, addrTried);
    }

    static method CollectKeys(keys: set<Key>) returns (r: seq<Key>)
      ensures Distinct(r) && Elements(r) == keys
    {
      r := [];
      var ahead := keys;
      while ahead != {}
        invariant ahead <= keys && Distinct(r) && Elements(r) == keys - ahead
      {
        var k :| k in ahead;
        assert k !in Elements(r);
        ahead := ahead - {k};
        assert Elements(r + [k]) == Elements(r) + {k};
        r := r + [k];
      }
    }

    static method CollectAddresses(keys: set<Key>, src: Key -> Key) returns (r: seq<SavedAddress>)
      ensures (set a | a in r :: a.addr) == keys && ListedOnce(r)
      ensures forall i: nat :: i < |r| ==> r[i].src == src(r[i].addr)
    {
      r := [];
      var ahead := keys;
      while ahead != {}
        invariant ahead <= keys && (set a | a in r :: a.addr) == keys - ahead && ListedOnce(r)
        invariant forall i: nat :: i < |r| ==> r[i].src == src(r[i].addr)
      {
        var k :| k in ahead;
        forall i: nat | i < |r| ensures r[i].addr != k {
          assert r[i].addr in (set a | a in r :: a.addr);
        }
        ahead := ahead - {k};
        ghost var before := r;
        r := r + [SavedAddress(k, src(k))];
        assert (set a | a in r :: a.addr) == (set a | a in before :: a.addr) + {k} by {
          assert r[|before|].addr == k;
        }
      }
    }

    /** Loads a peers file into an empty manager. */
    method DeserializePeers(s: Saved, parse: Parser, now: int) returns (ok: bool)
      requires State() == Empty() && SavedSized(s)
      modifies this
      ensures ok == Accepted(parse, s)
      ensures ok ==> Loaded(parse, s, State())
      ensures Sized(State()) && 0 <= nNew && 0 <= nTried
      ensures (nNew > 0 <==> CountsNew(parse, s)) && (nTried > 0 <==> CountsTried(parse, s))
    {
      hide AllIn, Parses, Listed, Occurrences, ListedAt, Total, Elements, BeginsKnown;
      if s.version > SERIALISATION_VERSION {
        return false;
      }
      ok := LoadAddresses(s.addresses, parse, now);
      if !ok {
        return;
      }
      ok := LoadNew(s.newBuckets);
      if !ok {
        return;
      }
      ghost var counted := addrIndex;
      ok := LoadTried(s.triedBuckets);
      if !ok {
        return;
      }
      ok := CheckReferences();
      LoadedAll(s, counted, addrIndex);
    }

    /** Fresh tables; the counters are not touched. */
    method Reset()
      requires Sized(State())
      modifies this`addrIndex, this`addrNew, this`addrTried
      ensures State() == Empty().(nNew := nNew, nTried := nTried)
    {
      addrIndex := map[];
      for i := 0 to |addrNew|
        invariant addrIndex == map[] && Sized(State()) && forall b: nat :: b < i ==> addrNew[b] == {}
      {
        addrNew := addrNew[i := {}];
      }
      assert addrNew == Empty().news;
      for i := 0 to |addrTried|
        invariant addrIndex == map[] && addrNew == Empty().news
        invariant |addrTried| == TRIED_BUCKET_COUNT && forall b: nat :: b < i ==> addrTried[b] == []
      {
        addrTried := addrTried[i := []];
      }
    }

    /** Loads a file into a fresh manager, or resets the manager when the file is rejected. */
    method LoadPeers(s: Saved, parse: Parser, now: int)
      requires State() == Empty() && SavedSized(s)
      modifies this
      ensures if Accepted(parse, s) then Loaded(parse, s, State()) else Restarted(parse, s, State())
      ensures Inv(State()) <==> if Accepted(parse, s) then WellFormed(parse, s) else !CountsNew(parse, s) && !CountsTried(parse, s)
    {
      hide Inv, Accepted, Loaded, WellFormed, CountsNew, CountsTried;
      var ok := DeserializePeers(s, parse, now);
      if ok {
        LoadedSound(parse, s, State());
      } else {
        Reset();
        FreshExactly(parse, s, State());
      }
    }

    /** Goes through the tried buckets, keeping their order. */
    method LoadTried(buckets: seq<seq<Key>>) returns (ok: bool)
      requires |addrTried| == TRIED_BUCKET_COUNT && nTried == 0 && |buckets| == TRIED_BUCKET_COUNT
      requires (forall b: nat :: b < TRIED_BUCKET_COUNT ==> addrTried[b] == []) && forall k :: k in addrIndex ==> !addrIndex[k].tried
      modifies this`addrIndex, this`addrTried, this`nTried
      ensures ok == AllIn(buckets, old(addrIndex.Keys))
      ensures ok ==> Marked(old(addrIndex), addrIndex, buckets) && addrTried == buckets && nTried == Total(buckets)
      ensures |addrTried| == TRIED_BUCKET_COUNT && 0 <= nTried && (nTried > 0 <==> BeginsKnown(buckets, old(addrIndex.Keys)))
    {
      hide BeginsKnown, Marked, AllIn, Total;
      ghost var index := addrIndex;
      NoneMarked(index);
      assert buckets[..0] == [];
      for i := 0 to |buckets|
        invariant AllIn(buckets[..i], index.Keys) && Marked(index, addrIndex, buckets[..i]) && nTried == Total(buckets[..i])
        invariant |addrTried| == TRIED_BUCKET_COUNT
        invariant forall b: nat :: b < TRIED_BUCKET_COUNT ==> addrTried[b] == if b < i then buckets[b] else []
      {
        AllInNext(buckets, index.Keys, i);
        BeginsBy(buckets, index.Keys, i);
        ok := LoadTriedBucket(buckets[i], i, buckets[..i], index);
        assert buckets[..i + 1] == buckets[..i] + [buckets[i]];
        if !ok {
          return;
        }
      }
      assert buckets[..|buckets|] == buckets;
      BeginsBy(buckets, index.Keys, |buckets|);
      assert addrTried == buckets;
      ok := true;
    }

    method LoadTriedBucket(bucket: seq<Key>, i: nat, ghost before: seq<seq<Key>>, ghost index: map<Key, Known>)
      returns (ok: bool)
      requires i < |addrTried| && addrTried[i] == [] && Marked(index, addrIndex, before) && nTried == Total(before)
      modifies this`addrIndex, this`addrTried, this`nTried
      ensures ok == forall j: nat :: j < |bucket| ==> bucket[j] in index
      ensures ok ==> Marked(index, addrIndex, before + [bucket]) && nTried == Total(before + [bucket])
      ensures |addrTried| == |old(addrTried)| && (ok ==> addrTried == old(addrTried)[i := bucket])
      ensures 0 <= nTried && (nTried > 0 <==> old(nTried) > 0 || (bucket != [] && bucket[0] in index))
    {
      hide Marked, Total;
      MarkedStart(index, addrIndex, before, bucket);
      for j := 0 to |bucket|
        invariant Marked(index, addrIndex, before + [bucket[..j]]) && nTried == Total(before + [bucket[..j]])
        invariant addrTried == old(addrTried)[i := bucket[..j]] && nTried == old(nTried) + j
        invariant forall l: nat :: l < j ==> bucket[l] in index
      {
        var k := bucket[j];
        MarkedKeys(index, addrIndex, before + [bucket[..j]]);
        if k !in addrIndex {
          return false;
        }
        MarkedNext(index, addrIndex, before, bucket, j);
        addrIndex := addrIndex[k := addrIndex[k].(tried := true)];
        nTried := nTried + 1;
        assert bucket[..j + 1] == bucket[..j] + [k];
        addrTried := addrTried[i := addrTried[i] + [k]];
      }
      assert bucket[..|bucket|] == bucket;
      ok := true;
    }

    /** Every address is either new or tried. */
    method CheckReferences() returns (ok: bool)
      requires forall k :: k in addrIndex ==> addrIndex[k].refs >= 0
      ensures ok == forall k :: k in addrIndex ==> (addrIndex[k].refs > 0 <==> !addrIndex[k].tried)
    {
      var ahead := addrIndex.Keys;
      while ahead != {}
        invariant ahead <= addrIndex.Keys
        invariant forall k :: k in addrIndex && k !in ahead ==> (addrIndex[k].refs > 0 <==> !addrIndex[k].tried)
      {
        var k :| k in ahead;
        ahead := ahead - {k};
        var v := addrIndex[k];
        if v.refs == 0 && !v.tried {
          return false;
        }
        if v.refs > 0 && v.tried {
          return false;
        }
      }
      ok := true;
    }

    method LoadAddresses(addresses: seq<SavedAddress>, parse: Parser, now: int) returns (ok: bool)
      requires addrIndex == map[]
      modifies this`addrIndex
      ensures ok == Parses(parse, addresses)
      ensures ok ==> addrIndex.Keys == Listed(parse, addresses) && Blank(addrIndex)
    {
      for i := 0 to |addresses|
        invariant Parses(parse, addresses[..i])
        invariant addrIndex.Keys == Listed(parse, addresses[..i]) && Blank(addrIndex)
      {
        var v := addresses[i];
        if parse(v.addr).None? || parse(v.src).None? {
          return false;
        }
        ListedNext(parse, addresses, i);
        addrIndex := addrIndex[parse(v.addr).value := Known(now, 0, false)];
      }
      assert addresses[..|addresses|] == addresses;
      ok := true;
    }

    /** Goes through the new buckets, counting a reference for every entry. */
    method LoadNew(buckets: seq<seq<Key>>) returns (ok: bool)
      requires Sized(State()) && nNew == 0 && Blank(addrIndex) && |buckets| == NEW_BUCKET_COUNT
      requires forall b: nat :: b < NEW_BUCKET_COUNT ==> addrNew[b] == {}
      modifies this`addrIndex, this`addrNew, this`nNew
      ensures ok == AllIn(buckets, old(addrIndex.Keys))
      ensures ok ==> Counted(addrIndex, old(addrIndex.Keys), buckets) && nNew == |Referenced(addrIndex)|
      ensures |addrNew| == NEW_BUCKET_COUNT && (ok ==> forall b: nat :: b < NEW_BUCKET_COUNT ==> addrNew[b] == Elements(buckets[b]))
      ensures 0 <= nNew && (nNew > 0 <==> BeginsKnown(buckets, old(addrIndex.Keys)))
    {
      hide Elements, BeginsKnown, Counted, AllIn, Total, Referenced;
      ghost var keys := addrIndex.Keys;
      NoneCounted(addrIndex);
      assert buckets[..0] == [];
      for i := 0 to |buckets|
        invariant AllIn(buckets[..i], keys) && Counted(addrIndex, keys, buckets[..i]) && nNew == |Referenced(addrIndex)|
        invariant |addrNew| == NEW_BUCKET_COUNT && (nNew > 0 <==> Total(buckets[..i]) > 0)
        invariant forall b: nat :: b < NEW_BUCKET_COUNT ==> addrNew[b] == if b < i then Elements(buckets[b]) else {}
      {
        AllInNext(buckets, keys, i);
        BeginsBy(buckets, keys, i);
        TotalAdd(buckets[..i], buckets[i]);
        ok := LoadBucket(buckets[i], i, buckets[..i], keys);
        assert buckets[..i + 1] == buckets[..i] + [buckets[i]];
        if !ok {
          return;
        }
      }
      assert buckets[..|buckets|] == buckets;
      BeginsBy(buckets, keys, |buckets|);
      ok := true;
    }

    method LoadBucket(bucket: seq<Key>, i: nat, ghost before: seq<seq<Key>>, ghost keys: set<Key>) returns (ok: bool)
      requires i < |addrNew| && addrNew[i] == {} && Counted(addrIndex, keys, before) && nNew == |Referenced(addrIndex)|
      modifies this`addrIndex, this`addrNew, this`nNew
      ensures ok == forall j: nat :: j < |bucket| ==> bucket[j] in keys
      ensures ok ==> Counted(addrIndex, keys, before + [bucket])
      ensures nNew == |Referenced(addrIndex)| && (nNew > 0 <==> old(nNew) > 0 || (bucket != [] && bucket[0] in keys))
      ensures |addrNew| == |old(addrNew)| && (ok ==> addrNew == old(addrNew)[i := Elements(bucket)])
    {
      hide Counted, Referenced, Elements;
      CountedStart(addrIndex, keys, before, bucket);
      for j := 0 to |bucket|
        invariant Counted(addrIndex, keys, before + [bucket[..j]]) && nNew == |Referenced(addrIndex)|
        invariant addrNew == old(addrNew)[i := Elements(bucket[..j])]
        invariant (forall l: nat :: l < j ==> bucket[l] in keys) && (nNew > 0 <==> old(nNew) > 0 || j > 0)
      {
        var k := bucket[j];
        CountedKeys(addrIndex, keys, before + [bucket[..j]]);
        if k !in addrIndex {
          return false;
        }
        CountedNext(addrIndex, keys, before, bucket, j);
        if addrIndex[k].refs == 0 {
          nNew := nNew + 1;
        } else {
          SomeReferenced(addrIndex, k);
        }
        addrIndex := addrIndex[k := addrIndex[k].(refs := addrIndex[k].refs + 1)];
        addrNew := addrNew[i := addrNew[i] + {k}];
      }
      assert bucket[..|bucket|] == bucket;
      ok := true;
    }
  }
}
