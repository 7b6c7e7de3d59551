/**
 The tables of the address manager, addrmgr/addrmanager.go, as a value, and what every
 operation on them keeps. Which addresses count as bad, the random draws and the hashed
 bucket numbers are arbitrary.
 */
module AddrTables {
  import opened Common

  const TRIED_BUCKET_SIZE: nat := 256
  const TRIED_BUCKET_COUNT: nat := 64
  const NEW_BUCKET_SIZE: nat := 64
  const NEW_BUCKET_COUNT: nat := 1024
  const NEW_BUCKETS_PER_ADDRESS: nat := 8

  /** An address is known by its host and port in text form. */
  type Key = string

  datatype Known = Known(timestamp: int, refs: int, tried: bool)

  /** All known addresses, the new buckets, the tried buckets and the two counters. */
  datatype Tables = Tables(
    index: map<Key, Known>,
    news: seq<set<Key>>,
    tried: seq<seq<Key>>,
    nNew: int,
    nTried: int)

  /** The bucket arrays have a fixed length. */
  predicate Sized(t: Tables) {
    |t.news| == NEW_BUCKET_COUNT && |t.tried| == TRIED_BUCKET_COUNT
  }

  /** What is known of an address; the zero record when nothing is. */
  function Get(index: map<Key, Known>, k: Key): Known {
    if k in index then index[k] else Known(0, 0, false)
  }

  /** The new buckets that hold an address. */
  function Holders(news: seq<set<Key>>, k: Key): set<nat> {
    set i: nat | i < |news| && k in news[i]
  }

  /** The number of the first `n` new buckets that hold an address. */
  ghost function HeldBelow(news: seq<set<Key>>, k: Key, n: nat): nat
    requires n <= |news|
  {
    |Holders(news[..n], k)|
  }

  lemma HeldBelowNext(news: seq<set<Key>>, k: Key, n: nat)
    requires n < |news|
    ensures HeldBelow(news, k, n + 1) == HeldBelow(news, k, n) + if k in news[n] then 1 else 0
  {
    var all, less := Holders(news[..n + 1], k), Holders(news[..n], k);
    assert all == if k in news[n] then less + {n} else less;
  }

  function Untried(index: map<Key, Known>): set<Key> {
    set k | k in index && !index[k].tried
  }

  function TriedKeys(index: map<Key, Known>): set<Key> {
    set k | k in index && index[k].tried
  }

  /** Reference counts are right; every address other than `but` has its proper number of them. */
  ghost predicate RefsOk(t: Tables, but: Option<Key>) {
    forall k :: k in t.index ==> RefOk(t, k, but == Some(k))
  }

  ghost predicate RefOk(t: Tables, k: Key, unplaced: bool)
    requires k in t.index
  {
    && t.index[k].refs == |Holders(t.news, k)|
    && (t.index[k].tried ==> t.index[k].refs == 0)
    && (!t.index[k].tried ==> (if unplaced then 0 else 1) <= t.index[k].refs <= NEW_BUCKETS_PER_ADDRESS)
  }

  /** What is in a new bucket is known and untried. */
  ghost predicate NewOk(t: Tables) {
    forall b: nat :: b < |t.news| ==> t.news[b] <= Untried(t.index)
  }

  /** The tried buckets list exactly the tried addresses, each of them once. */
  ghost predicate TriedOk(t: Tables) {
    && (forall b: nat, j: nat :: b < |t.tried| && j < |t.tried[b]| ==> t.tried[b][j] in TriedKeys(t.index))
    && (forall k :: k in TriedKeys(t.index) ==> ListedAt(t.tried, k))
    && (forall b: nat, j: nat, c: nat, l: nat ::
          b < |t.tried| && j < |t.tried[b]| && c < |t.tried| && l < |t.tried[c]| && t.tried[b][j] == t.tried[c][l]
          ==> b == c && j == l)
  }

  ghost predicate ListedAt(tried: seq<seq<Key>>, k: Key) {
    exists b: nat, j: nat :: b < |tried| && j < |tried[b]| && tried[b][j] == k
  }

  ghost predicate CountsOk(t: Tables) {
    t.nNew == |Untried(t.index)| && t.nTried == |TriedKeys(t.index)|
  }

  ghost predicate SizesOk(t: Tables) {
    && (forall b: nat :: b < |t.news| ==> |t.news[b]| <= NEW_BUCKET_SIZE + 1)
    && (forall b: nat :: b < |t.tried| ==> |t.tried[b]| <= TRIED_BUCKET_SIZE)
  }

  /** All invariants, with one address possibly not yet in any bucket. */
  ghost predicate Ok(t: Tables, but: Option<Key>) {
    Sized(t) && RefsOk(t, but) && NewOk(t) && TriedOk(t) && CountsOk(t) && SizesOk(t)
  }

  ghost predicate Inv(t: Tables)
    ensures Inv(t) ==> Sized(t)
  {
    Ok(t, None)
  }

  /** What `New` sets up. */
  function Empty(): Tables {
    Tables(map[], seq(NEW_BUCKET_COUNT, _ => {}), seq(TRIED_BUCKET_COUNT, _ => []), 0, 0)
  }

  lemma EmptyInv()
    ensures Inv(Empty())
  {
  }

  /** The two counters add up to the number of known addresses. */
  lemma CountersAddUp(t: Tables)
    requires Inv(t)
    ensures t.nNew + t.nTried == |t.index|
  {
    var u, v := Untried(t.index), TriedKeys(t.index);
    assert u !! v && u + v == t.index.Keys;
  }

  /** Rewriting a record without changing its kind. */
  lemma SameKind(index: map<Key, Known>, k: Key, ka: Known)
    requires k in index && index[k].tried == ka.tried
    ensures Untried(index[k := ka]) == Untried(index) && TriedKeys(index[k := ka]) == TriedKeys(index)
    ensures !ka.tried ==> k in Untried(index)
  {
  }

  /** An address that was not tried becomes untried or tried. */
  lemma NewKind(index: map<Key, Known>, k: Key, ka: Known)
    requires k !in TriedKeys(index)
    ensures Untried(index[k := ka]) == if ka.tried then Untried(index) - {k} else Untried(index) + {k}
    ensures TriedKeys(index[k := ka]) == if ka.tried then TriedKeys(index) + {k} else TriedKeys(index)
    ensures k in index <==> k in Untried(index)
  {
  }

  /** The addresses whose last reference goes when they leave a bucket. */
  function Lost(index: map<Key, Known>, gone: set<Key>): set<Key> {
    set k | k in gone && k in index && index[k].refs == 1
  }

  /** Takes addresses out of a new bucket, forgetting those that were in no other one. */
  function Drop(t: Tables, b: nat, gone: set<Key>): (u: Tables)
    requires b < |t.news|
    ensures |u.news| == |t.news|
  {
    var lost := Lost(t.index, gone);
    t.(index := map k | k in t.index && k !in lost ::
         if k in gone then t.index[k].(refs := t.index[k].refs - 1) else t.index[k],
       news := t.news[b := t.news[b] - gone],
       nNew := t.nNew - |lost|)
  }

  lemma HoldersDrop(news: seq<set<Key>>, b: nat, gone: set<Key>, k: Key)
    requires b < |news| && gone <= news[b]
    ensures Holders(news[b := news[b] - gone], k) == if k in gone then Holders(news, k) - {b} else Holders(news, k)
    ensures k in gone ==> |Holders(news[b := news[b] - gone], k)| == |Holders(news, k)| - 1
  {
    var after := news[b := news[b] - gone];
    assert Holders(after, k) == if k in gone then Holders(news, k) - {b} else Holders(news, k);
    assert k in gone ==> b in Holders(news, k);
  }

  /** Dropping part of a bucket keeps all invariants. */
  lemma DropKeeps(t: Tables, but: Option<Key>, b: nat, gone: set<Key>)
    requires Ok(t, but) && b < |t.news| && gone <= t.news[b]
    requires but.Some? ==> but.value !in gone
    ensures Ok(Drop(t, b, gone), but)
    ensures |Drop(t, b, gone).news[b]| == |t.news[b]| - |gone|
  {
    hide RefsOk, NewOk, TriedOk, CountsOk;
    DropRefs(t, but, b, gone);
    DropCounts(t, b, gone);
    DropTried(t, b, gone);
    SameTried(t, Drop(t, b, gone));
    DropNew(t, but, b, gone);
    assert |t.news[b] - gone| == |t.news[b]| - |gone|;
  }

  lemma DropRefs(t: Tables, but: Option<Key>, b: nat, gone: set<Key>)
    requires RefsOk(t, but) && b < |t.news| && gone <= t.news[b] && NewOk(t)
    requires but.Some? ==> but.value !in gone
    ensures RefsOk(Drop(t, b, gone), but)
  {
    var u := Drop(t, b, gone);
    forall k | k in u.index
      ensures RefOk(u, k, but == Some(k))
    {
      assert RefOk(t, k, but == Some(k));
      HoldersDrop(t.news, b, gone, k);
    }
  }

  lemma DropTried(t: Tables, b: nat, gone: set<Key>)
    requires b < |t.news| && gone <= t.news[b] && NewOk(t)
    ensures TriedKeys(Drop(t, b, gone).index) == TriedKeys(t.index)
  {
  }

  lemma DropNew(t: Tables, but: Option<Key>, b: nat, gone: set<Key>)
    requires RefsOk(t, but) && b < |t.news| && gone <= t.news[b] && NewOk(t)
    requires but.Some? ==> but.value !in gone
    ensures NewOk(Drop(t, b, gone))
  {
    var u := Drop(t, b, gone);
    forall c: nat, k | c < |u.news| && k in u.news[c]
      ensures k in Untried(u.index)
    {
      assert k in t.news[c] && c in Holders(u.news, k);
      assert RefOk(t, k, but == Some(k));
      HoldersDrop(t.news, b, gone, k);
    }
  }

  lemma DropCounts(t: Tables, b: nat, gone: set<Key>)
    requires CountsOk(t) && b < |t.news| && gone <= t.news[b] && NewOk(t)
    ensures CountsOk(Drop(t, b, gone))
  {
    var u := Drop(t, b, gone);
    var lost := Lost(t.index, gone);
    DropTried(t, b, gone);
    assert lost <= Untried(t.index);
    assert Untried(u.index) == Untried(t.index) - lost;
  }

  /** The tried buckets only depend on which addresses are tried. */
  lemma SameTried(t: Tables, u: Tables)
    requires TriedOk(t) && u.tried == t.tried && TriedKeys(u.index) == TriedKeys(t.index)
    ensures TriedOk(u)
  {
  }

  /** The entries of a new bucket that are not bad. */
  ghost function Kept(t: Tables, b: nat, bad: Key -> bool): set<Key>
    requires b < |t.news|
  {
    set k | k in t.news[b] && !bad(k)
  }

  /** What `expireNew` may remove from a bucket: all bad entries and, of the others, one that
      no other is older than. */
  ghost predicate MayExpire(t: Tables, b: nat, bad: Key -> bool, gone: set<Key>)
    requires b < |t.news|
    ensures MayExpire(t, b, bad, gone) ==> gone <= t.news[b]
  {
    var kept := Kept(t, b, bad);
    if kept == {} then gone == t.news[b]
    else exists o :: o in kept && IsOldest(t.index, kept, o) && gone == t.news[b] - kept + {o}
  }

  ghost predicate IsOldest(index: map<Key, Known>, entries: set<Key>, o: Key) {
    forall k :: k in entries ==> Get(index, o).timestamp <= Get(index, k).timestamp
  }

  /** Expiring a bucket that is not empty makes room. */
  lemma ExpireMakesRoom(t: Tables, b: nat, bad: Key -> bool, gone: set<Key>)
    requires b < |t.news| && MayExpire(t, b, bad, gone) && t.news[b] != {}
    ensures |gone| >= 1
  {
    assert gone != {};
  }

  /** Puts an address that is not in the bucket into it. */
  function Place(t: Tables, k: Key, b: nat): Tables
    requires b < |t.news|
  {
    var ka := Get(t.index, k);
    t.(index := t.index[k := ka.(refs := ka.refs + 1)], news := t.news[b := t.news[b] + {k}])
  }

  lemma HoldersPlace(news: seq<set<Key>>, b: nat, k: Key, m: Key)
    requires b < |news| && k !in news[b]
    ensures Holders(news[b := news[b] + {k}], m) == if m == k then Holders(news, m) + {b} else Holders(news, m)
    ensures m == k ==> |Holders(news[b := news[b] + {k}], m)| == |Holders(news, m)| + 1
  {
    assert Holders(news[b := news[b] + {k}], m) == if m == k then Holders(news, m) + {b} else Holders(news, m);
    assert b !in Holders(news, k);
  }

  lemma PlaceKeeps(t: Tables, k: Key, b: nat)
    requires Ok(t, Some(k)) && b < |t.news| && k in t.index && !t.index[k].tried && k !in t.news[b]
    requires t.index[k].refs < NEW_BUCKETS_PER_ADDRESS && |t.news[b]| <= NEW_BUCKET_SIZE
    ensures Inv(Place(t, k, b))
  {
    hide RefsOk, TriedOk, Untried, TriedKeys;
    var u := Place(t, k, b);
    PlaceRefs(t, k, b);
    SameKind(t.index, k, u.index[k]);
    SameTried(t, u);
  }

  lemma PlaceRefs(t: Tables, k: Key, b: nat)
    requires RefsOk(t, Some(k)) && b < |t.news| && k in t.index && !t.index[k].tried && k !in t.news[b]
    requires t.index[k].refs < NEW_BUCKETS_PER_ADDRESS
    ensures RefsOk(Place(t, k, b), None)
  {
    var u := Place(t, k, b);
    forall m | m in u.index ensures RefOk(u, m, false) {
      assert RefOk(t, m, m == k);
      HoldersPlace(t.news, b, k, m);
    }
  }

  /** The last part of `updateAddress`: place an address in a bucket, making room if need be. */
  ghost predicate Placed(t: Tables, k: Key, b: nat, bad: Key -> bool, u: Tables)
    requires b < |t.news|
  {
    if k in t.news[b] then u == t
    else if |t.news[b]| > NEW_BUCKET_SIZE then
      exists gone :: MayExpire(t, b, bad, gone) && u == Place(Drop(t, b, gone), k, b)
    else u == Place(t, k, b)
  }

  lemma PlacedKeeps(t: Tables, k: Key, b: nat, bad: Key -> bool, u: Tables)
    requires Ok(t, Some(k)) && b < |t.news| && k in t.index && !t.index[k].tried
    requires t.index[k].refs < NEW_BUCKETS_PER_ADDRESS && Placed(t, k, b, bad, u)
    ensures Inv(u)
  {
    hide MayExpire, RefsOk, NewOk, TriedOk, CountsOk;
    if k in t.news[b] {
      StillHeld(t, k, b);
    } else if |t.news[b]| > NEW_BUCKET_SIZE {
      var gone :| MayExpire(t, b, bad, gone) && u == Place(Drop(t, b, gone), k, b);
      ExpireMakesRoom(t, b, bad, gone);
      DropKeeps(t, Some(k), b, gone);
      PlaceKeeps(Drop(t, b, gone), k, b);
    } else {
      PlaceKeeps(t, k, b);
    }
  }

  lemma StillHeld(t: Tables, k: Key, b: nat)
    requires Ok(t, Some(k)) && b < |t.news| && k in t.news[b]
    ensures Inv(t)
  {
    hide TriedOk, CountsOk, SizesOk, NewOk;
    forall m | m in t.index ensures RefOk(t, m, false) {
      assert RefOk(t, m, m == k);
      assert b in Holders(t.news, k);
    }
  }

  /** Timestamps and services may change at any time without touching the structure. */
  function Touch(t: Tables, k: Key, timestamp: int): Tables
    requires k in t.index
  {
    t.(index := t.index[k := t.index[k].(timestamp := timestamp)])
  }

  lemma TouchKeeps(t: Tables, k: Key, timestamp: int)
    requires Inv(t) && k in t.index
    ensures Inv(Touch(t, k, timestamp))
  {
    hide TriedOk, Untried, TriedKeys, Holders;
    var u := Touch(t, k, timestamp);
    forall m | m in u.index ensures RefOk(u, m, false) {
      assert RefOk(t, m, false);
    }
    SameKind(t.index, k, u.index[k]);
    SameTried(t, u);
  }

  /** A new address, counted but not yet in a bucket. */
  function Register(t: Tables, k: Key, timestamp: int): Tables {
    t.(index := t.index[k := Known(timestamp, 0, false)], nNew := t.nNew + 1)
  }

  lemma RegisterKeeps(t: Tables, k: Key, timestamp: int)
    requires Inv(t) && k !in t.index
    ensures Ok(Register(t, k, timestamp), Some(k))
  {
    hide RefsOk, TriedOk, Untried, TriedKeys;
    var u := Register(t, k, timestamp);
    RegisterRefs(t, k, timestamp);
    assert k !in TriedKeys(t.index) by { UnknownKind(t.index, k); }
    NewKind(t.index, k, u.index[k]);
    SameTried(t, u);
  }

  lemma UnknownKind(index: map<Key, Known>, k: Key)
    requires k !in index
    ensures k !in TriedKeys(index) && k !in Untried(index)
  {
  }

  lemma RegisterRefs(t: Tables, k: Key, timestamp: int)
    requires RefsOk(t, None) && NewOk(t) && k !in t.index
    ensures RefsOk(Register(t, k, timestamp), Some(k))
  {
    var u := Register(t, k, timestamp);
    assert Holders(t.news, k) == {};
    forall m | m in u.index ensures RefOk(u, m, m == k) {
      assert m != k ==> RefOk(t, m, false);
    }
  }

  /** A known address is placed in one more bucket when it is untried, below the limit and
      the draw, a random number below twice its count, is zero. */
  ghost predicate UpdatedKnown(t: Tables, k: Key, random: nat, b: nat, bad: Key -> bool, u: Tables)
    requires Sized(t) && b < NEW_BUCKET_COUNT && k in t.index
  {
    var ka := t.index[k];
    if ka.tried || ka.refs == NEW_BUCKETS_PER_ADDRESS then u == t
    else ka.refs > 0 && if random % (2 * ka.refs) != 0 then u == t else Placed(t, k, b, bad, u)
  }

  /** The record of a known address takes a later timestamp, or any that comes with new services. */
  function Refreshed(t: Tables, k: Key, timestamp: int, services: bool): Tables
    requires k in t.index
  {
    if timestamp > t.index[k].timestamp || services then Touch(t, k, timestamp) else t
  }

  /** One call of `updateAddress`: a known address is refreshed and perhaps placed; a new one is
      registered and placed. */
  ghost predicate Updated(t: Tables, k: Key, timestamp: int, services: bool, random: nat, b: nat, bad: Key -> bool, u: Tables)
    requires Sized(t) && b < NEW_BUCKET_COUNT
  {
    if k in t.index then UpdatedKnown(Refreshed(t, k, timestamp, services), k, random, b, bad, u)
    else Placed(Register(t, k, timestamp), k, b, bad, u)
  }

  /** The draw is always from a non-empty range. */
  lemma DrawPossible(t: Tables, k: Key)
    requires Inv(t) && k in t.index && !t.index[k].tried
    ensures 2 * t.index[k].refs >= 2
  {
    assert RefOk(t, k, false);
  }

  lemma Unplaced(t: Tables, k: Key)
    requires Inv(t)
    ensures Ok(t, Some(k))
  {
    hide TriedOk, CountsOk, SizesOk, NewOk;
    forall m | m in t.index ensures RefOk(t, m, m == k) {
      assert RefOk(t, m, false);
    }
  }

  lemma UpdateKnownKeeps(t: Tables, k: Key, random: nat, b: nat, bad: Key -> bool, u: Tables)
    requires Inv(t) && b < NEW_BUCKET_COUNT && k in t.index && UpdatedKnown(t, k, random, b, bad, u)
    ensures Inv(u)
  {
    hide NewOk, TriedOk, CountsOk, SizesOk, Placed;
    Unplaced(t, k);
    assert RefOk(t, k, false);
    if !t.index[k].tried && t.index[k].refs < NEW_BUCKETS_PER_ADDRESS && random % (2 * t.index[k].refs) == 0 {
      PlacedKeeps(t, k, b, bad, u);
    }
  }

  lemma UpdateKeeps(t: Tables, k: Key, timestamp: int, services: bool, random: nat, b: nat, bad: Key -> bool, u: Tables)
    requires Inv(t) && b < NEW_BUCKET_COUNT && Updated(t, k, timestamp, services, random, b, bad, u)
    ensures Inv(u)
  {
    hide Ok, Placed, UpdatedKnown;
    if k in t.index {
      TouchKeeps(t, k, timestamp);
      UpdateKnownKeeps(Refreshed(t, k, timestamp, services), k, random, b, bad, u);
    } else {
      RegisterKeeps(t, k, timestamp);
      PlacedKeeps(Register(t, k, timestamp), k, b, bad, u);
    }
  }

  /** The new buckets with an address taken out of all of them. */
  function Without(news: seq<set<Key>>, k: Key): (r: seq<set<Key>>)
    ensures |r| == |news|
  {
    seq(|news|, i requires 0 <= i < |news| => news[i] - {k})
  }

  lemma HoldersWithout(news: seq<set<Key>>, k: Key, m: Key)
    ensures Holders(Without(news, k), m) == if m == k then {} else Holders(news, m)
  {
  }

  /** The first bucket from `i` on that holds an address, or the number of buckets. */
  function FirstHolder(news: seq<set<Key>>, k: Key, i: nat): (b: nat)
    requires i <= |news|
    ensures i <= b <= |news| && (b < |news| ==> k in news[b])
    ensures forall c: nat :: i <= c < b ==> k !in news[c]
    decreases |news| - i
  {
    if i == |news| || k in news[i] then i else FirstHolder(news, k, i + 1)
  }

  /** The entry of a tried bucket that `pickTried` chooses: the first of the oldest ones. */
  function PickTried(index: map<Key, Known>, bucket: seq<Key>): (j: nat)
    requires bucket != []
    ensures j < |bucket|
    ensures forall i: nat :: i < |bucket| ==> Get(index, bucket[j]).timestamp <= Get(index, bucket[i]).timestamp
    ensures forall i: nat :: i < j ==> Get(index, bucket[j]).timestamp < Get(index, bucket[i]).timestamp
  {
    var last := |bucket| - 1;
    if last == 0 then 0
    else
      var rest := bucket[..last];
      var j := PickTried(index, rest);
      assert forall i: nat :: i < last ==> bucket[i] == rest[i];
      if Get(index, bucket[j]).timestamp > Get(index, bucket[last]).timestamp then last else j
  }

  /** A new address becomes tried in a bucket that has room. */
  function Move(t: Tables, k: Key, tb: nat): Tables
    requires tb < |t.tried|
  {
    Tables(t.index[k := Get(t.index, k).(refs := 0, tried := true)],
           Without(t.news, k),
           t.tried[tb := t.tried[tb] + [k]],
           t.nNew - 1,
           t.nTried + 1)
  }

  /** A new address takes the place of a tried one, which goes back to a new bucket. */
  function Swap(t: Tables, k: Key, tb: nat, j: nat, b: nat): Tables
    requires tb < |t.tried| && j < |t.tried[tb]| && b < |t.news|
  {
    var rm := t.tried[tb][j];
    var was := Get(t.index, rm);
    var news := Without(t.news, k);
    t.(index := t.index[k := Get(t.index, k).(refs := 0, tried := true)][rm := was.(refs := was.refs + 1, tried := false)],
       news := news[b := news[b] + {rm}],
       tried := t.tried[tb := t.tried[tb][j := k]])
  }

  /** One call of `Good`. An untried address in no bucket only costs a count. */
  function Good(t: Tables, k: Key, tb: nat, nb: nat): Tables
    requires Sized(t) && tb < TRIED_BUCKET_COUNT && nb < NEW_BUCKET_COUNT
  {
    if k !in t.index || t.index[k].tried then t
    else
      var first := FirstHolder(t.news, k, 0);
      if first == |t.news| then t.(nNew := t.nNew - 1)
      else if |t.tried[tb]| < TRIED_BUCKET_SIZE then Move(t, k, tb)
      else
        var full := |Without(t.news, k)[nb]| >= NEW_BUCKET_SIZE;
        Swap(t, k, tb, PickTried(t.index, t.tried[tb]), if full then first else nb)
  }

  /** An untried address is always found in a bucket. */
  lemma AlwaysHeld(t: Tables, k: Key)
    requires Inv(t) && k in t.index && !t.index[k].tried
    ensures FirstHolder(t.news, k, 0) < |t.news|
  {
    assert RefOk(t, k, false);
    assert Holders(t.news, k) != {};
    var b :| b in Holders(t.news, k);
  }

  lemma MoveKeeps(t: Tables, k: Key, tb: nat)
    requires Inv(t) && k in t.index && !t.index[k].tried && tb < |t.tried| && |t.tried[tb]| < TRIED_BUCKET_SIZE
    ensures Inv(Move(t, k, tb))
  {
    hide RefsOk, TriedOk, Untried, TriedKeys;
    var u := Move(t, k, tb);
    MoveRefs(t, k, tb);
    UntriedKind(t.index, k);
    NewKind(t.index, k, u.index[k]);
    MoveTried(t, k, tb);
    WithoutSizes(t.news, k);
  }

  lemma UntriedKind(index: map<Key, Known>, k: Key)
    requires k in index && !index[k].tried
    ensures k !in TriedKeys(index) && k in Untried(index)
  {
  }

  lemma WithoutSizes(news: seq<set<Key>>, k: Key)
    ensures forall b: nat :: b < |news| ==> |Without(news, k)[b]| == |news[b]| - if k in news[b] then 1 else 0
  {
  }

  lemma MoveRefs(t: Tables, k: Key, tb: nat)
    requires RefsOk(t, None) && k in t.index && tb < |t.tried|
    ensures RefsOk(Move(t, k, tb), None)
  {
    var u := Move(t, k, tb);
    forall m | m in u.index ensures RefOk(u, m, false) {
      assert RefOk(t, m, false);
      HoldersWithout(t.news, k, m);
    }
  }

  lemma MoveTried(t: Tables, k: Key, tb: nat)
    requires TriedOk(t) && tb < |t.tried| && k !in TriedKeys(t.index)
    ensures TriedOk(Move(t, k, tb))
  {
    hide Untried, TriedKeys, ListedAt, Without;
    var u := Move(t, k, tb);
    NewKind(t.index, k, u.index[k]);
    assert u.tried[tb][|t.tried[tb]|] == k;
    forall m | m in TriedKeys(u.index) ensures ListedAt(u.tried, m) {
      ListedMove(t.tried, tb, k, m);
    }
  }

  lemma ListedMove(tried: seq<seq<Key>>, tb: nat, k: Key, m: Key)
    requires tb < |tried| && (m == k || ListedAt(tried, m))
    ensures ListedAt(tried[tb := tried[tb] + [k]], m)
  {
    var after := tried[tb := tried[tb] + [k]];
    if m == k {
      assert after[tb][|tried[tb]|] == k;
    } else {
      var b: nat, j: nat :| b < |tried| && j < |tried[b]| && tried[b][j] == m;
      assert after[b][j] == m;
    }
  }

  lemma SwapKeeps(t: Tables, k: Key, tb: nat, j: nat, b: nat)
    requires Inv(t) && k in t.index && !t.index[k].tried && tb < |t.tried| && j < |t.tried[tb]| && b < |t.news|
    requires |Without(t.news, k)[b]| <= NEW_BUCKET_SIZE
    ensures Inv(Swap(t, k, tb, j, b))
  {
    hide RefsOk, TriedOk, NewOk, CountsOk, Untried, TriedKeys;
    ListedIsTried(t, tb, j);
    SwapRefs(t, k, tb, j, b);
    SwapKinds(t, k, tb, j, b);
    SwapNew(t, k, tb, j, b);
    SwapCounts(t, k, tb, j, b);
    SwapTried(t, k, tb, j, b);
    WithoutSizes(t.news, k);
  }

  lemma SwapNew(t: Tables, k: Key, tb: nat, j: nat, b: nat)
    requires NewOk(t) && tb < |t.tried| && j < |t.tried[tb]| && b < |t.news|
    requires var u := Swap(t, k, tb, j, b); Untried(u.index) == Untried(t.index) - {k} + {t.tried[tb][j]}
    ensures NewOk(Swap(t, k, tb, j, b))
  {
    hide Untried;
  }

  lemma SwapCounts(t: Tables, k: Key, tb: nat, j: nat, b: nat)
    requires CountsOk(t) && tb < |t.tried| && j < |t.tried[tb]| && b < |t.news|
    requires k in t.index && !t.index[k].tried && t.tried[tb][j] in TriedKeys(t.index)
    requires var u, rm := Swap(t, k, tb, j, b), t.tried[tb][j];
             && Untried(u.index) == Untried(t.index) - {k} + {rm}
             && TriedKeys(u.index) == TriedKeys(t.index) + {k} - {rm}
    ensures CountsOk(Swap(t, k, tb, j, b))
  {
    var rm := t.tried[tb][j];
    assert k in Untried(t.index) && rm !in Untried(t.index) && k !in TriedKeys(t.index);
    assert |Untried(t.index) - {k} + {rm}| == |Untried(t.index)|;
    assert |TriedKeys(t.index) + {k} - {rm}| == |TriedKeys(t.index)|;
  }

  lemma ListedIsTried(t: Tables, tb: nat, j: nat)
    requires TriedOk(t) && tb < |t.tried| && j < |t.tried[tb]|
    ensures var rm := t.tried[tb][j]; rm in t.index && t.index[rm].tried && rm in TriedKeys(t.index) && rm !in Untried(t.index)
  {
    assert t.tried[tb][j] in TriedKeys(t.index);
  }

  lemma SwapKinds(t: Tables, k: Key, tb: nat, j: nat, b: nat)
    requires k in t.index && !t.index[k].tried && tb < |t.tried| && j < |t.tried[tb]| && b < |t.news|
    requires t.tried[tb][j] in TriedKeys(t.index)
    ensures var u, rm := Swap(t, k, tb, j, b), t.tried[tb][j];
            && Untried(u.index) == Untried(t.index) - {k} + {rm}
            && TriedKeys(u.index) == TriedKeys(t.index) + {k} - {rm}
  {
    hide Without;
  }

  lemma SwapRefs(t: Tables, k: Key, tb: nat, j: nat, b: nat)
    requires RefsOk(t, None) && NewOk(t) && k in t.index && !t.index[k].tried
    requires tb < |t.tried| && j < |t.tried[tb]| && b < |t.news|
    requires t.tried[tb][j] in t.index && t.index[t.tried[tb][j]].tried
    ensures RefsOk(Swap(t, k, tb, j, b), None)
  {
    var u, rm := Swap(t, k, tb, j, b), t.tried[tb][j];
    assert RefOk(t, rm, false);
    forall m | m in u.index ensures RefOk(u, m, false) {
      assert RefOk(t, m, false);
      HoldersWithout(t.news, k, m);
      assert rm !in t.news[b];
      HoldersPlace(Without(t.news, k), b, rm, m);
    }
  }

  lemma SwapTried(t: Tables, k: Key, tb: nat, j: nat, b: nat)
    requires TriedOk(t) && k in t.index && !t.index[k].tried
    requires tb < |t.tried| && j < |t.tried[tb]| && b < |t.news|
    ensures TriedOk(Swap(t, k, tb, j, b))
  {
    hide Untried, TriedKeys, ListedAt, Without;
    var u, rm := Swap(t, k, tb, j, b), t.tried[tb][j];
    UntriedKind(t.index, k);
    SwapKinds(t, k, tb, j, b);
    forall m | m in TriedKeys(u.index) ensures ListedAt(u.tried, m) {
      ListedSwap(t.tried, tb, j, k, m);
    }
  }

  lemma ListedSwap(tried: seq<seq<Key>>, tb: nat, j: nat, k: Key, m: Key)
    requires tb < |tried| && j < |tried[tb]| && (m == k || (ListedAt(tried, m) && m != tried[tb][j]))
    ensures ListedAt(tried[tb := tried[tb][j := k]], m)
  {
    var after := tried[tb := tried[tb][j := k]];
    if m == k {
      assert after[tb][j] == k;
    } else {
      var c: nat, l: nat :| c < |tried| && l < |tried[c]| && tried[c][l] == m;
      assert after[c][l] == m;
    }
  }

  /** Marking an address as good keeps all invariants. */
  lemma GoodKeeps(t: Tables, k: Key, tb: nat, nb: nat)
    requires Inv(t) && tb < TRIED_BUCKET_COUNT && nb < NEW_BUCKET_COUNT
    ensures Inv(Good(t, k, tb, nb))
  {
    hide RefsOk, NewOk, TriedOk, CountsOk, Move, Swap;
    if k in t.index && !t.index[k].tried {
      AlwaysHeld(t, k);
      WithoutSizes(t.news, k);
      if |t.tried[tb]| < TRIED_BUCKET_SIZE {
        MoveKeeps(t, k, tb);
      } else {
        var first := FirstHolder(t.news, k, 0);
        var full := |Without(t.news, k)[nb]| >= NEW_BUCKET_SIZE;
        SwapKeeps(t, k, tb, PickTried(t.index, t.tried[tb]), if full then first else nb);
      }
    }
  }

  /** What the address manager's callers can cause. Attempts, connections and services only
      touch a record. */
  datatype Action =
    | UpdateAddress(key: Key, timestamp: int, services: bool, random: nat, newBucket: nat, bad: Key -> bool)
    | MarkGood(key: Key, triedBucket: nat, newBucket: nat)
    | TouchAddress(key: Key, timestamp: int)

  ghost predicate Step(t: Tables, a: Action, u: Tables)
    requires Sized(t)
  {
    match a
    case UpdateAddress(k, timestamp, services, random, b, bad) =>
      b < NEW_BUCKET_COUNT && Updated(t, k, timestamp, services, random, b, bad, u)
    case MarkGood(k, tb, nb) => tb < TRIED_BUCKET_COUNT && nb < NEW_BUCKET_COUNT && u == Good(t, k, tb, nb)
    case TouchAddress(k, timestamp) => u == if k in t.index then Touch(t, k, timestamp) else t
  }

  lemma StepKeeps(t: Tables, a: Action, u: Tables)
    requires Inv(t) && Step(t, a, u)
    ensures Inv(u)
  {
    hide Inv, Updated, Good, Touch;
    match a
    case UpdateAddress(k, timestamp, services, random, b, bad) =>
      UpdateKeeps(t, k, timestamp, services, random, b, bad, u);
    case MarkGood(k, tb, nb) => GoodKeeps(t, k, tb, nb);
    case TouchAddress(k, timestamp) =>
      if k in t.index {
        TouchKeeps(t, k, timestamp);
      }
  }

  /** A run of the address manager from its empty state. */
  ghost predicate Run(states: seq<Tables>, actions: seq<Action>) {
    && |states| == |actions| + 1
    && states[0] == Empty()
    && (forall i: nat :: i < |states| ==> Sized(states[i]))
    && forall i: nat :: i < |actions| ==> Step(states[i], actions[i], states[i + 1])
  }

  lemma {:induction false} RunInv(states: seq<Tables>, actions: seq<Action>, i: nat)
    requires Run(states, actions) && i < |states|
    ensures Inv(states[i])
  {
    hide Inv, Step;
    if i == 0 {
      EmptyInv();
    } else {
      RunInv(states, actions, i - 1);
      StepKeeps(states[i - 1], actions[i - 1], states[i]);
    }
  }

  /** In every state of every run: an untried address is held by one to eight new buckets and
      its reference count says how many; a tried address is in no new bucket and in exactly one
      slot of one tried bucket; the counters add up; no bucket outgrows its limit. */
  lemma EveryRunIsSound(states: seq<Tables>, actions: seq<Action>, i: nat)
    requires Run(states, actions) && i < |states|
    ensures var t := states[i];
            && t.nNew == |Untried(t.index)| && t.nTried == |TriedKeys(t.index)| && t.nNew + t.nTried == |t.index|
            && (forall k :: k in Untried(t.index) ==>
                  t.index[k].refs == |Holders(t.news, k)| && 1 <= t.index[k].refs <= NEW_BUCKETS_PER_ADDRESS)
            && (forall k :: k in Untried(t.index) ==> !ListedAt(t.tried, k))
            && (forall k :: k in TriedKeys(t.index) ==>
                  t.index[k].refs == 0 && Holders(t.news, k) == {} && ListedAt(t.tried, k))
            && (forall b: nat :: b < |t.news| ==> |t.news[b]| <= NEW_BUCKET_SIZE + 1)
            && (forall b: nat :: b < |t.tried| ==> |t.tried[b]| <= TRIED_BUCKET_SIZE)
            && TriedOk(t)
  {
    RunInv(states, actions, i);
    var t := states[i];
    CountersAddUp(t);
    forall k | k in t.index ensures RefOk(t, k, false) {
    }
  }
}
