/**
 What the peers file of the address manager holds, addrmgr/addrmanager.go, and what loading it
 restores. References, kinds and counters are not in the file; they follow from the buckets.
 */
module PeersFiles {
  import opened Common
  import opened AddrTables

  const SERIALISATION_VERSION := 2

  datatype SavedAddress = SavedAddress(addr: Key, src: Key)

  datatype Saved = Saved(
    version: int,
    addresses: seq<SavedAddress>,
    newBuckets: seq<seq<Key>>,
    triedBuckets: seq<seq<Key>>)

  predicate SavedSized(s: Saved) {
    |s.newBuckets| == NEW_BUCKET_COUNT && |s.triedBuckets| == TRIED_BUCKET_COUNT
  }

  function Elements<T>(s: seq<T>): set<T> {
    set x | x in s
  }

  /** No address is listed twice. */
  predicate ListedOnce(addresses: seq<SavedAddress>) {
    forall i: nat, j: nat :: i < j < |addresses| ==> addresses[i].addr != addresses[j].addr
  }

  /** A file that `savePeers` may write for the tables: the address list and every new bucket in
      any order, the tried buckets in their own order. */
  ghost predicate IsSavedOf(t: Tables, s: Saved) {
    && SavedSized(s) && s.version <= SERIALISATION_VERSION
    && (set a | a in s.addresses :: a.addr) == t.index.Keys
    && ListedOnce(s.addresses)
    && (forall b: nat :: b < NEW_BUCKET_COUNT && b < |t.news| ==> Distinct(s.newBuckets[b]) && Elements(s.newBuckets[b]) == t.news[b])
    && s.triedBuckets == t.tried
  }

  /** How often an address stands in a list of buckets. */
  function Occurrences(buckets: seq<seq<Key>>, k: Key): nat {
    if buckets == [] then 0
    else Occurrences(buckets[..|buckets| - 1], k) + multiset(buckets[|buckets| - 1])[k]
  }

  /** The number of entries in all buckets. */
  function Total(buckets: seq<seq<Key>>): nat {
    if buckets == [] then 0 else Total(buckets[..|buckets| - 1]) + |buckets[|buckets| - 1]|
  }

  /** Parsing an address text gives the text of the address it denotes. */
  type Parser = Key -> Option<Key>

  ghost predicate Parses(parse: Parser, addresses: seq<SavedAddress>) {
    forall i: nat :: i < |addresses| ==> parse(addresses[i].addr).Some? && parse(addresses[i].src).Some?
  }

  ghost function Listed(parse: Parser, addresses: seq<SavedAddress>): set<Key> {
    set a | a in addresses && parse(a.addr).Some? :: parse(a.addr).value
  }

  ghost predicate AllIn(buckets: seq<seq<Key>>, keys: set<Key>) {
    forall b: nat, j: nat :: b < |buckets| && j < |buckets[b]| ==> buckets[b][j] in keys
  }

  /** The files that load: every address parses, every bucket entry is an address of the list,
      and every address of the list stands in buckets of exactly one kind. */
  ghost predicate Accepted(parse: Parser, s: Saved) {
    var keys := Listed(parse, s.addresses);
    && s.version <= SERIALISATION_VERSION
    && Parses(parse, s.addresses)
    && AllIn(s.newBuckets, keys)
    && AllIn(s.triedBuckets, keys)
    && forall k :: k in keys ==> (Occurrences(s.newBuckets, k) > 0 <==> !ListedAt(s.triedBuckets, k))
  }

  /** The addresses that stand in some new bucket. */
  ghost function Referenced(index: map<Key, Known>): set<Key> {
    set k | k in index && index[k].refs > 0
  }

  /** What loading a file leaves in the tables; the timestamps are not in the file. */
  ghost predicate Loaded(parse: Parser, s: Saved, u: Tables)
    requires SavedSized(s)
  {
    && Sized(u)
    && u.index.Keys == Listed(parse, s.addresses)
    && (forall k :: k in u.index ==> u.index[k].refs == Occurrences(s.newBuckets, k))
    && (forall k :: k in u.index ==> (u.index[k].tried <==> ListedAt(s.triedBuckets, k)))
    && (forall b: nat :: b < NEW_BUCKET_COUNT ==> u.news[b] == Elements(s.newBuckets[b]))
    && u.tried == s.triedBuckets
    && u.nNew == |Referenced(u.index)|
    && u.nTried == Total(s.triedBuckets)
  }

  /** Equal in all but the timestamps. */
  ghost predicate SameStructure(t: Tables, u: Tables) {
    && u.index.Keys == t.index.Keys
    && (forall k :: k in t.index ==> u.index[k].refs == t.index[k].refs && u.index[k].tried == t.index[k].tried)
    && u.news == t.news && u.tried == t.tried && u.nNew == t.nNew && u.nTried == t.nTried
  }

  lemma {:induction false} DistinctCount(s: seq<Key>, k: Key)
    requires Distinct(s)
    ensures multiset(s)[k] == if k in s then 1 else 0
  {
    if s != [] {
      var last := |s| - 1;
      assert s == s[..last] + [s[last]];
      DistinctCount(s[..last], k);
    }
  }

  /** With distinct entries, the occurrences count the buckets that hold the address. */
  lemma {:induction false} OccurrencesHeld(t: Tables, s: Saved, k: Key, n: nat)
    requires Sized(t) && IsSavedOf(t, s) && n <= NEW_BUCKET_COUNT
    ensures Occurrences(s.newBuckets[..n], k) == HeldBelow(t.news, k, n)
  {
    if n > 0 {
      OccurrencesHeld(t, s, k, n - 1);
      HeldBelowNext(t.news, k, n - 1);
      assert s.newBuckets[..n][..n - 1] == s.newBuckets[..n - 1];
      DistinctCount(s.newBuckets[n - 1], k);
      assert k in t.news[n - 1] <==> k in Elements(s.newBuckets[n - 1]);
    }
  }

  lemma {:induction false} DistinctSize(s: seq<Key>)
    requires Distinct(s)
    ensures |Elements(s)| == |s|
  {
    if s != [] {
      var last := |s| - 1;
      DistinctSize(s[..last]);
      assert Elements(s) == Elements(s[..last]) + {s[last]};
    }
  }

  /** The entries of the first `n` buckets. */
  ghost function Entries(buckets: seq<seq<Key>>, n: nat): set<Key>
    requires n <= |buckets|
  {
    if n == 0 then {} else Entries(buckets, n - 1) + Elements(buckets[n - 1])
  }

  lemma {:induction false} EntryAt(buckets: seq<seq<Key>>, n: nat, k: Key)
    requires n <= |buckets|
    ensures k in Entries(buckets, n) <==> exists b: nat, j: nat :: b < n && j < |buckets[b]| && buckets[b][j] == k
  {
    if n > 0 {
      EntryAt(buckets, n - 1, k);
    }
  }

  ghost predicate NoneTwice(tried: seq<seq<Key>>) {
    forall b: nat, j: nat, c: nat, l: nat ::
      b < |tried| && j < |tried[b]| && c < |tried| && l < |tried[c]| && tried[b][j] == tried[c][l] ==> b == c && j == l
  }

  /** No entry stands twice, so counting them is counting tried addresses. */
  lemma {:induction false} TotalCounts(tried: seq<seq<Key>>, n: nat)
    requires NoneTwice(tried) && n <= |tried|
    ensures Total(tried[..n]) == |Entries(tried, n)|
  {
    hide NoneTwice;
    if n > 0 {
      TotalCounts(tried, n - 1);
      assert tried[..n][..n - 1] == tried[..n - 1];
      BucketApart(tried, n);
    }
  }

  lemma BucketApart(tried: seq<seq<Key>>, n: nat)
    requires NoneTwice(tried) && 0 < n <= |tried|
    ensures |Elements(tried[n - 1])| == |tried[n - 1]| && Entries(tried, n - 1) !! Elements(tried[n - 1])
  {
    hide Entries;
    DistinctSize(tried[n - 1]);
    var bucket, before := Elements(tried[n - 1]), Entries(tried, n - 1);
    forall k | k in bucket ensures k !in before {
      EntryAt(tried, n - 1, k);
    }
  }

  lemma TriedCounted(t: Tables)
    requires TriedOk(t)
    ensures Total(t.tried) == |TriedKeys(t.index)|
  {
    TotalCounts(t.tried, |t.tried|);
    assert t.tried[..|t.tried|] == t.tried;
    forall k ensures k in Entries(t.tried, |t.tried|) <==> k in TriedKeys(t.index) {
      EntryAt(t.tried, |t.tried|, k);
    }
    assert Entries(t.tried, |t.tried|) == TriedKeys(t.index);
  }

  /** The references that follow from a saved file are those of the tables. */
  lemma SavedRefs(t: Tables, s: Saved, k: Key)
    requires Inv(t) && IsSavedOf(t, s) && k in t.index
    ensures Occurrences(s.newBuckets, k) == t.index[k].refs
    ensures t.index[k].tried <==> ListedAt(s.triedBuckets, k)
    ensures t.index[k].refs > 0 <==> !t.index[k].tried
  {
    OccurrencesHeld(t, s, k, NEW_BUCKET_COUNT);
    assert s.newBuckets[..NEW_BUCKET_COUNT] == s.newBuckets && t.news[..NEW_BUCKET_COUNT] == t.news;
    assert RefOk(t, k, false);
    assert k in TriedKeys(t.index) <==> ListedAt(t.tried, k);
  }

  /** All addresses of the tables, and their sources, survive being written and parsed. */
  ghost predicate TextRoundTrip(parse: Parser, s: Saved) {
    forall i: nat :: i < |s.addresses| ==> parse(s.addresses[i].addr) == Some(s.addresses[i].addr) && parse(s.addresses[i].src).Some?
  }

  lemma ListedKeys(parse: Parser, t: Tables, s: Saved)
    requires IsSavedOf(t, s) && TextRoundTrip(parse, s)
    ensures Listed(parse, s.addresses) == t.index.Keys
  {
    var addrs := set a | a in s.addresses :: a.addr;
    forall k | k in addrs ensures k in Listed(parse, s.addresses) {
      var a :| a in s.addresses && a.addr == k;
      assert parse(a.addr) == Some(k);
    }
    forall k | k in Listed(parse, s.addresses) ensures k in addrs {
      var a :| a in s.addresses && parse(a.addr).Some? && parse(a.addr).value == k;
      assert a.addr == k;
    }
  }

  /** Every saved file of sound tables loads. */
  lemma SavedIsAccepted(parse: Parser, t: Tables, s: Saved)
    requires Inv(t) && IsSavedOf(t, s) && TextRoundTrip(parse, s)
    ensures Accepted(parse, s)
  {
    hide RefsOk, CountsOk, SizesOk;
    ListedKeys(parse, t, s);
    forall k | k in t.index ensures Occurrences(s.newBuckets, k) > 0 <==> !ListedAt(s.triedBuckets, k) {
      SavedRefs(t, s, k);
    }
    forall b: nat, j: nat | b < |s.newBuckets| && j < |s.newBuckets[b]| ensures s.newBuckets[b][j] in t.index {
      assert s.newBuckets[b][j] in Elements(s.newBuckets[b]) && t.news[b] <= Untried(t.index);
    }
    forall b: nat, j: nat | b < |s.triedBuckets| && j < |s.triedBuckets[b]| ensures s.triedBuckets[b][j] in t.index {
      ListedIsTried(t, b, j);
    }
  }

  /** Saving and loading restores all tables and counters. */
  lemma SaveThenLoad(parse: Parser, t: Tables, s: Saved, u: Tables)
    requires Inv(t) && IsSavedOf(t, s) && TextRoundTrip(parse, s) && Loaded(parse, s, u)
    ensures SameStructure(t, u)
  {
    hide RefsOk, NewOk, TriedOk, SizesOk, Occurrences, ListedAt, Listed, Total, TextRoundTrip, Distinct, ListedOnce;
    ListedKeys(parse, t, s);
    forall k | k in t.index
      ensures u.index[k].refs == t.index[k].refs && u.index[k].tried == t.index[k].tried && (t.index[k].refs > 0 <==> !t.index[k].tried)
    {
      SavedRefs(t, s, k);
    }
    TriedCounted(t);
    assert Referenced(u.index) == Untried(t.index);
    assert u.news == t.news;
  }

  /** What has been loaded satisfies the invariants again. */
  lemma LoadedInv(t: Tables, u: Tables)
    requires Inv(t) && SameStructure(t, u)
    ensures Inv(u)
  {
    hide TriedOk, Holders;
    assert Untried(u.index) == Untried(t.index) && TriedKeys(u.index) == TriedKeys(t.index);
    SameTried(t, u);
    forall k | k in u.index ensures RefOk(u, k, false) {
      assert RefOk(t, k, false);
    }
  }

  /** An address stands at least as often in the file as there are buckets that hold it, and
      exactly as often if and only if no bucket lists it twice. */
  lemma {:induction false} OccurrencesAtLeast(buckets: seq<seq<Key>>, news: seq<set<Key>>, k: Key, n: nat)
    requires n <= |buckets| == |news| && forall b: nat :: b < |news| ==> news[b] == Elements(buckets[b])
    ensures Occurrences(buckets[..n], k) >= HeldBelow(news, k, n)
    ensures Occurrences(buckets[..n], k) == HeldBelow(news, k, n) <==> forall b: nat :: b < n ==> multiset(buckets[b])[k] <= 1
  {
    hide HeldBelow;
    if n == 0 {
      NoneHeld(news, k);
    } else {
      OccurrencesAtLeast(buckets, news, k, n - 1);
      HeldBelowNext(news, k, n - 1);
      assert buckets[..n][..n - 1] == buckets[..n - 1];
      assert k in news[n - 1] <==> k in Elements(buckets[n - 1]);
    }
  }

  lemma NoneHeld(news: seq<set<Key>>, k: Key)
    ensures HeldBelow(news, k, 0) == 0
  {
    assert Holders(news[..0], k) == {};
  }

  lemma {:induction false} DistinctByCount(s: seq<Key>)
    requires forall k :: k in s ==> multiset(s)[k] <= 1
    ensures Distinct(s)
  {
    if s != [] {
      var last := |s| - 1;
      assert s == s[..last] + [s[last]];
      forall k | k in s[..last] ensures multiset(s[..last])[k] <= 1 {
        assert multiset(s)[k] == multiset(s[..last])[k] + multiset([s[last]])[k];
      }
      DistinctByCount(s[..last]);
      assert multiset(s)[s[last]] == multiset(s[..last])[s[last]] + 1;
      assert s[last] !in s[..last];
    }
  }

  /** The references are right exactly when no new bucket lists an address twice. */
  lemma RefsExact(s: Saved, u: Tables, k: Key)
    requires SavedSized(s) && Sized(u) && forall b: nat :: b < NEW_BUCKET_COUNT ==> u.news[b] == Elements(s.newBuckets[b])
    ensures Occurrences(s.newBuckets, k) == |Holders(u.news, k)|
            <==> forall b: nat :: b < NEW_BUCKET_COUNT ==> multiset(s.newBuckets[b])[k] <= 1
  {
    hide Occurrences, Holders;
    OccurrencesAtLeast(s.newBuckets, u.news, k, NEW_BUCKET_COUNT);
    assert s.newBuckets[..NEW_BUCKET_COUNT] == s.newBuckets && u.news[..NEW_BUCKET_COUNT] == u.news;
  }

  lemma {:induction false} StandsSomewhere(buckets: seq<seq<Key>>, b: nat, k: Key)
    requires b < |buckets| && k in buckets[b]
    ensures Occurrences(buckets, k) > 0
  {
    var last := |buckets| - 1;
    if b < last {
      StandsSomewhere(buckets[..last], b, k);
    }
  }

  /** A file whose buckets keep the limits and repeat no entry. */
  ghost predicate WellFormed(parse: Parser, s: Saved) {
    && (forall b: nat :: b < |s.newBuckets| ==> Distinct(s.newBuckets[b]) && |s.newBuckets[b]| <= NEW_BUCKET_SIZE + 1)
    && (forall k :: k in Listed(parse, s.addresses) ==> Occurrences(s.newBuckets, k) <= NEW_BUCKETS_PER_ADDRESS)
    && NoneTwice(s.triedBuckets)
    && (forall b: nat :: b < |s.triedBuckets| ==> |s.triedBuckets[b]| <= TRIED_BUCKET_SIZE)
  }

  /** Loading does not check for repeated entries or limits: an accepted file gives sound tables
      if and only if it is well formed. */
  lemma LoadedSound(parse: Parser, s: Saved, u: Tables)
    requires SavedSized(s) && Accepted(parse, s) && Loaded(parse, s, u)
    ensures Inv(u) <==> WellFormed(parse, s)
  {
    hide *;
    if Inv(u) {
      SoundIsWellFormed(parse, s, u);
    }
    if WellFormed(parse, s) {
      WellFormedIsSound(parse, s, u);
    }
  }

  lemma SoundIsWellFormed(parse: Parser, s: Saved, u: Tables)
    requires SavedSized(s) && Accepted(parse, s) && Loaded(parse, s, u) && Inv(u)
    ensures WellFormed(parse, s)
  {
    hide Occurrences, Holders, ListedAt, Listed, CountsOk, NewOk, Distinct;
    forall k | k in u.index ensures RefOk(u, k, false) && forall b: nat :: b < NEW_BUCKET_COUNT ==> multiset(s.newBuckets[b])[k] <= 1 {
      assert RefOk(u, k, false);
      RefsExact(s, u, k);
    }
    forall b: nat | b < NEW_BUCKET_COUNT ensures Distinct(s.newBuckets[b]) && |s.newBuckets[b]| <= NEW_BUCKET_SIZE + 1 {
      DistinctByCount(s.newBuckets[b]);
      DistinctSize(s.newBuckets[b]);
    }
  }

  lemma WellFormedIsSound(parse: Parser, s: Saved, u: Tables)
    requires SavedSized(s) && Accepted(parse, s) && Loaded(parse, s, u) && WellFormed(parse, s)
    ensures Inv(u)
  {
    hide Occurrences, Holders, ListedAt, Listed, TriedOk, Total;
    WellFormedRefs(parse, s, u);
    WellFormedBuckets(parse, s, u);
    assert Referenced(u.index) == Untried(u.index);
    TriedCounted(u);
  }

  lemma WellFormedRefs(parse: Parser, s: Saved, u: Tables)
    requires SavedSized(s) && Accepted(parse, s) && Loaded(parse, s, u) && WellFormed(parse, s)
    ensures RefsOk(u, None)
  {
    hide Occurrences, Holders, ListedAt, Listed, Distinct;
    forall k | k in u.index ensures RefOk(u, k, false) {
      forall b: nat | b < NEW_BUCKET_COUNT ensures multiset(s.newBuckets[b])[k] <= 1 {
        DistinctCount(s.newBuckets[b], k);
      }
      RefsExact(s, u, k);
    }
  }

  lemma WellFormedBuckets(parse: Parser, s: Saved, u: Tables)
    requires SavedSized(s) && Accepted(parse, s) && Loaded(parse, s, u) && WellFormed(parse, s)
    ensures NewOk(u) && TriedOk(u) && SizesOk(u)
  {
    hide Occurrences, Holders, Listed, Distinct;
    forall b: nat | b < NEW_BUCKET_COUNT ensures u.news[b] <= Untried(u.index) && |u.news[b]| <= NEW_BUCKET_SIZE + 1 {
      DistinctSize(s.newBuckets[b]);
      forall k | k in u.news[b] ensures k in Untried(u.index) {
        StandsSomewhere(s.newBuckets, b, k);
      }
    }
    forall b: nat, j: nat | b < |u.tried| && j < |u.tried[b]| ensures u.tried[b][j] in TriedKeys(u.index) {
      assert ListedAt(s.triedBuckets, u.tried[b][j]);
    }
  }

  /** The first entry of all buckets, if there is one, is a known address. */
  ghost predicate BeginsKnown(buckets: seq<seq<Key>>, keys: set<Key>) {
    exists b: nat :: FirstFilled(buckets, b) && buckets[b][0] in keys
  }

  ghost predicate FirstFilled(buckets: seq<seq<Key>>, b: nat) {
    b < |buckets| && buckets[b] != [] && forall c: nat :: c < b ==> buckets[c] == []
  }

  lemma {:induction false} FirstOfTotal(buckets: seq<seq<Key>>, n: nat)
    requires n <= |buckets|
    ensures Total(buckets[..n]) > 0 <==> exists b: nat :: b < n && FirstFilled(buckets, b)
    ensures Total(buckets[..n]) == 0 <==> forall b: nat :: b < n ==> buckets[b] == []
  {
    if n > 0 {
      FirstOfTotal(buckets, n - 1);
      assert buckets[..n][..n - 1] == buckets[..n - 1];
      assert Total(buckets[..n - 1]) == 0 && buckets[n - 1] != [] ==> FirstFilled(buckets, n - 1);
    }
  }

  /** When the first `n` buckets hold known addresses only, these decide, unless they are empty. */
  lemma BeginsBy(buckets: seq<seq<Key>>, keys: set<Key>, n: nat)
    requires n <= |buckets| && AllIn(buckets[..n], keys)
    ensures Total(buckets[..n]) > 0 ==> BeginsKnown(buckets, keys)
    ensures Total(buckets[..n]) == 0 && n == |buckets| ==> !BeginsKnown(buckets, keys)
    ensures Total(buckets[..n]) == 0 && n < |buckets| && buckets[n] != [] ==> (BeginsKnown(buckets, keys) <==> buckets[n][0] in keys)
  {
    hide Total;
    FirstOfTotal(buckets, n);
    if Total(buckets[..n]) > 0 {
      var b: nat :| b < n && FirstFilled(buckets, b);
      assert buckets[..n][b][0] in keys;
    } else if n < |buckets| && buckets[n] != [] {
      assert FirstFilled(buckets, n);
    }
  }

  /** Whether reading the file gets as far as counting a new, or a tried, address. */
  ghost predicate CountsNew(parse: Parser, s: Saved) {
    s.version <= SERIALISATION_VERSION && Parses(parse, s.addresses) && BeginsKnown(s.newBuckets, Listed(parse, s.addresses))
  }

  ghost predicate CountsTried(parse: Parser, s: Saved) {
    && s.version <= SERIALISATION_VERSION && Parses(parse, s.addresses)
    && AllIn(s.newBuckets, Listed(parse, s.addresses)) && BeginsKnown(s.triedBuckets, Listed(parse, s.addresses))
  }

  /** A rejected file clears the tables but leaves the counters, so that the address manager
      starts afresh if and only if nothing had been counted. */
  ghost predicate Restarted(parse: Parser, s: Saved, u: Tables) {
    && u == Empty().(nNew := u.nNew, nTried := u.nTried)
    && 0 <= u.nNew && (u.nNew == 0 <==> !CountsNew(parse, s))
    && 0 <= u.nTried && (u.nTried == 0 <==> !CountsTried(parse, s))
  }

  lemma FreshExactly(parse: Parser, s: Saved, u: Tables)
    requires Restarted(parse, s, u)
    ensures Inv(u) <==> !CountsNew(parse, s) && !CountsTried(parse, s)
    ensures Inv(u) <==> u == Empty()
  {
    hide RefsOk, TriedOk, NewOk, SizesOk, CountsNew, CountsTried;
    EmptyInv();
    assert u.index == map[];
    assert Untried(u.index) == {} && TriedKeys(u.index) == {};
  }

  /** A file with one listed address and a bucket that also names an unlisted one. */
  function BrokenFile(): Saved {
    Saved(SERIALISATION_VERSION, [SavedAddress("a", "a")], seq(NEW_BUCKET_COUNT, b => if b == 0 then ["a", "b"] else []),
          seq(TRIED_BUCKET_COUNT, _ => []))
  }

  /** The file is rejected, and no state it may leave is sound. */
  lemma CountersStay(u: Tables)
    requires Restarted(k => Some(k), BrokenFile(), u)
    ensures SavedSized(BrokenFile()) && !Accepted(k => Some(k), BrokenFile()) && !Inv(u)
  {
    hide Inv, Empty;
    var parse: Parser, s := k => Some(k), BrokenFile();
    var keys := Listed(parse, s.addresses);
    assert forall k :: k in keys ==> k == "a";
    assert s.newBuckets[0][1] == "b" && "b" !in keys;
    assert s.addresses[0] in s.addresses && "a" in keys;
    assert FirstFilled(s.newBuckets, 0);
    FreshExactly(parse, s, u);
  }
}
