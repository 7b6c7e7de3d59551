/**
 The orphan pool of blockchain/chain.go: orphans by hash, orphans by parent, and a note of the
 oldest one that may go stale. The hash of a block determines the parent its header names.
 */
module OrphanPools {
  import opened Common

  const MAX_ORPHAN_BLOCKS: nat := 100

  datatype Orphan = Orphan(hash: Hash, expiration: int)

  type Parents = Hash -> Hash

  /** Expirations by hash, hashes by parent, and the oldest orphan seen so far. */
  datatype Pool = Pool(orphans: map<Hash, int>, prevOrphans: map<Hash, seq<Hash>>, oldest: Option<Orphan>)

  function EmptyPool(): Pool {
    Pool(map[], map[], None)
  }

  /** The list kept for a parent: not empty, without repetition, and all of its orphans. */
  ghost predicate ListOk(orphans: map<Hash, int>, prev: Parents, p: Hash, list: seq<Hash>) {
    list != [] && Distinct(list) && forall i: nat :: i < |list| ==> list[i] in orphans && prev(list[i]) == p
  }

  ghost predicate Listed(prevOrphans: map<Hash, seq<Hash>>, prev: Parents, h: Hash) {
    prev(h) in prevOrphans && h in prevOrphans[prev(h)]
  }

  /** The two maps index each other exactly. */
  ghost predicate Indexed(pool: Pool, prev: Parents) {
    && (forall h :: h in pool.orphans ==> Listed(pool.prevOrphans, prev, h))
    && (forall p :: p in pool.prevOrphans ==> ListOk(pool.orphans, prev, p, pool.prevOrphans[p]))
  }

  /** At most one too many, and only right after a stale note has been dropped. */
  ghost predicate Bounded(pool: Pool) {
    |pool.orphans| <= MAX_ORPHAN_BLOCKS || (|pool.orphans| == MAX_ORPHAN_BLOCKS + 1 && pool.oldest.None?)
  }

  ghost predicate Inv(pool: Pool, prev: Parents) {
    Indexed(pool, prev) && Bounded(pool)
  }

  /** A list without some of its entries. */
  function FilterOut(list: seq<Hash>, gone: set<Hash>): seq<Hash> {
    if list == [] then []
    else
      var last := |list| - 1;
      FilterOut(list[..last], gone) + if list[last] in gone then [] else [list[last]]
  }

  lemma {:induction false} FilterMembers(list: seq<Hash>, gone: set<Hash>, h: Hash)
    ensures h in FilterOut(list, gone) <==> h in list && h !in gone
  {
    if list != [] {
      var last := |list| - 1;
      FilterMembers(list[..last], gone, h);
      assert list == list[..last] + [list[last]];
    }
  }

  lemma {:induction false} FilterDistinct(list: seq<Hash>, gone: set<Hash>)
    requires Distinct(list)
    ensures Distinct(FilterOut(list, gone))
  {
    if list != [] {
      var last := |list| - 1;
      FilterDistinct(list[..last], gone);
      FilterMembers(list[..last], gone, list[last]);
    }
  }

  lemma {:induction false} FilterTwice(list: seq<Hash>, gone: set<Hash>, more: set<Hash>)
    ensures FilterOut(FilterOut(list, gone), more) == FilterOut(list, gone + more)
  {
    if list != [] {
      var last := |list| - 1;
      FilterTwice(list[..last], gone, more);
      var kept := FilterOut(list[..last], gone);
      if list[last] !in gone {
        assert (kept + [list[last]])[..|kept|] == kept;
      } else {
        assert FilterOut(list, gone) == kept;
      }
    }
  }

  lemma FilterNext(list: seq<Hash>, gone: set<Hash>, n: nat)
    requires n < |list|
    ensures FilterOut(list[..n + 1], gone) == FilterOut(list[..n], gone) + if list[n] in gone then [] else [list[n]]
  {
    assert list[..n + 1][..n] == list[..n];
  }

  lemma {:induction false} FilterNone(list: seq<Hash>, gone: set<Hash>)
    requires forall i: nat :: i < |list| ==> list[i] !in gone
    ensures FilterOut(list, gone) == list
  {
    if list != [] {
      var last := |list| - 1;
      FilterNone(list[..last], gone);
      assert list == list[..last] + [list[last]];
    }
  }

  function FilterAll(prevOrphans: map<Hash, seq<Hash>>, gone: set<Hash>): map<Hash, seq<Hash>> {
    map p | p in prevOrphans && FilterOut(prevOrphans[p], gone) != [] :: FilterOut(prevOrphans[p], gone)
  }

  /** The pool without some orphans, in both maps. */
  function Remove(pool: Pool, gone: set<Hash>): Pool {
    pool.(orphans := pool.orphans - gone, prevOrphans := FilterAll(pool.prevOrphans, gone))
  }

  lemma RemoveIndexed(pool: Pool, prev: Parents, gone: set<Hash>)
    requires Indexed(pool, prev)
    ensures Indexed(Remove(pool, gone), prev)
  {
    var u := Remove(pool, gone);
    forall h | h in u.orphans ensures Listed(u.prevOrphans, prev, h) {
      assert Listed(pool.prevOrphans, prev, h);
      FilterMembers(pool.prevOrphans[prev(h)], gone, h);
    }
    forall p | p in u.prevOrphans ensures ListOk(u.orphans, prev, p, u.prevOrphans[p]) {
      var list := pool.prevOrphans[p];
      assert ListOk(pool.orphans, prev, p, list);
      FilterDistinct(list, gone);
      forall i: nat | i < |u.prevOrphans[p]| ensures u.prevOrphans[p][i] in u.orphans && prev(u.prevOrphans[p][i]) == p {
        FilterMembers(list, gone, u.prevOrphans[p][i]);
      }
    }
  }

  lemma RemoveMore(pool: Pool, gone: set<Hash>, more: set<Hash>)
    ensures Remove(Remove(pool, gone), more) == Remove(pool, gone + more)
  {
    var u, v := Remove(Remove(pool, gone), more), Remove(pool, gone + more);
    forall p | p in pool.prevOrphans
      ensures FilterOut(FilterOut(pool.prevOrphans[p], gone), more) == FilterOut(pool.prevOrphans[p], gone + more)
    {
      FilterTwice(pool.prevOrphans[p], gone, more);
    }
    assert u.prevOrphans == v.prevOrphans;
  }

  lemma NoteIndexed(pool: Pool, prev: Parents, o: Option<Orphan>)
    requires Indexed(pool, prev)
    ensures Indexed(pool.(oldest := o), prev)
  {
  }

  lemma RemoveNothing(pool: Pool, prev: Parents)
    requires Indexed(pool, prev)
    ensures Remove(pool, {}) == pool
  {
    hide FilterOut, Listed;
    forall p | p in pool.prevOrphans ensures FilterOut(pool.prevOrphans[p], {}) == pool.prevOrphans[p] != [] {
      FilterNone(pool.prevOrphans[p], {});
      assert ListOk(pool.orphans, prev, p, pool.prevOrphans[p]);
    }
    assert FilterAll(pool.prevOrphans, {}) == pool.prevOrphans;
  }

  /** Only the list of the parent changes when one orphan is removed. */
  lemma RemoveOne(pool: Pool, prev: Parents, h: Hash)
    requires Indexed(pool, prev)
    ensures var list := FilterOut(ListFor(pool.prevOrphans, prev(h)), {h});
            FilterAll(pool.prevOrphans, {h}) == if list == [] then pool.prevOrphans - {prev(h)} else pool.prevOrphans[prev(h) := list]
  {
    hide FilterOut, Listed;
    FilterNone([], {h});
    forall p | p in pool.prevOrphans && p != prev(h) ensures FilterOut(pool.prevOrphans[p], {h}) == pool.prevOrphans[p] != [] {
      assert ListOk(pool.orphans, prev, p, pool.prevOrphans[p]);
      FilterNone(pool.prevOrphans[p], {h});
    }
  }

  function ListFor(prevOrphans: map<Hash, seq<Hash>>, p: Hash): seq<Hash> {
    if p in prevOrphans then prevOrphans[p] else []
  }

  function Insert(pool: Pool, prev: Parents, h: Hash, expiration: int): Pool {
    pool.(orphans := pool.orphans[h := expiration],
          prevOrphans := pool.prevOrphans[prev(h) := ListFor(pool.prevOrphans, prev(h)) + [h]])
  }

  lemma InsertIndexed(pool: Pool, prev: Parents, h: Hash, expiration: int)
    requires Indexed(pool, prev) && h !in pool.orphans
    ensures Indexed(Insert(pool, prev, h, expiration), prev)
  {
    var u := Insert(pool, prev, h, expiration);
    forall k | k in u.orphans ensures Listed(u.prevOrphans, prev, k) {
      assert k != h ==> Listed(pool.prevOrphans, prev, k);
    }
    forall p | p in u.prevOrphans ensures ListOk(u.orphans, prev, p, u.prevOrphans[p]) {
      assert p in pool.prevOrphans ==> ListOk(pool.orphans, prev, p, pool.prevOrphans[p]);
    }
  }

  /** What the note of the oldest orphan may become after a walk over the live ones: it stays,
      stale or not, unless some live orphan is older, and then it is one of the oldest. */
  ghost predicate Noted(orphans: map<Hash, int>, live: set<Hash>, was: Option<Orphan>, o: Option<Orphan>)
    requires live <= orphans.Keys
  {
    match o
    case None => was.None? && live == {}
    case Some(x) =>
      && (forall h :: h in live ==> x.expiration <= orphans[h])
      && (o == was || (x.hash in live && x.expiration == orphans[x.hash] && (was.Some? ==> x.expiration < was.value.expiration)))
  }

  /** When the pool is full there is an orphan to drop. */
  lemma OldestIsNoted(orphans: map<Hash, int>, live: set<Hash>, was: Option<Orphan>, o: Option<Orphan>)
    requires live <= orphans.Keys && Noted(orphans, live, was, o) && |live| + 1 > MAX_ORPHAN_BLOCKS
    ensures o.Some?
  {
    assert live != {};
  }

  /** The pool after dropping the noted orphan to make room. */
  function Evict(pool: Pool): Pool {
    if pool.oldest.None? then pool else Remove(pool, {pool.oldest.value.hash}).(oldest := None)
  }

  /** One call of `addOrphanBlock` that finds `expired` orphans. */
  ghost predicate Added(pool: Pool, prev: Parents, h: Hash, expiration: int, expired: set<Hash>, u: Pool) {
    exists o :: Noted(pool.orphans, pool.orphans.Keys - expired, pool.oldest, o) && u == AddedWith(pool, prev, h, expiration, expired, o)
  }

  function AddedWith(pool: Pool, prev: Parents, h: Hash, expiration: int, expired: set<Hash>, o: Option<Orphan>): Pool {
    var mid := Remove(pool, expired).(oldest := o);
    Insert(if |mid.orphans| + 1 > MAX_ORPHAN_BLOCKS then Evict(mid) else mid, prev, h, expiration)
  }

  lemma AddKeeps(pool: Pool, prev: Parents, h: Hash, expiration: int, expired: set<Hash>, u: Pool)
    requires Inv(pool, prev) && h !in pool.orphans && Added(pool, prev, h, expiration, expired, u)
    ensures Inv(u, prev)
  {
    hide Noted, ListOk, Listed;
    var o :| Noted(pool.orphans, pool.orphans.Keys - expired, pool.oldest, o) && u == AddedWith(pool, prev, h, expiration, expired, o);
    var mid := Remove(pool, expired).(oldest := o);
    RemoveIndexed(pool, prev, expired);
    if |mid.orphans| + 1 > MAX_ORPHAN_BLOCKS {
      if o.Some? {
        RemoveIndexed(mid, prev, {o.value.hash});
      }
      InsertIndexed(Evict(mid), prev, h, expiration);
    } else {
      InsertIndexed(mid, prev, h, expiration);
    }
    AddBounded(pool, prev, h, expiration, expired, o);
  }

  lemma RemoveSize(pool: Pool, gone: set<Hash>)
    ensures Remove(pool, gone).orphans.Keys == pool.orphans.Keys - gone
    ensures |Remove(pool, gone).orphans| == |pool.orphans.Keys - gone| <= |pool.orphans|
  {
    var u := Remove(pool, gone);
    assert |u.orphans| == |u.orphans.Keys| && |pool.orphans| == |pool.orphans.Keys|;
    Smaller(u.orphans.Keys, pool.orphans.Keys);
  }

  lemma InsertSize(pool: Pool, prev: Parents, h: Hash, expiration: int)
    requires h !in pool.orphans
    ensures |Insert(pool, prev, h, expiration).orphans| == |pool.orphans| + 1
  {
    var u := Insert(pool, prev, h, expiration);
    assert u.orphans.Keys == pool.orphans.Keys + {h};
    assert |u.orphans| == |u.orphans.Keys| && |pool.orphans| == |pool.orphans.Keys|;
  }

  lemma AddBounded(pool: Pool, prev: Parents, h: Hash, expiration: int, expired: set<Hash>, o: Option<Orphan>)
    requires Bounded(pool) && h !in pool.orphans && Noted(pool.orphans, pool.orphans.Keys - expired, pool.oldest, o)
    ensures Bounded(AddedWith(pool, prev, h, expiration, expired, o))
  {
    hide FilterAll, ListFor;
    var live := pool.orphans.Keys - expired;
    var mid := Remove(pool, expired).(oldest := o);
    RemoveSize(pool, expired);
    if |live| + 1 > MAX_ORPHAN_BLOCKS {
      OldestIsNoted(pool.orphans, live, pool.oldest, o);
      RemoveSize(mid, {o.value.hash});
      InsertSize(Evict(mid), prev, h, expiration);
      assert pool.oldest.None? ==> o.value.hash in live;
    } else {
      InsertSize(mid, prev, h, expiration);
    }
  }

  /** An orphan that may be dropped to make room: one that no live orphan is older than, or one
      that was noted before with an expiration no later than those of the live ones. */
  ghost predicate Droppable(pool: Pool, live: set<Hash>, x: Hash)
    requires live <= pool.orphans.Keys
  {
    || (x in live && forall k :: k in live ==> pool.orphans[x] <= pool.orphans[k])
    || (pool.oldest.Some? && pool.oldest.value.hash == x && forall k :: k in live ==> pool.oldest.value.expiration <= pool.orphans[k])
  }

  /** The pool after a block has been added: the live orphans without `dropped`, and the block. */
  ghost predicate Holds(pool: Pool, live: set<Hash>, dropped: set<Hash>, h: Hash, expiration: int, u: Pool) {
    && u.orphans.Keys == live - dropped + {h} && u.orphans[h] == expiration
    && forall k :: k in live - dropped && k in pool.orphans && k != h ==> u.orphans[k] == pool.orphans[k]
  }

  ghost predicate ListedLast(prevOrphans: map<Hash, seq<Hash>>, prev: Parents, h: Hash) {
    var list := ListFor(prevOrphans, prev(h));
    list != [] && list[|list| - 1] == h
  }

  /** Adding a block keeps exactly the live orphans, except one when they fill the pool; the new
      block has its own expiration, is listed last under its parent, and the others keep their
      expirations. The note then names an expiration no later than any live one, and is cleared
      when an orphan was dropped. */
  lemma AddEffect(pool: Pool, prev: Parents, h: Hash, expiration: int, expired: set<Hash>, u: Pool)
    requires h !in pool.orphans && Added(pool, prev, h, expiration, expired, u)
    ensures ListedLast(u.prevOrphans, prev, h)
    ensures var live := pool.orphans.Keys - expired;
            if |live| < MAX_ORPHAN_BLOCKS then
              && Holds(pool, live, {}, h, expiration, u)
              && (live != {} ==> u.oldest.Some? && forall k :: k in live ==> u.oldest.value.expiration <= pool.orphans[k])
            else
              u.oldest.None? && exists x :: Droppable(pool, live, x) && Holds(pool, live, {x}, h, expiration, u)
  {
    hide AddedWith, Holds, ListedLast;
    var live := pool.orphans.Keys - expired;
    var o :| Noted(pool.orphans, live, pool.oldest, o) && u == AddedWith(pool, prev, h, expiration, expired, o);
    AddedHolds(pool, prev, h, expiration, expired, o);
    AddedLast(pool, prev, h, expiration, expired, o);
    if |live| >= MAX_ORPHAN_BLOCKS {
      OldestIsNoted(pool.orphans, live, pool.oldest, o);
      assert Droppable(pool, live, o.value.hash);
    }
  }

  lemma AddedLast(pool: Pool, prev: Parents, h: Hash, expiration: int, expired: set<Hash>, o: Option<Orphan>)
    ensures ListedLast(AddedWith(pool, prev, h, expiration, expired, o).prevOrphans, prev, h)
  {
    hide Remove, Evict;
  }

  lemma AddedHolds(pool: Pool, prev: Parents, h: Hash, expiration: int, expired: set<Hash>, o: Option<Orphan>)
    ensures var live, u := pool.orphans.Keys - expired, AddedWith(pool, prev, h, expiration, expired, o);
            if |live| < MAX_ORPHAN_BLOCKS || o.None? then Holds(pool, live, {}, h, expiration, u) && u.oldest == o
            else Holds(pool, live, {o.value.hash}, h, expiration, u) && u.oldest.None?
  {
    hide FilterAll, ListFor;
    RemoveSize(pool, expired);
  }

  lemma Smaller(a: set<Hash>, b: set<Hash>)
    requires a <= b
    ensures |a| <= |b|
  {
    assert b == a + (b - a);
  }

  datatype Step = AddOrphan(hash: Hash, expiration: int, expired: set<Hash>) | RemoveOrphan(hash: Hash)

  /** A step: a block that is not in the pool is added, or any orphan is removed. */
  ghost predicate Next(pool: Pool, prev: Parents, s: Step, u: Pool) {
    match s
    case AddOrphan(h, expiration, expired) => h !in pool.orphans && Added(pool, prev, h, expiration, expired, u)
    case RemoveOrphan(h) => u == Remove(pool, {h})
  }

  lemma StepKeeps(pool: Pool, prev: Parents, s: Step, u: Pool)
    requires Inv(pool, prev) && Next(pool, prev, s, u)
    ensures Inv(u, prev)
  {
    hide Added, Indexed, FilterAll;
    match s
    case AddOrphan(h, expiration, expired) => AddKeeps(pool, prev, h, expiration, expired, u);
    case RemoveOrphan(h) =>
      RemoveIndexed(pool, prev, {h});
      assert |u.orphans.Keys| <= |pool.orphans.Keys| by { Smaller(u.orphans.Keys, pool.orphans.Keys); }
  }

  ghost predicate Run(states: seq<Pool>, prev: Parents, steps: seq<Step>)
    ensures Run(states, prev, steps) ==> |states| == |steps| + 1
  {
    && |states| == |steps| + 1
    && states[0] == EmptyPool()
    && forall i: nat :: i < |steps| ==> Next(states[i], prev, steps[i], states[i + 1])
  }

  /** In every run the two maps index each other exactly and the pool holds at most one orphan
      more than its limit. */
  lemma {:induction false} EveryRunIsIndexed(states: seq<Pool>, prev: Parents, steps: seq<Step>, i: nat)
    requires Run(states, prev, steps) && i < |states|
    ensures Inv(states[i], prev) && |states[i].orphans| <= MAX_ORPHAN_BLOCKS + 1
  {
    hide Next;
    if i > 0 {
      hide Indexed;
      EveryRunIsIndexed(states, prev, steps, i - 1);
      assert Next(states[i - 1], prev, steps[i - 1], states[i - 1 + 1]);
      StepKeeps(states[i - 1], prev, steps[i - 1], states[i]);
    }
  }

  /** The limit itself is exceeded exactly when the pool was over it already, or when it was full
      and the note pointed at an orphan that had left it and was no younger than the others. */
  lemma WhenOverLimit(pool: Pool, prev: Parents, h: Hash, expiration: int, expired: set<Hash>, u: Pool)
    requires Bounded(pool) && h !in pool.orphans && Added(pool, prev, h, expiration, expired, u)
    ensures var live := pool.orphans.Keys - expired;
            |u.orphans| > MAX_ORPHAN_BLOCKS
            <==> |live| > MAX_ORPHAN_BLOCKS
                 || (|live| == MAX_ORPHAN_BLOCKS && pool.oldest.Some? && pool.oldest.value.hash !in live
                     && forall k :: k in live ==> pool.oldest.value.expiration <= pool.orphans[k])
  {
    hide FilterAll, ListFor;
    var live := pool.orphans.Keys - expired;
    var o :| Noted(pool.orphans, live, pool.oldest, o) && u == AddedWith(pool, prev, h, expiration, expired, o);
    var mid := Remove(pool, expired).(oldest := o);
    RemoveSize(pool, expired);
    if |live| + 1 > MAX_ORPHAN_BLOCKS {
      OldestIsNoted(pool.orphans, live, pool.oldest, o);
      RemoveSize(mid, {o.value.hash});
      InsertSize(Evict(mid), prev, h, expiration);
      assert o.value.hash !in live ==> live - {o.value.hash} == live;
    } else {
      InsertSize(mid, prev, h, expiration);
    }
  }

  /** Different block hashes. */
  function Name(i: byte): Hash {
    [i] + seq(31, _ => 0)
  }

  /** The first block has a parent of its own, which can become known while that of the others
      does not. */
  function ExampleParent(h: Hash): Hash {
    if h == Name(0) then Name(254) else Name(255)
  }

  function Names(n: nat): set<Hash>
    requires n < 256
  {
    if n == 0 then {} else Names(n - 1) + {Name(n)}
  }

  lemma {:induction false} NamesCount(n: nat, i: byte)
    requires n < 256
    ensures |Names(n)| == n && (Name(i) in Names(n) <==> 1 <= i <= n)
  {
    if n > 0 {
      NamesCount(n - 1, i);
      NamesCount(n - 1, n);
      assert Name(i)[0] == i && Name(n)[0] == n;
    }
  }

  /** With room in the pool and nothing expired, a block is simply added. */
  lemma AddSmall(pool: Pool, prev: Parents, h: Hash, expiration: int, o: Option<Orphan>)
    requires Indexed(pool, prev) && |pool.orphans| < MAX_ORPHAN_BLOCKS && Noted(pool.orphans, pool.orphans.Keys, pool.oldest, o)
    ensures var u := Insert(pool, prev, h, expiration).(oldest := o);
            Added(pool, prev, h, expiration, {}, u) && u.orphans == pool.orphans[h := expiration]
  {
    hide Indexed;
    RemoveNothing(pool, prev);
    assert pool.orphans.Keys - {} == pool.orphans.Keys;
    assert AddedWith(pool, prev, h, expiration, {}, o) == Insert(pool, prev, h, expiration).(oldest := o);
  }

  /** The note is stale and no younger than any of the `n` orphans in the pool. */
  ghost predicate StaleWith(pool: Pool, n: nat)
    requires n < 256
  {
    && pool.orphans.Keys == Names(n) && pool.oldest == Some(Orphan(Name(0), 0))
    && forall k :: k in pool.orphans ==> pool.orphans[k] >= 1
  }

  lemma ExtendRun(states: seq<Pool>, prev: Parents, steps: seq<Step>, s: Step, u: Pool)
    requires Run(states, prev, steps) && Next(states[|steps|], prev, s, u)
    ensures Run(states + [u], prev, steps + [s])
  {
    hide Next;
  }

  lemma StaleStart() returns (states: seq<Pool>, steps: seq<Step>)
    ensures Run(states, ExampleParent, steps) && StaleWith(states[|steps|], 1)
  {
    hide Indexed, Added, Insert, FilterAll;
    var a, b := Name(0), Name(1);
    assert a[0] != b[0];
    states, steps := [EmptyPool()], [];
    EveryRunIsIndexed(states, ExampleParent, steps, 0);
    AddSmall(states[0], ExampleParent, a, 0, None);
    var first := Insert(states[0], ExampleParent, a, 0).(oldest := None);
    ExtendRun(states, ExampleParent, steps, AddOrphan(a, 0, {}), first);
    states, steps := states + [first], steps + [AddOrphan(a, 0, {})];
    EveryRunIsIndexed(states, ExampleParent, steps, 1);
    AddSmall(first, ExampleParent, b, 1, Some(Orphan(a, 0)));
    var second := Insert(first, ExampleParent, b, 1).(oldest := Some(Orphan(a, 0)));
    ExtendRun(states, ExampleParent, steps, AddOrphan(b, 1, {}), second);
    states, steps := states + [second], steps + [AddOrphan(b, 1, {})];
    var third := Remove(second, {a});
    ExtendRun(states, ExampleParent, steps, RemoveOrphan(a), third);
    states, steps := states + [third], steps + [RemoveOrphan(a)];
    assert Names(1) == {b};
  }

  lemma StaleNext(pool: Pool, n: nat) returns (u: Pool)
    requires 1 <= n < MAX_ORPHAN_BLOCKS && Indexed(pool, ExampleParent) && StaleWith(pool, n)
    ensures Next(pool, ExampleParent, AddOrphan(Name(n + 1), 1, {}), u) && StaleWith(u, n + 1)
  {
    hide Indexed, Added, Name;
    NamesCount(n, n + 1);
    assert |pool.orphans| == |pool.orphans.Keys|;
    AddSmall(pool, ExampleParent, Name(n + 1), 1, pool.oldest);
    u := Insert(pool, ExampleParent, Name(n + 1), 1).(oldest := pool.oldest);
    assert Names(n + 1) == Names(n) + {Name(n + 1)};
  }

  lemma {:induction false} StaleRun(n: nat) returns (states: seq<Pool>, steps: seq<Step>)
    requires 1 <= n <= MAX_ORPHAN_BLOCKS
    ensures Run(states, ExampleParent, steps) && StaleWith(states[|steps|], n)
  {
    hide StaleWith, Run, Next, Name;
    if n == 1 {
      states, steps := StaleStart();
    } else {
      states, steps := StaleRun(n - 1);
      EveryRunIsIndexed(states, ExampleParent, steps, |steps|);
      var u := StaleNext(states[|steps|], n - 1);
      ExtendRun(states, ExampleParent, steps, AddOrphan(Name(n), 1, {}), u);
      states, steps := states + [u], steps + [AddOrphan(Name(n), 1, {})];
    }
  }

  lemma OverNext(pool: Pool) returns (u: Pool)
    requires Inv(pool, ExampleParent) && StaleWith(pool, MAX_ORPHAN_BLOCKS)
    ensures Next(pool, ExampleParent, AddOrphan(Name(101), 1, {}), u) && |u.orphans| > MAX_ORPHAN_BLOCKS
  {
    hide Indexed, AddedWith, Name, Names, ExampleParent;
    NamesCount(MAX_ORPHAN_BLOCKS, 101);
    NamesCount(MAX_ORPHAN_BLOCKS, 0);
    assert pool.orphans.Keys - {} == pool.orphans.Keys;
    u := AddedWith(pool, ExampleParent, Name(101), 1, {}, pool.oldest);
    assert Added(pool, ExampleParent, Name(101), 1, {}, u);
    WhenOverLimit(pool, ExampleParent, Name(101), 1, {}, u);
  }

  /** The limit can be exceeded: there is a run whose last state holds one orphan too many. Its
      only removal is of the first block, whose parent no other block of the run names. */
  lemma LimitExceeded() returns (states: seq<Pool>, steps: seq<Step>)
    ensures Run(states, ExampleParent, steps) && |states[|steps|].orphans| == MAX_ORPHAN_BLOCKS + 1
  {
    hide StaleWith, Run, Next, Name;
    states, steps := StaleRun(MAX_ORPHAN_BLOCKS);
    EveryRunIsIndexed(states, ExampleParent, steps, |steps|);
    var u := OverNext(states[|steps|]);
    ExtendRun(states, ExampleParent, steps, AddOrphan(Name(101), 1, {}), u);
    states, steps := states + [u], steps + [AddOrphan(Name(101), 1, {})];
    EveryRunIsIndexed(states, ExampleParent, steps, |steps|);
  }

  ghost function Expired(keys: set<Hash>, isExpired: Hash -> bool): set<Hash> {
    set k | k in keys && isExpired(k)
  }

  /** The pool as an object. Removal goes through the list of the parent entry by entry. */
  class OrphanPool {
    const prev: Parents
    var orphans: map<Hash, int>
    var prevOrphans: map<Hash, seq<Hash>>
    var oldestOrphan: Option<Orphan>

    ghost function State(): Pool
      reads this
    {
      Pool(orphans, prevOrphans, oldestOrphan)
    }

    constructor (prev: Parents)
      ensures State() == EmptyPool() && this.prev == prev
    {
      this.prev := prev;
      orphans, prevOrphans, oldestOrphan := map[], map[], None;
    }

    static method RemoveFromList(list: seq<Hash>, h: Hash) returns (r: seq<Hash>)
      ensures r == FilterOut(list, {h})
    {
      hide FilterOut;
      r := list;
      var i := 0;
      ghost var n := 0;
      FilterNone(list[..0], {h});
      while i < |r|
        invariant 0 <= i <= |r| && 0 <= n <= |list|
        invariant r == FilterOut(list[..n], {h}) + list[n..] && i == |FilterOut(list[..n], {h})|
        decreases |r| - i
      {
        FilterNext(list, {h}, n);
        if r[i] == h {
          r := r[..i] + r[i + 1..];
        } else {
          i := i + 1;
        }
        n := n + 1;
      }
      assert list[..n] == list;
    }

    method RemoveOrphanBlock(h: Hash)
      requires Indexed(State(), prev)
      modifies this`orphans, this`prevOrphans
      ensures State() == Remove(old(State()), {h})
    {
      hide ListOk, Listed;
      RemoveOne(State(), prev, h);
      orphans := orphans - {h};
      var list := RemoveFromList(ListFor(prevOrphans, prev(h)), h);
      prevOrphans := prevOrphans[prev(h) := list];
      if |prevOrphans[prev(h)]| == 0 {
        prevOrphans := prevOrphans - {prev(h)};
      }
    }

    /** Drops expired orphans, notes the oldest of the others, and adds a block. */
    method AddOrphanBlock(h: Hash, expiration: int, isExpired: Hash -> bool)
      requires Inv(State(), prev) && h !in orphans
      modifies this
      ensures Added(old(State()), prev, h, expiration, Expired(old(orphans).Keys, isExpired), State())
      ensures Inv(State(), prev)
    {
      hide Indexed, FilterAll;
      ghost var pool := State();
      ghost var expired := Expired(pool.orphans.Keys, isExpired);
      RemoveExpired(isExpired);
      ghost var o := oldestOrphan;
      assert pool.orphans.Keys - expired == Remove(pool, expired).orphans.Keys;
      if |orphans| + 1 > MAX_ORPHAN_BLOCKS {
        OldestIsNoted(pool.orphans, pool.orphans.Keys - expired, pool.oldest, o);
        RemoveOrphanBlock(oldestOrphan.value.hash);
        oldestOrphan := None;
      }
      orphans := orphans[h := expiration];
      prevOrphans := prevOrphans[prev(h) := ListFor(prevOrphans, prev(h)) + [h]];
      assert State() == AddedWith(pool, prev, h, expiration, expired, o);
      AddKeeps(pool, prev, h, expiration, expired, State());
    }

    method RemoveExpired(isExpired: Hash -> bool)
      requires Indexed(State(), prev)
      modifies this
      ensures var expired := Expired(old(orphans).Keys, isExpired);
              && Remove(old(State()), expired).(oldest := oldestOrphan) == State()
              && Noted(old(orphans), old(orphans).Keys - expired, old(oldestOrphan), oldestOrphan)
              && Indexed(State(), prev)
    {
      hide Indexed, FilterAll;
      ghost var pool := State();
      ghost var gone := {};
      var ahead := orphans.Keys;
      RemoveNothing(pool, prev);
      while ahead != {}
        invariant ahead <= pool.orphans.Keys && gone == Expired(pool.orphans.Keys - ahead, isExpired)
        invariant State() == Remove(pool, gone).(oldest := oldestOrphan) && Indexed(State(), prev)
        invariant Noted(pool.orphans, pool.orphans.Keys - ahead - gone, pool.oldest, oldestOrphan)
      {
        var k :| k in ahead;
        ahead := ahead - {k};
        if isExpired(k) {
          RemoveMore(pool, gone, {k});
          RemoveIndexed(State(), prev, {k});
          RemoveOrphanBlock(k);
          gone := gone + {k};
          assert pool.orphans.Keys - ahead - gone == pool.orphans.Keys - (ahead + {k}) - (gone - {k});
        } else {
          assert k in orphans && orphans[k] == pool.orphans[k];
          assert pool.orphans.Keys - ahead - gone == pool.orphans.Keys - (ahead + {k}) - gone + {k};
          NoteIndexed(State(), prev, Some(Orphan(k, orphans[k])));
          if oldestOrphan == None || orphans[k] < oldestOrphan.value.expiration {
            oldestOrphan := Some(Orphan(k, orphans[k]));
          }
        }
      }
    }
  }
}
