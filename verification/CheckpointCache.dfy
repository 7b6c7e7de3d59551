/**
 The cache of committed-filter checkpoints that `OnGetCFCheckpt` in server.go keeps for the
 cfcheckpt message of BIP 157. The filter index is a function from block hashes to filter
 headers; the block tree may grow and reorganize between requests.
 */
module CheckpointCaches {
  import opened Common
  import opened BlockTree
  import opened ChainQueries

  const CF_CHECKPT_INTERVAL: nat := 1000

  datatype Entry = Entry(blockHash: Hash, filterHeader: Hash)

  /** The entry of a cache slot that has been allocated and not filled. */
  function Zero(): Entry {
    Entry(ZeroHash(), ZeroHash())
  }

  function ZeroHash(): Hash {
    seq(32, _ => 0)
  }

  ghost function Checkpoints(node: BlockNode): seq<Hash> {
    IntervalHashes(node, CF_CHECKPT_INTERVAL)
  }

  /** The cache is the checkpoints of one chain with their filter headers. */
  ghost predicate HoldsChain(cache: seq<Entry>, node: BlockNode, header: Hash -> Hash) {
    cache == Fresh(Checkpoints(node), header)
  }

  /** The cache with slots for all requested hashes. */
  function Grown(cache: seq<Entry>, n: nat): (r: seq<Entry>)
    ensures |r| >= n && |r| >= |cache|
  {
    if n > |cache| then cache + seq(n - |cache|, _ => Zero()) else cache
  }

  /** How much of the cache belongs to the requested chain, searching backwards. */
  function ForkIndex(cache: seq<Entry>, hashes: seq<Hash>, n: nat): (f: nat)
    requires n <= |hashes| <= |cache|
    ensures f <= n && (f > 0 ==> cache[f - 1].blockHash == hashes[f - 1])
    ensures forall i: nat :: f <= i < n ==> cache[i].blockHash != hashes[i]
  {
    if n == 0 || cache[n - 1].blockHash == hashes[n - 1] then n else ForkIndex(cache, hashes, n - 1)
  }

  function Headers(entries: seq<Entry>): seq<Hash> {
    seq(|entries|, i requires 0 <= i < |entries| => entries[i].filterHeader)
  }

  function Lookups(hashes: seq<Hash>, header: Hash -> Hash): seq<Hash> {
    seq(|hashes|, i requires 0 <= i < |hashes| => header(hashes[i]))
  }

  function Fresh(hashes: seq<Hash>, header: Hash -> Hash): seq<Entry> {
    seq(|hashes|, i requires 0 <= i < |hashes| => Entry(hashes[i], header(hashes[i])))
  }

  /** The reply to a request: cached headers up to the fork, looked up ones after it. */
  function Reply(cache: seq<Entry>, hashes: seq<Hash>, header: Hash -> Hash): seq<Hash> {
    var c := Grown(cache, |hashes|);
    var f := ForkIndex(c, hashes, |hashes|);
    Headers(c[..f]) + Lookups(hashes[f..], header)
  }

  /** The cache after a request: it only changes when it has to grow. */
  function After(cache: seq<Entry>, hashes: seq<Hash>, header: Hash -> Hash): seq<Entry> {
    if |hashes| <= |cache| then cache
    else
      var c := Grown(cache, |hashes|);
      var f := ForkIndex(c, hashes, |hashes|);
      c[..f] + Fresh(hashes[f..], header)
  }

  /** Two known chains that share a checkpoint share all earlier ones. */
  lemma OneMatchIsAll(index: map<Hash, BlockNode>, a: BlockNode, b: BlockNode, i: nat, j: nat)
    requires Indexed(index, a) && Indexed(index, b)
    requires j <= i < |Checkpoints(a)| && i < |Checkpoints(b)| && Checkpoints(a)[i] == Checkpoints(b)[i]
    ensures Checkpoints(a)[j] == Checkpoints(b)[j]
  {
    var h, k := (i + 1) * CF_CHECKPT_INTERVAL, (j + 1) * CF_CHECKPT_INTERVAL;
    IntervalFits(a.Height(), CF_CHECKPT_INTERVAL, i + 1);
    IntervalFits(b.Height(), CF_CHECKPT_INTERVAL, i + 1);
    assert a.At(h) == b.At(h);
    AtAt(a, h, k);
    AtAt(b, h, k);
  }

  /** A slot that has just been allocated matches no block, and one match in the rest means
      that the whole part below it is right. */
  lemma CachedPartIsRight(index: map<Hash, BlockNode>, cache: seq<Entry>, held: BlockNode, node: BlockNode, header: Hash -> Hash)
    requires Indexed(index, held) && Indexed(index, node) && ZeroHash() !in index && HoldsChain(cache, held, header)
    ensures var hashes := Checkpoints(node);
            var c := Grown(cache, |hashes|);
            var f := ForkIndex(c, hashes, |hashes|);
            f <= |cache| && c[..f] == Fresh(hashes[..f], header)
  {
    hide Checkpoints, Indexed, ForkIndex;
    var hashes := Checkpoints(node);
    var c := Grown(cache, |hashes|);
    var f := ForkIndex(c, hashes, |hashes|);
    if f > 0 {
      CheckpointKnown(index, node, f - 1);
      assert f <= |cache|;
      forall j: nat | j < f ensures c[j] == Entry(hashes[j], header(hashes[j])) {
        OneMatchIsAll(index, held, node, f - 1, j);
      }
    }
  }

  lemma CheckpointKnown(index: map<Hash, BlockNode>, node: BlockNode, i: nat)
    requires Indexed(index, node) && i < |Checkpoints(node)|
    ensures Checkpoints(node)[i] in index
  {
    IntervalFits(node.Height(), CF_CHECKPT_INTERVAL, i + 1);
  }

  /** Cached and looked up parts put together. */
  lemma Together(hashes: seq<Hash>, header: Hash -> Hash, f: nat)
    requires f <= |hashes|
    ensures Headers(Fresh(hashes[..f], header)) + Lookups(hashes[f..], header) == Lookups(hashes, header)
    ensures Fresh(hashes[..f], header) + Fresh(hashes[f..], header) == Fresh(hashes, header)
  {
  }

  /** The reply is what looking up every checkpoint gives, and the cache stays one chain. */
  lemma RequestIsRight(index: map<Hash, BlockNode>, cache: seq<Entry>, held: BlockNode, node: BlockNode, header: Hash -> Hash)
    requires Indexed(index, held) && Indexed(index, node) && ZeroHash() !in index && HoldsChain(cache, held, header)
    ensures Reply(cache, Checkpoints(node), header) == Lookups(Checkpoints(node), header)
    ensures HoldsChain(After(cache, Checkpoints(node), header), if |Checkpoints(node)| > |cache| then node else held, header)
  {
    hide Checkpoints, Indexed, Headers, Lookups, Fresh, Grown, ForkIndex;
    CachedPartIsRight(index, cache, held, node, header);
    var hashes := Checkpoints(node);
    Together(hashes, header, ForkIndex(Grown(cache, |hashes|), hashes, |hashes|));
  }

  /** The cache after a sequence of requests, each for the chain that ends in some block. */
  ghost function CacheAfter(requests: seq<BlockNode>, header: Hash -> Hash): seq<Entry> {
    if requests == [] then []
    else After(CacheAfter(requests[..|requests| - 1], header), Checkpoints(requests[|requests| - 1]), header)
  }

  lemma {:induction false} CacheIsOneChain(index: map<Hash, BlockNode>, root: BlockNode, requests: seq<BlockNode>, header: Hash -> Hash)
    returns (held: BlockNode)
    requires ZeroHash() !in index && root.Genesis? && Indexed(index, root)
    requires forall i: nat :: i < |requests| ==> Indexed(index, requests[i])
    ensures Indexed(index, held) && HoldsChain(CacheAfter(requests, header), held, header)
    ensures held == root || held in requests
  {
    hide Indexed, After;
    if requests == [] {
      held := root;
    } else {
      var last := |requests| - 1;
      var before := CacheIsOneChain(index, root, requests[..last], header);
      var cache := CacheAfter(requests[..last], header);
      RequestIsRight(index, cache, before, requests[last], header);
      held := if |Checkpoints(requests[last])| > |cache| then requests[last] else before;
    }
  }

  /** For every sequence of requests, whatever branches they ask for, every reply equals direct
      lookup. The index is the one at the end: blocks are only ever added to it. */
  lemma EveryReplyIsRight(index: map<Hash, BlockNode>, root: BlockNode, requests: seq<BlockNode>, header: Hash -> Hash, i: nat)
    requires ZeroHash() !in index && root.Genesis? && Indexed(index, root)
    requires forall i: nat :: i < |requests| ==> Indexed(index, requests[i])
    requires i < |requests|
    ensures Reply(CacheAfter(requests[..i], header), Checkpoints(requests[i]), header)
            == Lookups(Checkpoints(requests[i]), header)
  {
    hide Indexed, Reply;
    var held := CacheIsOneChain(index, root, requests[..i], header);
    RequestIsRight(index, CacheAfter(requests[..i], header), held, requests[i], header);
  }

  lemma HeadersNext(cache: seq<Entry>, i: nat)
    requires i < |cache|
    ensures Headers(cache[..i + 1]) == Headers(cache[..i]) + [cache[i].filterHeader]
  {
  }

  lemma FreshNext(hashes: seq<Hash>, header: Hash -> Hash, a: nat, b: nat)
    requires a <= b < |hashes|
    ensures Lookups(hashes[a..b + 1], header) == Lookups(hashes[a..b], header) + [header(hashes[b])]
    ensures Fresh(hashes[a..b + 1], header) == Fresh(hashes[a..b], header) + [Entry(hashes[b], header(hashes[b]))]
    ensures |Fresh(hashes[a..b], header)| == b - a
  {
  }

  lemma NoneFresh(hashes: seq<Hash>, header: Hash -> Hash, a: nat)
    requires a <= |hashes|
    ensures Lookups(hashes[a..a], header) == [] && Fresh(hashes[a..a], header) == []
  {
  }

  lemma NoHeaders(cache: seq<Entry>)
    ensures Headers(cache[..0]) == []
  {
  }

  /** The cache of one filter type, changed under the write lock only. */
  class CheckpointCache {
    var checkpoints: seq<Entry>

    constructor ()
      ensures checkpoints == []
    {
      checkpoints := [];
    }

    /** Answers a request; all lookups in the filter index succeed. */
    method OnGetCFCheckpt(hashes: seq<Hash>, header: Hash -> Hash) returns (message: seq<Hash>)
      modifies this
      ensures message == Reply(old(checkpoints), hashes, header)
      ensures checkpoints == After(old(checkpoints), hashes, header)
    {
      hide Headers, Lookups, Fresh, ForkIndex;
      var updateCache := false;
      var cache := checkpoints;
      if |hashes| > |cache| {
        updateCache := true;
        cache := cache + seq(|hashes| - |cache|, _ => Zero());
      }
      ghost var grown := cache;
      assert grown == Grown(checkpoints, |hashes|);
      var forkIdx := FindFork(cache, hashes);
      message := [];
      NoHeaders(cache);
      for i := 0 to forkIdx
        invariant message == Headers(cache[..i]) && checkpoints == old(checkpoints)
      {
        HeadersNext(cache, i);
        message := message + [cache[i].filterHeader];
      }
      message, cache := Extend(hashes, header, forkIdx, message, cache, updateCache);
      assert updateCache ==> cache == grown[..forkIdx] + Fresh(hashes[forkIdx..], header);
      if updateCache {
        checkpoints := cache;
      }
    }

    static method FindFork(cache: seq<Entry>, hashes: seq<Hash>) returns (forkIdx: nat)
      requires |hashes| <= |cache|
      ensures forkIdx == ForkIndex(cache, hashes, |hashes|)
    {
      forkIdx := |hashes|;
      while forkIdx > 0 && cache[forkIdx - 1].blockHash != hashes[forkIdx - 1]
        invariant 0 <= forkIdx <= |hashes|
        invariant ForkIndex(cache, hashes, |hashes|) == ForkIndex(cache, hashes, forkIdx)
      {
        forkIdx := forkIdx - 1;
      }
    }

    /** Adds the headers beyond the fork to the message and, if wanted, to the cache. */
    static method Extend(hashes: seq<Hash>, header: Hash -> Hash, forkIdx: nat, message: seq<Hash>, cache: seq<Entry>, updateCache: bool)
      returns (all: seq<Hash>, entries: seq<Entry>)
      requires forkIdx <= |hashes| <= |cache|
      ensures all == message + Lookups(hashes[forkIdx..], header)
      ensures entries == if updateCache then cache[..forkIdx] + Fresh(hashes[forkIdx..], header) + cache[|hashes|..] else cache
    {
      hide Lookups, Fresh;
      all, entries := message, cache;
      NoneFresh(hashes, header, forkIdx);
      for i := 0 to |hashes| - forkIdx
        invariant all == message + Lookups(hashes[forkIdx..forkIdx + i], header)
        invariant entries == if updateCache then cache[..forkIdx] + Fresh(hashes[forkIdx..forkIdx + i], header) + cache[forkIdx + i..] else cache
      {
        FreshNext(hashes, header, forkIdx, forkIdx + i);
        var hash := hashes[forkIdx + i];
        all := all + [header(hash)];
        if updateCache {
          entries := entries[forkIdx + i := Entry(hash, header(hash))];
        }
      }
      assert hashes[forkIdx..forkIdx + (|hashes| - forkIdx)] == hashes[forkIdx..];
    }
  }
}
