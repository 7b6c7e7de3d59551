/**
 Reloading the block index at start-up, blockchain/chainio.go: rows are visited in
 byte-wise key order, and the key starts with the big-endian height.
 */
module Reload {
  import opened Common
  import opened ByteOrder
  import opened BlockTree
  import opened MedianTime
  import opened ChainState
  import opened ChainInvariants
  import opened ChainReorg
  import opened ChainRuns

  function BigEndian32(h: nat): (s: seq<byte>)
    requires h < TWO_32
    ensures |s| == 4
  {
    [h / 0x100_0000, h / 0x1_0000 % 256, h / 256 % 256, h % 256]
  }

  function BlockIndexKey(hash: Hash, height: nat): seq<byte>
    requires height < TWO_32
  {
    BigEndian32(height) + hash
  }

  /** A row of the block index bucket: its key, and the header and status it stores. */
  datatype Row = Row(key: seq<byte>, header: Block, status: Status)

  function RowOf(n: BlockNode, st: Status): Row
    requires n.Height() < TWO_32
  {
    Row(BlockIndexKey(n.Hash(), n.Height()), n.block, st)
  }

  /** A lower block has a smaller key, whatever the hashes. */
  lemma LowerFirst(x: Hash, h: nat, y: Hash, k: nat)
    requires h < k < TWO_32
    ensures KeyLess(BlockIndexKey(x, h), BlockIndexKey(y, k))
  {
    var p, q := BigEndian32(h), BigEndian32(k);
    var i: nat := FirstDifference(h, k);
    KeyLessPrefix(p, q, i, x, y);
  }

  lemma BytesOf(h: nat)
    ensures h / 0x1_0000 == h / 0x100_0000 * 256 + h / 0x1_0000 % 256
    ensures h / 256 == h / 0x1_0000 * 256 + h / 256 % 256
    ensures h == h / 256 * 256 + h % 256
  {
    assert h / 0x1_0000 / 256 == h / 0x100_0000;
    assert h / 256 / 256 == h / 0x1_0000;
  }

  lemma FirstDifference(h: nat, k: nat) returns (i: nat)
    requires h < k < TWO_32
    ensures i < 4 && BigEndian32(h)[..i] == BigEndian32(k)[..i] && BigEndian32(h)[i] < BigEndian32(k)[i]
  {
    BytesOf(h);
    BytesOf(k);
    var p, q := BigEndian32(h), BigEndian32(k);
    i := if p[0] != q[0] then 0 else if p[1] != q[1] then 1 else if p[2] != q[2] then 2 else 3;
  }

  /** The nodes rebuilt so far, and the one rebuilt last. */
  datatype Rebuilt = Rebuilt(index: map<Hash, BlockNode>, status: map<BlockNode, Status>, last: Option<BlockNode>)

  /** Adds the node of one row; fails when its parent cannot be found. */
  function AddRow(r: Rebuilt, row: Row, genesisHash: Hash): Option<Rebuilt> {
    var node :=
      if r.last.None? then
        if row.header.hash == genesisHash then Some(Genesis(row.header)) else None
      else if row.header.prevBlock == r.last.value.Hash() then Some(Child(row.header, r.last.value))
      else if row.header.prevBlock in r.index then Some(Child(row.header, r.index[row.header.prevBlock]))
      else None;
    if node.None? then None
    else Some(Rebuilt(r.index[row.header.hash := node.value], r.status[node.value := row.status], node))
  }

  function AddRows(r: Rebuilt, rows: seq<Row>, genesisHash: Hash): Option<Rebuilt>
    decreases |rows|
  {
    if rows == [] then Some(r)
    else
      var next := AddRow(r, rows[0], genesisHash);
      if next.None? then None else AddRows(next.value, rows[1..], genesisHash)
  }

  /** Turns on the valid flag along the path of a node, marking changed nodes dirty. */
  function MarkPathValid(s: Chain, n: BlockNode): Chain
    decreases n
  {
    var t := if s.StatusOf(n).KnownValid() then s else s.SetFlags(n, VALID);
    if n.Genesis? then t else MarkPathValid(t, n.parent)
  }

  /** The state after start-up: the tree from the rows, the tip from the best-state record,
      and every main-chain node known valid. */
  function InitChainState(rows: seq<Row>, db: Buckets, genesisHash: Hash): Option<Chain> {
    var r := AddRows(Rebuilt(map[], map[], None), rows, genesisHash);
    if r.None? || db.best.hash !in r.value.index then None
    else
      var tip := r.value.index[db.best.hash];
      var s := Chain(
        r.value.index, r.value.status, {}, tip.Path(),
        BestState(tip.Hash(), tip.Height(), tip.block.txns, db.best.totalTxns, PastMedian(tip)), db);
      Some(MarkPathValid(s, tip).Flush())
  }

  /** The cursor over the bucket: every row once, in key order. */
  ghost predicate IsCursor(rows: map<BlockNode, Status>, cursor: seq<Row>)
    ensures IsCursor(rows, cursor) ==> forall n :: n in rows ==> n.Height() < TWO_32
  {
    && (forall n :: n in rows ==> n.Height() < TWO_32)
    && (forall i, j :: 0 <= i < j < |cursor| ==> KeyLess(cursor[i].key, cursor[j].key))
    && (forall n :: n in rows ==> RowOf(n, rows[n]) in cursor)
    && (forall i :: 0 <= i < |cursor| ==> IsRow(rows, cursor[i]))
  }

  ghost predicate IsRow(rows: map<BlockNode, Status>, row: Row)
    requires forall n :: n in rows ==> n.Height() < TWO_32
  {
    exists n :: n in rows && row == RowOf(n, rows[n])
  }

  /** The row of `n` is among the first `i` rows. */
  ghost predicate Seen(rows: map<BlockNode, Status>, cursor: seq<Row>, i: nat, n: BlockNode)
    requires i <= |cursor| && forall m :: m in rows ==> m.Height() < TWO_32
  {
    n in rows && exists j :: 0 <= j < i && cursor[j] == RowOf(n, rows[n])
  }

  /** What has been rebuilt from the first `i` rows: exactly their nodes, with their statuses,
      each found under its hash. */
  ghost predicate RebuiltTo(rows: map<BlockNode, Status>, cursor: seq<Row>, i: nat, r: Rebuilt)
    requires i <= |cursor| && forall m :: m in rows ==> m.Height() < TWO_32
  {
    && (forall n :: n in r.status <==> Seen(rows, cursor, i, n))
    && (forall n :: n in r.status ==> r.status[n] == rows[n] && n.Hash() in r.index && r.index[n.Hash()] == n)
    && (forall h :: h in r.index ==> r.index[h] in r.status && r.index[h].Hash() == h)
    && (r.last.None? <==> i == 0)
    && (r.last.Some? ==> r.last.value in r.status)
  }

  lemma SameKeySameNode(index: map<Hash, BlockNode>, nodes: set<BlockNode>, root: BlockNode, n: BlockNode, m: BlockNode)
    requires TreeOk(index, nodes, root) && n in nodes && m in nodes && n.Height() < TWO_32 && m.Height() < TWO_32
    requires BlockIndexKey(n.Hash(), n.Height()) == BlockIndexKey(m.Hash(), m.Height())
    ensures n == m
  {
    assert n.Hash() == BlockIndexKey(n.Hash(), n.Height())[4..];
    assert m.Hash() == BlockIndexKey(m.Hash(), m.Height())[4..];
  }

  /** Every parent comes before its children. */
  lemma ParentFirst(index: map<Hash, BlockNode>, rows: map<BlockNode, Status>, root: BlockNode, cursor: seq<Row>, i: nat, n: BlockNode)
    requires TreeOk(index, rows.Keys, root) && IsCursor(rows, cursor)
    requires i < |cursor| && n in rows && cursor[i] == RowOf(n, rows[n]) && n.Child?
    ensures Seen(rows, cursor, i, n.parent)
  {
    hide KeyLess;
    assert ParentIn(rows.Keys, n);
    var p := n.parent;
    var j :| 0 <= j < |cursor| && cursor[j] == RowOf(p, rows[p]);
    LowerFirst(p.Hash(), p.Height(), n.Hash(), n.Height());
    KeyLessAsymmetric(cursor[j].key, cursor[i].key);
  }

  /** The first row is the root's, and no other row is. */
  lemma RootFirst(index: map<Hash, BlockNode>, rows: map<BlockNode, Status>, root: BlockNode, cursor: seq<Row>, i: nat, n: BlockNode)
    requires TreeOk(index, rows.Keys, root) && IsCursor(rows, cursor)
    requires i < |cursor| && n in rows && cursor[i] == RowOf(n, rows[n])
    ensures n.Genesis? <==> i == 0
  {
    hide KeyLess, TreeOk;
    if i == 0 && n.Child? {
      ParentFirst(index, rows, root, cursor, i, n);
    }
    if i > 0 && n.Genesis? {
      var m := NodeOfRow(rows, cursor, 0);
      if m.Child? {
        ParentFirst(index, rows, root, cursor, 0, m);
      }
      OneRoot(index, rows.Keys, root, n, m);
      KeyLessAsymmetric(cursor[0].key, cursor[i].key);
      assert false;
    }
  }

  lemma OneRoot(index: map<Hash, BlockNode>, nodes: set<BlockNode>, root: BlockNode, n: BlockNode, m: BlockNode)
    requires TreeOk(index, nodes, root) && n in nodes && m in nodes && n.Genesis? && m.Genesis?
    ensures n == m == root
  {
  }

  /** One row adds exactly its own node, with the parent it had before. */
  lemma RowRebuilds(index: map<Hash, BlockNode>, rows: map<BlockNode, Status>, root: BlockNode, cursor: seq<Row>, i: nat, r: Rebuilt, n: BlockNode)
    requires TreeOk(index, rows.Keys, root) && IsCursor(rows, cursor) && i < |cursor| && RebuiltTo(rows, cursor, i, r)
    requires n in rows && cursor[i] == RowOf(n, rows[n])
    ensures AddRow(r, cursor[i], root.Hash()) == Some(Rebuilt(r.index[n.Hash() := n], r.status[n := rows[n]], Some(n)))
  {
    hide KeyLess, IsCursor;
    RootFirst(index, rows, root, cursor, i, n);
    if i > 0 {
      ParentFirst(index, rows, root, cursor, i, n);
      assert ParentIn(rows.Keys, n);
      assert n.parent in r.status && r.last.value in rows;
    }
  }

  lemma SeenNext(index: map<Hash, BlockNode>, rows: map<BlockNode, Status>, root: BlockNode, cursor: seq<Row>, i: nat, n: BlockNode, m: BlockNode)
    requires TreeOk(index, rows.Keys, root) && IsCursor(rows, cursor)
    requires i < |cursor| && n in rows && cursor[i] == RowOf(n, rows[n])
    ensures Seen(rows, cursor, i + 1, m) <==> m == n || Seen(rows, cursor, i, m)
  {
    hide KeyLess, TreeOk;
    if Seen(rows, cursor, i + 1, m) && !Seen(rows, cursor, i, m) {
      var j :| 0 <= j < i + 1 && cursor[j] == RowOf(m, rows[m]);
      assert j == i;
      SameKeySameNode(index, rows.Keys, root, n, m);
    }
  }

  lemma NodeOfRow(rows: map<BlockNode, Status>, cursor: seq<Row>, i: nat) returns (n: BlockNode)
    requires IsCursor(rows, cursor) && i < |cursor|
    ensures n in rows && cursor[i] == RowOf(n, rows[n])
  {
    assert IsRow(rows, cursor[i]);
    n :| n in rows && cursor[i] == RowOf(n, rows[n]);
  }

  lemma HashUnique(index: map<Hash, BlockNode>, nodes: set<BlockNode>, root: BlockNode, n: BlockNode, m: BlockNode)
    requires TreeOk(index, nodes, root) && n in nodes && m in nodes && n.Hash() == m.Hash()
    ensures n == m
  {
  }

  lemma NextRebuilt(index: map<Hash, BlockNode>, rows: map<BlockNode, Status>, root: BlockNode, cursor: seq<Row>, i: nat, r: Rebuilt, n: BlockNode)
    requires TreeOk(index, rows.Keys, root) && IsCursor(rows, cursor) && i < |cursor| && RebuiltTo(rows, cursor, i, r)
    requires n in rows && cursor[i] == RowOf(n, rows[n])
    ensures RebuiltTo(rows, cursor, i + 1, Rebuilt(r.index[n.Hash() := n], r.status[n := rows[n]], Some(n)))
  {
    hide TreeOk, IsCursor, Seen;
    forall m
      ensures Seen(rows, cursor, i + 1, m) <==> m == n || Seen(rows, cursor, i, m)
      ensures m in r.status ==> m in rows
      ensures m in r.status && m.Hash() == n.Hash() ==> m == n
    {
      SeenNext(index, rows, root, cursor, i, n, m);
      SeenKnown(rows, cursor, i, m);
      if m in r.status && m.Hash() == n.Hash() {
        HashUnique(index, rows.Keys, root, n, m);
      }
    }
  }

  lemma SeenKnown(rows: map<BlockNode, Status>, cursor: seq<Row>, i: nat, m: BlockNode)
    requires i <= |cursor| && forall n :: n in rows ==> n.Height() < TWO_32
    ensures Seen(rows, cursor, i, m) ==> m in rows
  {
  }

  lemma {:induction false} RowsRebuild(index: map<Hash, BlockNode>, rows: map<BlockNode, Status>, root: BlockNode, cursor: seq<Row>, i: nat, r: Rebuilt)
    requires TreeOk(index, rows.Keys, root) && IsCursor(rows, cursor) && i <= |cursor| && RebuiltTo(rows, cursor, i, r)
    ensures
      var t := AddRows(r, cursor[i..], root.Hash());
      t.Some? && RebuiltTo(rows, cursor, |cursor|, t.value)
    decreases |cursor| - i
  {
    hide TreeOk, IsCursor, RebuiltTo, AddRow, RowOf;
    if i < |cursor| {
      var n := NodeOfRow(rows, cursor, i);
      RowRebuilds(index, rows, root, cursor, i, r, n);
      var next := Rebuilt(r.index[n.Hash() := n], r.status[n := rows[n]], Some(n));
      NextRebuilt(index, rows, root, cursor, i, r, n);
      assert cursor[i..][0] == cursor[i] && cursor[i..][1..] == cursor[i + 1..];
      RowsRebuild(index, rows, root, cursor, i + 1, next);
    }
  }

  lemma AllSeen(rows: map<BlockNode, Status>, cursor: seq<Row>, n: BlockNode)
    requires IsCursor(rows, cursor)
    ensures Seen(rows, cursor, |cursor|, n) <==> n in rows
  {
    hide KeyLess;
  }

  lemma FullyRebuilt(index: map<Hash, BlockNode>, rows: map<BlockNode, Status>, root: BlockNode, cursor: seq<Row>, r: Rebuilt)
    requires TreeOk(index, rows.Keys, root) && IsCursor(rows, cursor) && RebuiltTo(rows, cursor, |cursor|, r)
    ensures r.index == index && r.status == rows
  {
    hide IsCursor, Seen;
    forall n ensures n in r.status <==> n in rows {
      AllSeen(rows, cursor, n);
    }
    assert r.status == rows;
    forall h ensures h in r.index <==> h in index {
      if h in index { assert index[h] in r.status; }
    }
    assert forall h :: h in index ==> r.index[h] == index[h];
  }

  /** All rows together give back the whole tree with its statuses. */
  lemma IndexRebuilt(index: map<Hash, BlockNode>, rows: map<BlockNode, Status>, root: BlockNode, cursor: seq<Row>)
    requires TreeOk(index, rows.Keys, root) && IsCursor(rows, cursor)
    ensures
      var t := AddRows(Rebuilt(map[], map[], None), cursor, root.Hash());
      t.Some? && t.value.index == index && t.value.status == rows
  {
    hide TreeOk, IsCursor, AddRows;
    var r := Rebuilt(map[], map[], None);
    assert RebuiltTo(rows, cursor, 0, r);
    RowsRebuild(index, rows, root, cursor, 0, r);
    assert cursor[0..] == cursor;
    FullyRebuilt(index, rows, root, cursor, AddRows(r, cursor, root.Hash()).value);
  }

  /** The statuses with the valid flag added along the path of a node. */
  ghost function ValidAlong(status: map<BlockNode, Status>, tip: BlockNode): map<BlockNode, Status> {
    map n | n in status :: if n.IsAncestorOf(tip) then status[n].With(VALID) else status[n]
  }

  /** Marking the path adds the flag exactly there, and leaves up-to-date rows behind. */
  lemma {:induction false} MarkPathValidMeans(s: Chain, n: BlockNode)
    requires RowsOk(s) && forall h: nat :: h <= n.Height() ==> n.At(h) in s.status
    ensures
      var t := MarkPathValid(s, n);
      && t == s.(status := t.status, dirty := t.dirty) && RowsOk(t)
      && t.status == ValidAlong(s.status, n)
    decreases n
  {
    hide BlockNode.IsAncestorOf;
    assert n.At(n.Height()) == n;
    var t := if s.StatusOf(n).KnownValid() then s else s.SetFlags(n, VALID);
    assert t.status == s.status[n := s.status[n].With(VALID)];
    if n.Child? {
      forall h: nat | h <= n.parent.Height() ensures n.parent.At(h) in t.status {
        assert n.At(h) == n.parent.At(h);
      }
      MarkPathValidMeans(t, n.parent);
    }
    ValidAlongStep(s.status, n);
  }

  /** Marking a node and the path of its parent is marking its path. */
  lemma ValidAlongStep(status: map<BlockNode, Status>, n: BlockNode)
    requires n in status
    ensures
      var marked := status[n := status[n].With(VALID)];
      ValidAlong(status, n) == if n.Child? then ValidAlong(marked, n.parent) else marked
  {
    hide BlockNode.IsAncestorOf;
    forall m: BlockNode ensures m.IsAncestorOf(n) <==> m == n || (n.Child? && m.IsAncestorOf(n.parent)) {
      OnPath(m, n);
    }
  }

  lemma OnPath(m: BlockNode, n: BlockNode)
    ensures m.IsAncestorOf(n) <==> m == n || (n.Child? && m.IsAncestorOf(n.parent))
  {
  }

  /** Reloading any published state gives back its tree, tip and snapshot, with the main chain
      marked valid: also a state published in the middle of a reorganization. */
  lemma ReloadPublished(s: Chain, cursor: seq<Row>)
    requires Consistent(s) && IsCursor(s.db.rows, cursor)
    ensures
      var status := ValidAlong(s.status, s.Tip());
      InitChainState(cursor, s.db, s.view[0].Hash()) == Some(s.(status := status, db := s.db.(rows := status)))
  {
    hide IsCursor, MarkPathValid, AddRows;
    var tip := s.Tip();
    IndexRebuilt(s.index, s.db.rows, s.view[0], cursor);
    forall h: nat | h <= tip.Height() ensures tip.At(h) in s.status {
      AncestorsKnown(s.index, s.status.Keys, s.view[0], tip, h);
    }
    MarkPathValidMeans(s, tip);
    FlushWritesAll(MarkPathValid(s, tip));
  }

  lemma AlreadyValid(status: map<BlockNode, Status>, tip: BlockNode)
    requires StatusOk(status) && tip in status && status[tip].valid
    ensures ValidAlong(status, tip) == status
  {
    hide StatusOk;
    forall n | n in status && n.IsAncestorOf(tip) ensures status[n].With(VALID) == status[n] {
      ValidDownwards(status, tip, n.Height());
    }
  }

  /** Marking the path of a node that is not dead keeps the status laws. */
  lemma ValidAlongOk(status: map<BlockNode, Status>, tip: BlockNode)
    requires StatusOk(status) && tip in status && !Dead(status, tip)
    requires forall h: nat :: h <= tip.Height() ==> tip.At(h) in status
    ensures StatusOk(ValidAlong(status, tip)) && ValidAlong(status, tip)[tip].valid
  {
    hide ValidAlong, Dead, FailedBelow, ValidParent, BlockNode.At, BlockNode.IsAncestorOf;
    var after := ValidAlong(status, tip);
    ValidAlongKeys(status, tip);
    ValidAlongTip(status, tip);
    forall n | n in after && after[n].valid ensures ValidParent(after, n) {
      ValidAlongParent(status, tip, n);
    }
    forall n | n in after
      ensures !(after[n].valid && after[n].KnownInvalid()) && (after[n].invalidAncestor ==> FailedBelow(after, n))
    {
      ValidAlongInvalid(status, tip, n);
    }
  }

  lemma ValidAlongTip(status: map<BlockNode, Status>, tip: BlockNode)
    requires tip in status
    ensures ValidAlong(status, tip)[tip].valid
  {
    assert tip.At(tip.Height()) == tip;
  }

  lemma ValidAlongParent(status: map<BlockNode, Status>, tip: BlockNode, n: BlockNode)
    requires StatusOk(status) && n in status && ValidAlong(status, tip)[n].valid
    requires forall h: nat :: h <= tip.Height() ==> tip.At(h) in status
    ensures ValidParent(ValidAlong(status, tip), n)
  {
    hide FailedBelow, BlockNode.At;
    if n.IsAncestorOf(tip) {
      if n.Child? {
        ParentOnPath(tip, n);
      }
    } else {
      assert ValidParent(status, n);
    }
  }

  lemma ValidAlongInvalid(status: map<BlockNode, Status>, tip: BlockNode, n: BlockNode)
    requires StatusOk(status) && n in status && !Dead(status, tip)
    ensures
      var after := ValidAlong(status, tip);
      !(after[n].valid && after[n].KnownInvalid()) && (after[n].invalidAncestor ==> FailedBelow(after, n))
  {
    var after := ValidAlong(status, tip);
    assert n.IsAncestorOf(tip) ==> tip.At(n.Height()) == n;
    if after[n].invalidAncestor {
      var h: nat :| h < n.Height() && n.At(h) in status && status[n.At(h)].validateFailed;
      assert after[n.At(h)].validateFailed;
    }
  }

  lemma ParentOnPath(tip: BlockNode, n: BlockNode)
    requires n.IsAncestorOf(tip) && n.Child?
    ensures n.parent.IsAncestorOf(tip) && tip.At(n.parent.Height()) == n.parent
  {
    AtParent(tip, n.Height());
  }

  /** Changing statuses together with their rows leaves a consistent state consistent. */
  lemma RestatedConsistent(s: Chain, status: map<BlockNode, Status>)
    requires Consistent(s) && status.Keys == s.status.Keys
    ensures Consistent(s.(status := status, db := s.db.(rows := status)))
  {
    hide TreeOk, HashIndexOf, HeightIndexOf, JournalOf, SnapshotOf;
  }

  /** Restarting at any point at which the lock is released, in the middle of a reorganization
      too, gives a sound state with the same tree and main chain, all of it known valid. */
  lemma RestartSound(s: Chain, cursor: seq<Row>)
    requires Sound(s) && IsCursor(s.db.rows, cursor)
    ensures
      var r := InitChainState(cursor, s.db, s.view[0].Hash());
      && r.Some? && Sound(r.value) && r.value.view == s.view && r.value.index == s.index
      && r.value.Tip() in r.value.status && r.value.status[r.value.Tip()].valid
  {
    hide IsCursor, InitChainState, StatusOk, Structure, Dead, ValidAlong;
    var tip, status := s.Tip(), ValidAlong(s.status, s.Tip());
    ReloadPublished(s, cursor);
    forall h: nat | h <= tip.Height() ensures tip.At(h) in s.status {
      PathKnown(s, h);
    }
    ValidAlongOk(s.status, tip);
    ValidAlongKeys(s.status, tip);
    RestatedConsistent(s, status);
    MainChainValid(s.(status := status, db := s.db.(rows := status)), tip.Height());
  }

  lemma PathKnown(s: Chain, h: nat)
    requires Structure(s) && h <= s.Tip().Height()
    ensures s.Tip().At(h) in s.status
  {
    AncestorsKnown(s.index, s.status.Keys, s.view[0], s.Tip(), h);
  }

  lemma ValidAlongKeys(status: map<BlockNode, Status>, tip: BlockNode)
    ensures ValidAlong(status, tip).Keys == status.Keys
  {
  }

  /** So in every run: a restart from whatever has been persisted at a notification leaves every
      main-chain block known valid and not dead, with the status laws intact. */
  lemma RestartAnywhere(genesis: Block, inputs: seq<Input>, s: Chain, cursor: seq<Row>, h: nat)
    requires NewHashes(Start(genesis), inputs) && s in Published(Start(genesis), inputs)
    requires IsCursor(s.db.rows, cursor) && h < |s.view|
    ensures
      s.view != [] &&
      var r := InitChainState(cursor, s.db, s.view[0].Hash());
      && r.Some? && Sound(r.value) && r.value.view == s.view && r.value.index == s.index
      && s.view[h] in r.value.status && r.value.status[s.view[h]].valid && !Dead(r.value.status, s.view[h])
  {
    hide IsCursor, InitChainState, StatusOk, Dead, Inv, NewHashes, Published, Structure;
    PublishedSound(Start(genesis), inputs);
    assert Sound(s);
    RestartSound(s, cursor);
    MainChainValid(InitChainState(cursor, s.db, s.view[0].Hash()).value, h);
  }

  /** Between steps the main chain is valid already, so reloading restores the state exactly. */
  lemma ReloadExact(s: Chain, cursor: seq<Row>)
    requires Inv(s) && IsCursor(s.db.rows, cursor)
    ensures InitChainState(cursor, s.db, s.view[0].Hash()) == Some(s)
  {
    hide IsCursor, InitChainState, StatusOk, MostWork, Structure, ValidAlong;
    ReloadPublished(s, cursor);
    AlreadyValid(s.status, s.Tip());
  }

  /** Row `i` can be attached: the first one of all is the genesis block, and every other one
      names a block that was there before or is in an earlier row. */
  ghost predicate Attaches(known: set<Hash>, rows: seq<Row>, genesisHash: Hash, i: nat)
    requires i < |rows|
  {
    if known == {} && i == 0 then rows[i].header.hash == genesisHash
    else rows[i].header.prevBlock in known || exists j: nat :: j < i && rows[j].header.hash == rows[i].header.prevBlock
  }

  ghost predicate AllAttach(known: set<Hash>, rows: seq<Row>, genesisHash: Hash) {
    forall i: nat :: i < |rows| ==> Attaches(known, rows, genesisHash, i)
  }

  ghost function Hashes(rows: seq<Row>): set<Hash> {
    set row | row in rows :: row.header.hash
  }

  /** The last node is among those found by hash. */
  ghost predicate Sensible(r: Rebuilt) {
    if r.last.None? then r.index == map[] else r.last.value.Hash() in r.index
  }

  lemma AttachesLater(known: set<Hash>, rows: seq<Row>, genesisHash: Hash, i: nat)
    requires 0 < i < |rows|
    ensures Attaches(known, rows, genesisHash, i) <==> Attaches(known + {rows[0].header.hash}, rows[1..], genesisHash, i - 1)
  {
    var prev := rows[i].header.prevBlock;
    if j: nat :| j < i && rows[j].header.hash == prev {
      assert j > 0 ==> rows[1..][j - 1].header.hash == prev;
    }
    if j: nat :| j < i - 1 && rows[1..][j].header.hash == prev {
      assert rows[j + 1].header.hash == prev;
    }
  }

  lemma {:induction false} RowsLoad(r: Rebuilt, rows: seq<Row>, genesisHash: Hash)
    requires Sensible(r)
    ensures var t := AddRows(r, rows, genesisHash);
            && (t.Some? <==> AllAttach(r.index.Keys, rows, genesisHash))
            && (t.Some? ==> t.value.index.Keys == r.index.Keys + Hashes(rows))
    decreases |rows|
  {
    if rows != [] {
      var next := AddRow(r, rows[0], genesisHash);
      assert next.Some? <==> Attaches(r.index.Keys, rows, genesisHash, 0);
      if next.Some? {
        assert next.value.index.Keys == r.index.Keys + {rows[0].header.hash};
        RowsLoad(next.value, rows[1..], genesisHash);
        forall i: nat | 0 < i < |rows|
          ensures Attaches(r.index.Keys, rows, genesisHash, i) <==> Attaches(next.value.index.Keys, rows[1..], genesisHash, i - 1)
        {
          AttachesLater(r.index.Keys, rows, genesisHash, i);
        }
        AllAttachSplit(r.index.Keys, next.value.index.Keys, rows, genesisHash);
        HashesSplit(rows);
      }
    }
  }

  lemma AllAttachSplit(known: set<Hash>, more: set<Hash>, rows: seq<Row>, genesisHash: Hash)
    requires rows != []
    requires forall i: nat :: 0 < i < |rows| ==>
               (Attaches(known, rows, genesisHash, i) <==> Attaches(more, rows[1..], genesisHash, i - 1))
    ensures AllAttach(known, rows, genesisHash) <==> Attaches(known, rows, genesisHash, 0) && AllAttach(more, rows[1..], genesisHash)
  {
    hide Attaches;
    if AllAttach(known, rows, genesisHash) {
      forall i: nat | i < |rows[1..]| ensures Attaches(more, rows[1..], genesisHash, i) {
        assert Attaches(known, rows, genesisHash, i + 1);
      }
    }
  }

  lemma HashesSplit(rows: seq<Row>)
    requires rows != []
    ensures Hashes(rows) == {rows[0].header.hash} + Hashes(rows[1..])
  {
    assert rows == [rows[0]] + rows[1..];
  }

  /** Which buckets load: the rows attach to one another from the genesis block on, and the best
      block is one of them. The tip is then that block, and everything in the rows is indexed. */
  lemma LoadsExactly(rows: seq<Row>, db: Buckets, genesisHash: Hash)
    ensures var r := InitChainState(rows, db, genesisHash);
            && (r.Some? <==> AllAttach({}, rows, genesisHash) && db.best.hash in Hashes(rows))
            && (r.Some? ==> r.value.index.Keys == Hashes(rows) && r.value.dirty == {})
  {
    hide AllAttach, AddRows, MarkPathValid;
    RowsLoad(Rebuilt(map[], map[], None), rows, genesisHash);
    var t := AddRows(Rebuilt(map[], map[], None), rows, genesisHash);
    var none: map<Hash, BlockNode> := map[];
    assert none.Keys == {};
    if t.Some? && db.best.hash in t.value.index {
      var tip := t.value.index[db.best.hash];
      var s := Chain(
        t.value.index, t.value.status, {}, tip.Path(),
        BestState(tip.Hash(), tip.Height(), tip.block.txns, db.best.totalTxns, PastMedian(tip)), db);
      MarkPathKeeps(s, tip);
    }
  }

  lemma {:induction false} MarkPathKeeps(s: Chain, n: BlockNode)
    ensures var t := MarkPathValid(s, n); t == s.(status := t.status, dirty := t.dirty)
    decreases n
  {
    var t := if s.StatusOf(n).KnownValid() then s else s.SetFlags(n, VALID);
    if n.Child? {
      MarkPathKeeps(t, n.parent);
    }
  }

  /** The two loops of start-up: rebuild the nodes row by row, then walk back from the tip. */
  method LoadChain(rows: seq<Row>, db: Buckets, genesisHash: Hash) returns (r: Option<Chain>)
    ensures r == InitChainState(rows, db, genesisHash)
  {
    var built := LoadRows(rows, genesisHash);
    if built.None? || db.best.hash !in built.value.index {
      return None;
    }
    var tip := built.value.index[db.best.hash];
    var median := CalcPastMedianTime(tip);
    var s := Chain(
      built.value.index, built.value.status, {}, tip.Path(),
      BestState(tip.Hash(), tip.Height(), tip.block.txns, db.best.totalTxns, median), db);
    ghost var start := s;
    var iterNode := Some(tip);
    while iterNode.Some?
      invariant (if iterNode.None? then s else MarkPathValid(s, iterNode.value)) == MarkPathValid(start, tip)
      decreases if iterNode.None? then 0 else iterNode.value.Height() + 1
    {
      var n := iterNode.value;
      if !s.StatusOf(n).KnownValid() {
        s := s.SetFlags(n, VALID);
      }
      iterNode := if n.Genesis? then None else Some(n.parent);
    }
    return Some(s.Flush());
  }

  method LoadRows(rows: seq<Row>, genesisHash: Hash) returns (r: Option<Rebuilt>)
    ensures r == AddRows(Rebuilt(map[], map[], None), rows, genesisHash)
  {
    var built, i := Rebuilt(map[], map[], None), 0;
    while i < |rows|
      invariant 0 <= i <= |rows|
      invariant AddRows(built, rows[i..], genesisHash) == AddRows(Rebuilt(map[], map[], None), rows, genesisHash)
    {
      var header, last := rows[i].header, built.last;
      assert rows[i..][0] == rows[i] && rows[i..][1..] == rows[i + 1..];
      var node;
      if last.None? {
        if header.hash != genesisHash {
          return None;
        }
        node := Genesis(header);
      } else if header.prevBlock == last.value.Hash() {
        node := Child(header, last.value);
      } else if header.prevBlock in built.index {
        node := Child(header, built.index[header.prevBlock]);
      } else {
        return None;
      }
      built := Rebuilt(built.index[header.hash := node], built.status[node := rows[i].status], Some(node));
      i := i + 1;
    }
    return Some(built);
  }
}
