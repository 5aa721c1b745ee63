/**
  Agreement of the indexer's two tables (indexer/kv_indexer.go) and its block
  bounds, over every sequence of indexed blocks of one chain.
*/
module IndexTables {
  import opened Wrappers
  import opened Words
  import opened Lex
  import opened IndexKeys
  import opened KvIndexer

  /** The blocks of a chain by height. */
  type Chain = map<int, Block>

  /** A recorded message: its block's height and its index there. */
  type Position = (int, nat)

  predicate HasEntry(chain: Chain, p: Position) {
    p.0 in chain && p.1 < |Entries(chain[p.0])|
  }

  function EntryOf(chain: Chain, p: Position): Entry
    requires HasEntry(chain, p)
  {
    Entries(chain[p.0])[p.1]
  }

  ghost predicate BlockFits(chain: Chain, h: int) {
    h in chain ==> chain[h].height == h && Indexable(chain[h])
  }

  /** Heights are right and counts fit. */
  ghost predicate WellFormed(chain: Chain) {
    forall h {:trigger BlockFits(chain, h)} :: BlockFits(chain, h)
  }

  lemma {:induction false} EntryShape(chain: Chain, p: Position)
    requires WellFormed(chain) && HasEntry(chain, p)
    ensures var r := EntryOf(chain, p).record; r.height == p.0 && r.ethTxIndex == p.1 && ValidPosition(p.0, p.1)
    ensures EntryOf(chain, p).record != ZERO_RESULT && |Entries(chain[p.0])| == Count(chain[p.0])
  {
    assert BlockFits(chain, p.0);
    EntriesStorable(chain[p.0]);
    var t, m := EntryPosition(chain[p.0], p.1);
  }

  /** The hash table answers p's hash with q's record. */
  ghost predicate Holds(chain: Chain, db: Db, p: Position, q: Position) {
    && HasEntry(chain, p) && HasEntry(chain, q)
    && EntryOf(chain, q).hash == EntryOf(chain, p).hash && TxHashKey(EntryOf(chain, p).hash) in db
    && db[TxHashKey(EntryOf(chain, p).hash)] == Record(EntryOf(chain, q).record)
  }

  /**
    The index table holds p's hash, and the hash table answers it with the record of a
    position in ps of that hash: when a hash is saved again, the newer record replaces the older.
  */
  ghost predicate Stored(chain: Chain, ps: set<Position>, db: Db, p: Position) {
    && HasEntry(chain, p) && ValidPosition(p.0, p.1)
    && TxIndexKey(p.0, p.1) in db && db[TxIndexKey(p.0, p.1)] == HashOf(EntryOf(chain, p).hash)
    && exists q :: q in ps && Holds(chain, db, p, q)
  }

  /** The key belongs to p in one of the tables. */
  ghost predicate KeyOf(chain: Chain, p: Position, key: Key) {
    && HasEntry(chain, p) && ValidPosition(p.0, p.1)
    && (key == TxHashKey(EntryOf(chain, p).hash) || key == TxIndexKey(p.0, p.1))
  }

  ghost predicate Accounted(chain: Chain, ps: set<Position>, key: Key) {
    exists p :: p in ps && KeyOf(chain, p, key)
  }

  /** The store holds exactly the entries of the positions in ps. */
  ghost predicate Covers(chain: Chain, ps: set<Position>, db: Db) {
    && (forall p {:trigger Stored(chain, ps, db, p)} :: p in ps ==> Stored(chain, ps, db, p))
    && (forall key {:trigger Accounted(chain, ps, key)} :: key in db ==> Accounted(chain, ps, key))
  }

  lemma {:induction false} HashKeyInjective(a: Hash, b: Hash)
    ensures TxHashKey(a) == TxHashKey(b) ==> a == b
  {
    assert a == TxHashKey(a)[1..] && b == TxHashKey(b)[1..];
  }

  /** Saving an entry leaves every other position's hash in place, and takes over its own hash. */
  lemma {:induction false} SaveKeepsOthers(chain: Chain, ps: set<Position>, db: Db, p: Position, q: Position)
    requires HasEntry(chain, p) && ValidPosition(p.0, p.1) && Storable(EntryOf(chain, p))
    requires EntryOf(chain, p).record.height == p.0 && EntryOf(chain, p).record.ethTxIndex == p.1
    requires q == p || Stored(chain, ps, db, q)
    ensures Stored(chain, ps + {p}, Save(db, EntryOf(chain, p)), q)
  {
    var db', mine, other := Save(db, EntryOf(chain, p)), EntryOf(chain, p).hash, EntryOf(chain, q).hash;
    HashKeyInjective(mine, other);
    if q != p && TxIndexKey(p.0, p.1) == TxIndexKey(q.0, q.1) {
      TxIndexKeyInjective(p.0, p.1, q.0, q.1);
    }
    if mine == other {
      assert Holds(chain, db', q, p);
    } else {
      var r :| r in ps && Holds(chain, db, q, r);
      assert Holds(chain, db', q, r);
    }
  }

  /** Saving one entry, again or for the first time, adds exactly its position. */
  lemma {:induction false} SaveCovers(chain: Chain, ps: set<Position>, db: Db, p: Position)
    requires WellFormed(chain) && Covers(chain, ps, db) && HasEntry(chain, p) && Storable(EntryOf(chain, p))
    ensures Covers(chain, ps + {p}, Save(db, EntryOf(chain, p)))
  {
    EntryShape(chain, p);
    var db' := Save(db, EntryOf(chain, p));
    forall q {:trigger Stored(chain, ps + {p}, db', q)} | q in ps + {p} ensures Stored(chain, ps + {p}, db', q) {
      assert q != p ==> Stored(chain, ps, db, q);
      SaveKeepsOthers(chain, ps, db, p, q);
    }
    forall key {:trigger Accounted(chain, ps + {p}, key)} | key in db' ensures Accounted(chain, ps + {p}, key) {
      assert key in db ==> Accounted(chain, ps, key);
    }
  }

  /** The positions of the first n entries of a block. */
  ghost function FirstPositions(h: int, n: nat): set<Position> {
    set k: nat | k < n :: (h, k)
  }

  lemma {:induction false} SaveAllCovers(chain: Chain, ps: set<Position>, db: Db, h: int, n: nat)
    requires WellFormed(chain) && Covers(chain, ps, db) && h in chain && n <= |Entries(chain[h])|
    requires AllStorable(Entries(chain[h])[..n])
    ensures Covers(chain, ps + FirstPositions(h, n), SaveAll(db, Entries(chain[h])[..n]))
    decreases n
  {
    var es := Entries(chain[h])[..n];
    if n == 0 {
      assert ps + FirstPositions(h, 0) == ps;
    } else {
      assert es[..n - 1] == Entries(chain[h])[..n - 1];
      SaveAllCovers(chain, ps, db, h, n - 1);
      assert es[n - 1] == EntryOf(chain, (h, n - 1));
      SaveCovers(chain, ps + FirstPositions(h, n - 1), SaveAll(db, es[..n - 1]), (h, n - 1));
      assert ps + FirstPositions(h, n - 1) + {(h, n - 1)} == ps + FirstPositions(h, n);
    }
  }

  /** All positions of a set of heights. */
  ghost function PositionsOf(chain: Chain, heights: set<int>): set<Position>
    requires heights <= chain.Keys
  {
    set h, k: nat | h in heights && k < |Entries(chain[h])| :: (h, k)
  }

  /** The store after any indexing run that touched exactly these heights. */
  ghost predicate Indexed(chain: Chain, heights: set<int>, db: Db) {
    WellFormed(chain) && heights <= chain.Keys && Covers(chain, PositionsOf(chain, heights), db)
  }

  /** Indexing a block, again or for the first time, adds its height and nothing else. */
  lemma {:induction false} IndexBlockKeepsTables(chain: Chain, heights: set<int>, db: Db, h: int)
    requires Indexed(chain, heights, db) && h in chain && AllStorable(Entries(chain[h]))
    ensures Indexed(chain, heights + {h}, SaveAll(db, Entries(chain[h])))
  {
    var n := |Entries(chain[h])|;
    assert Entries(chain[h])[..n] == Entries(chain[h]);
    SaveAllCovers(chain, PositionsOf(chain, heights), db, h, n);
    assert PositionsOf(chain, heights) + FirstPositions(h, n) == PositionsOf(chain, heights + {h});
  }

  /** Among the indexed positions only p carries p's hash. */
  ghost predicate OnlyOfItsHash(chain: Chain, heights: set<int>, p: Position)
    requires heights <= chain.Keys && HasEntry(chain, p)
  {
    forall q :: q in PositionsOf(chain, heights) && EntryOf(chain, q).hash == EntryOf(chain, p).hash ==> q == p
  }

  /**
    Table agreement: lookup by height and index succeeds exactly for the recorded messages of
    indexed blocks, and gives what lookup by the message's hash gives. That is the record of an
    indexed message with this hash, so the message's own when no other carries it.
  */
  lemma {:induction false} TablesAgree(chain: Chain, heights: set<int>, db: Db, h: int, i: int)
    requires Indexed(chain, heights, db) && KeyArguments(h, i)
    ensures GetByBlockAndIndex(db, h, i).Found? <==> h in heights && 0 <= i < Count(chain[h])
    ensures GetByBlockAndIndex(db, h, i).Found? ==>
      && HasEntry(chain, (h, i)) && var e := EntryOf(chain, (h, i));
      && GetByBlockAndIndex(db, h, i) == GetByTxHash(db, e.hash)
      && (exists q :: q in PositionsOf(chain, heights) && HasEntry(chain, q) &&
            EntryOf(chain, q).hash == e.hash && GetByTxHash(db, e.hash) == Found(EntryOf(chain, q).record))
      && (OnlyOfItsHash(chain, heights, (h, i)) ==> GetByTxHash(db, e.hash) == Found(e.record))
      && e.record.height == h && e.record.ethTxIndex == i
    ensures !GetByBlockAndIndex(db, h, i).Found? ==> GetByBlockAndIndex(db, h, i) == NotFound
  {
    var key := TxIndexKey(h, i);
    if key in db {
      var q := IndexKeyFound(chain, heights, db, h, i);
      EntryShape(chain, q);
    } else if h in heights && 0 <= i < Count(chain[h]) {
      PositionStored(chain, heights, db, h, i);
    }
  }

  lemma {:induction false} PositionStored(chain: Chain, heights: set<int>, db: Db, h: int, i: nat)
    requires Indexed(chain, heights, db) && h in heights && i < Count(chain[h])
    ensures Stored(chain, PositionsOf(chain, heights), db, (h, i))
  {
    assert BlockFits(chain, h);
    EntriesStorable(chain[h]);
    assert (h, i) in PositionsOf(chain, heights);
  }

  lemma {:induction false} IndexKeyFound(chain: Chain, heights: set<int>, db: Db, h: int, i: int) returns (q: Position)
    requires Indexed(chain, heights, db) && KeyArguments(h, i) && TxIndexKey(h, i) in db
    ensures h in heights && 0 <= i < Count(chain[h]) == |Entries(chain[h])|
    ensures db[TxIndexKey(h, i)] == HashOf(EntryOf(chain, (h, i)).hash)
    ensures q in PositionsOf(chain, heights) && Holds(chain, db, (h, i), q)
    ensures EntryOf(chain, (h, i)).record.height == h && EntryOf(chain, (h, i)).record.ethTxIndex == i
  {
    var key, ps := TxIndexKey(h, i), PositionsOf(chain, heights);
    assert Accounted(chain, ps, key);
    var p :| p in ps && KeyOf(chain, p, key);
    TxIndexKeyInjective(p.0, p.1, h, i);
    assert p == (h, i);
    assert Stored(chain, ps, db, p);
    EntryShape(chain, p);
    q :| q in ps && Holds(chain, db, p, q);
  }

  // ---------------------------------------------------------------------
  // Repeated hashes
  // ---------------------------------------------------------------------

  /** Everything saved when blocks are indexed one after the other. */
  ghost function LogOf(blocks: seq<Block>): seq<Entry> {
    if blocks == [] then [] else LogOf(blocks[..|blocks| - 1]) + Entries(blocks[|blocks| - 1])
  }

  /** IndexBlock on each block in turn. */
  ghost function IndexAll(db: Db, blocks: seq<Block>): Db
    requires forall i :: 0 <= i < |blocks| ==> Indexable(blocks[i])
  {
    if blocks == [] then db
    else
      EntriesStorable(blocks[|blocks| - 1]);
      SaveAll(IndexAll(db, blocks[..|blocks| - 1]), Entries(blocks[|blocks| - 1]))
  }

  lemma {:induction false} SaveAllConcat(db: Db, a: seq<Entry>, b: seq<Entry>)
    requires AllStorable(a) && AllStorable(b)
    ensures AllStorable(a + b) && SaveAll(db, a + b) == SaveAll(SaveAll(db, a), b)
    decreases |b|
  {
    if b == [] {
      assert a + b == a;
    } else {
      assert (a + b)[..|a + b| - 1] == a + b[..|b| - 1];
      SaveAllConcat(db, a, b[..|b| - 1]);
    }
  }

  lemma {:induction false} IndexAllSavesLog(db: Db, blocks: seq<Block>)
    requires forall i :: 0 <= i < |blocks| ==> Indexable(blocks[i])
    ensures AllStorable(LogOf(blocks)) && IndexAll(db, blocks) == SaveAll(db, LogOf(blocks))
    decreases |blocks|
  {
    if blocks != [] {
      var front := blocks[..|blocks| - 1];
      IndexAllSavesLog(db, front);
      EntriesStorable(blocks[|blocks| - 1]);
      SaveAllConcat(db, LogOf(front), Entries(blocks[|blocks| - 1]));
    }
  }

  lemma {:induction false} LogHeight(blocks: seq<Block>, k: nat)
    requires (forall i :: 0 <= i < |blocks| ==> Indexable(blocks[i])) && k < |LogOf(blocks)|
    ensures LogOf(blocks)[k].record.height >= 1
    decreases |blocks|
  {
    var front, last := blocks[..|blocks| - 1], blocks[|blocks| - 1];
    if k < |LogOf(front)| {
      LogHeight(front, k);
    } else {
      EntriesStorable(last);
      var t, m := EntryPosition(last, k - |LogOf(front)|);
    }
  }

  predicate SamePosition(a: Entry, b: Entry) {
    a.record.height == b.record.height && a.record.ethTxIndex == b.record.ethTxIndex
  }

  /** The index key of the last entry saved for a position holds that entry's hash. */
  lemma {:induction false} LastOfPosition(db: Db, log: seq<Entry>, k: nat)
    requires AllStorable(log) && k < |log|
    requires forall j :: k < j < |log| ==> !SamePosition(log[j], log[k])
    ensures var key := TxIndexKey(log[k].record.height, log[k].record.ethTxIndex);
            key in SaveAll(db, log) && SaveAll(db, log)[key] == HashOf(log[k].hash)
    decreases |log|
  {
    var last, r := log[|log| - 1], log[k].record;
    if k < |log| - 1 {
      LastOfPosition(db, log[..|log| - 1], k);
      if TxIndexKey(last.record.height, last.record.ethTxIndex) == TxIndexKey(r.height, r.ethTxIndex) {
        TxIndexKeyInjective(last.record.height, last.record.ethTxIndex, r.height, r.ethTxIndex);
      }
    }
  }

  /** The hash key holds the record of the last entry saved under that hash. */
  lemma {:induction false} LastOfHash(db: Db, log: seq<Entry>, k: nat) returns (j: nat)
    requires AllStorable(log) && k < |log|
    ensures k <= j < |log| && log[j].hash == log[k].hash
    ensures forall i :: j < i < |log| ==> log[i].hash != log[k].hash
    ensures TxHashKey(log[k].hash) in SaveAll(db, log) && SaveAll(db, log)[TxHashKey(log[k].hash)] == Record(log[j].record)
    decreases |log|
  {
    var last := log[|log| - 1];
    HashKeyInjective(last.hash, log[k].hash);
    if last.hash == log[k].hash {
      j := |log| - 1;
    } else {
      j := LastOfHash(db, log[..|log| - 1], k);
    }
  }

  /**
    Blocks indexed in any order, some perhaps again: the last entry saved for a position is
    found under it if and only if no entry saved later carries the same hash.
  */
  lemma {:induction false} OwnRecordIff(db: Db, blocks: seq<Block>, k: nat)
    requires forall i :: 0 <= i < |blocks| ==> Indexable(blocks[i])
    requires k < |LogOf(blocks)|
    requires forall j :: k < j < |LogOf(blocks)| ==> !SamePosition(LogOf(blocks)[j], LogOf(blocks)[k])
    ensures var log, r := LogOf(blocks), LogOf(blocks)[k].record;
            && Storable(log[k])
            && (GetByBlockAndIndex(IndexAll(db, blocks), r.height, r.ethTxIndex) == Found(r) <==>
                forall j :: k < j < |log| ==> log[j].hash != log[k].hash)
  {
    hide LogOf, SaveAll, IndexAll, TxIndexKey, TxHashKey;
    var log := LogOf(blocks);
    IndexAllSavesLog(db, blocks);
    LogHeight(blocks, k);
    LastOfPosition(db, log, k);
    var j := LastOfHash(db, log, k);
  }

  /** A block at the height with one eth transaction. */
  function OneTx(height: int, hash: Hash): Block {
    Block(height, [BlockTx(true, true, true, true, true, [Msg(hash, 1, Some(Parsed(1, false)))])])
  }

  lemma {:induction false} OneTxEntries(height: int, hash: Hash)
    ensures Count(OneTx(height, hash)) == 1
    ensures Entries(OneTx(height, hash)) == [Entry(hash, TxResult(height, 0, 0, 0, false, 1, 1))]
  {
    var b := OneTx(height, hash);
    assert CountOfFirst(b.txs[0], 1) == 1 + CountOfFirst(b.txs[0], 0) && CountBefore(b, 1) == 0 + CountOfFirst(b.txs[0], 1);
    assert GasOfFirst(b.txs[0], 1) == (GasOfFirst(b.txs[0], 0) + 1) % TWO64;
    assert EntriesOfFirst(b, 0, 1) == EntriesOfFirst(b, 0, 0) + [EntryAt(b, 0, 0)];
    assert EntriesBefore(b, 1) == EntriesBefore(b, 0) + EntriesOfFirst(b, 0, 1);
  }

  /** Two blocks with the same transaction hash: looking up the first by position finds the second's record. */
  lemma {:induction false} SavedAgainIsReplaced(db: Db, hash: Hash)
    ensures var blocks := [OneTx(1, hash), OneTx(2, hash)];
            && Indexable(blocks[0]) && Indexable(blocks[1])
            && GetByBlockAndIndex(IndexAll(db, blocks), 1, 0) == Found(TxResult(2, 0, 0, 0, false, 1, 1))
  {
    hide Entries, SaveAll, TxIndexKey, TxHashKey;
    var first, second := OneTx(1, hash), OneTx(2, hash);
    OneTxEntries(1, hash);
    OneTxEntries(2, hash);
    var log := Entries(first) + Entries(second);
    assert [first, second][..1] == [first] && [first][..0] == [];
    assert LogOf([first]) == [] + Entries(first) && LogOf([first, second]) == LogOf([first]) + Entries(second);
    IndexAllSavesLog(db, [first, second]);
    assert LogOf([first, second]) == log;
    LastOfPosition(db, log, 0);
    var j := LastOfHash(db, log, 0);
    assert |log| == 2 && log[0].hash == hash && log[1].hash == hash;
    assert GetByTxHash(SaveAll(db, log), hash) == Found(log[1].record);
  }

  // ---------------------------------------------------------------------
  // First and last indexed block
  // ---------------------------------------------------------------------

  /** Heights with at least one recorded message. */
  ghost function Marked(chain: Chain, heights: set<int>): set<int>
    requires heights <= chain.Keys
  {
    set h | h in heights && Count(chain[h]) > 0
  }

  /** The keys the loaders scan are exactly the index keys of recorded messages. */
  lemma {:induction false} ScannedKey(chain: Chain, heights: set<int>, db: Db, key: Key) returns (p: Position)
    requires Indexed(chain, heights, db) && key in db && InScanRange(key)
    ensures p.0 in Marked(chain, heights) && ValidPosition(p.0, p.1) && key == TxIndexKey(p.0, p.1)
  {
    var ps := PositionsOf(chain, heights);
    assert Accounted(chain, ps, key);
    p :| p in ps && KeyOf(chain, p, key);
    ScanRangeIsIndexPrefix(key);
    EntryShape(chain, p);
  }

  lemma {:induction false} MarkedKey(chain: Chain, heights: set<int>, db: Db, h: int)
    requires Indexed(chain, heights, db) && h in Marked(chain, heights)
    ensures ValidPosition(h, 0) && TxIndexKey(h, 0) in db && InScanRange(TxIndexKey(h, 0))
  {
    PositionStored(chain, heights, db, h, 0);
    ScanRangeIsIndexPrefix(TxIndexKey(h, 0));
  }

  /** db.Iterator / db.ReverseIterator over the scan range: its first or last key. */
  method ScanEnd(db: Db, last: bool) returns (key: Option<Key>)
    ensures key.None? <==> forall k :: k in db ==> !InScanRange(k)
    ensures key.Some? ==> key.value in db && InScanRange(key.value)
    ensures key.Some? ==> forall k :: k in db && InScanRange(k) ==>
      if last then LexLeq(k, key.value) else LexLeq(key.value, k)
  {
    key := None;
    var todo := db.Keys;
    while todo != {}
      invariant todo <= db.Keys
      invariant key.None? <==> forall k :: k in db.Keys - todo ==> !InScanRange(k)
      invariant key.Some? ==> key.value in db && InScanRange(key.value)
      invariant key.Some? ==> forall k :: k in db.Keys - todo && InScanRange(k) ==>
        if last then LexLeq(k, key.value) else LexLeq(key.value, k)
      decreases todo
    {
      var x :| x in todo;
      if InScanRange(x) {
        if key.None? {
          key := Some(x);
        } else {
          BetterEnd(db.Keys - todo, key.value, x, last);
          if (if last then LexLess(key.value, x) else LexLess(x, key.value)) {
            key := Some(x);
          }
        }
      }
      todo := todo - {x};
    }
  }

  /** Comparing a new key with the end found so far gives the end of both. */
  lemma {:induction false} BetterEnd(seen: set<Key>, best: Key, x: Key, last: bool)
    requires forall k :: k in seen && InScanRange(k) ==> if last then LexLeq(k, best) else LexLeq(best, k)
    ensures if (if last then LexLess(best, x) else LexLess(x, best))
            then (forall k :: k in seen && InScanRange(k) ==> if last then LexLeq(k, x) else LexLeq(x, k))
            else if last then LexLeq(x, best) else LexLeq(best, x)
  {
    LexTrichotomy(best, x);
    forall k | k in seen && InScanRange(k)
      ensures last && LexLess(best, x) ==> LexLeq(k, x)
      ensures !last && LexLess(x, best) ==> LexLeq(x, k)
    {
      if last && LexLess(best, x) && LexLess(k, best) { LexTransitive(k, best, x); }
      if !last && LexLess(x, best) && LexLess(best, k) { LexTransitive(x, best, k); }
    }
  }

  /** h is the greatest (or least) height holding an eth transaction, or -1 when there is none. */
  ghost predicate IsBound(chain: Chain, heights: set<int>, h: int, last: bool)
    requires heights <= chain.Keys
  {
    if Marked(chain, heights) == {} then h == -1
    else h in Marked(chain, heights) &&
         forall g :: g in Marked(chain, heights) ==> if last then g <= h else h <= g
  }

  /** LoadLastBlock and LoadFirstBlock. */
  method LoadBlock(db: Db, last: bool, ghost chain: Chain, ghost heights: set<int>) returns (h: int)
    requires Indexed(chain, heights, db)
    ensures IsBound(chain, heights, h, last)
  {
    var key := ScanEnd(db, last);
    if key.None? {
      forall g | g in Marked(chain, heights) ensures false { MarkedKey(chain, heights, db, g); }
      return -1;
    }
    ghost var p := ScannedKey(chain, heights, db, key.value);
    ParseInvertsKey(p.0, p.1);
    EndIsBound(chain, heights, db, p, last);
    var number := ParseBlockNumber(key.value);
    return number.value;
  }

  lemma {:induction false} EndIsBound(chain: Chain, heights: set<int>, db: Db, p: Position, last: bool)
    requires Indexed(chain, heights, db) && p.0 in Marked(chain, heights) && ValidPosition(p.0, p.1)
    requires forall k :: k in db && InScanRange(k) ==>
      if last then LexLeq(k, TxIndexKey(p.0, p.1)) else LexLeq(TxIndexKey(p.0, p.1), k)
    ensures IsBound(chain, heights, p.0, last)
  {
    forall g | g in Marked(chain, heights) ensures if last then g <= p.0 else p.0 <= g {
      MarkedKey(chain, heights, db, g);
      KeyOrder(g, 0, p.0, p.1);
      KeyOrder(p.0, p.1, g, 0);
      if TxIndexKey(g, 0) == TxIndexKey(p.0, p.1) { TxIndexKeyInjective(g, 0, p.0, p.1); }
    }
  }
}
