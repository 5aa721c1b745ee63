/**
  The eth-tx indexer (indexer/kv_indexer.go): two tables in one key-value store,
  hash to record and (height, index) to hash. Blocks come with what decoding and
  event parsing yield for them; records are stored as values instead of bytes.
*/
module KvIndexer {
  import opened Wrappers
  import opened Words
  import opened IndexKeys

  datatype TxResult = TxResult(
    height: int, txIndex: nat, msgIndex: nat, ethTxIndex: int, failed: bool, gasUsed: nat, cumulativeGasUsed: nat)

  /** The record whose encoding is empty, which readers take for a missing one. */
  const ZERO_RESULT := TxResult(0, 0, 0, 0, false, 0, 0)

  /** What the transaction's events say about one message. */
  datatype Parsed = Parsed(gasUsed: nat, failed: bool)

  datatype Msg = Msg(hash: Hash, gas: nat, parsed: Option<Parsed>)

  /** A Cosmos transaction of a block: the four filters of IndexBlock, the result code, its messages. */
  datatype BlockTx = BlockTx(executed: bool, decodes: bool, isEth: bool, parses: bool, codeOk: bool, msgs: seq<Msg>)

  datatype Block = Block(height: int, txs: seq<BlockTx>)

  datatype Entry = Entry(hash: Hash, record: TxResult)

  datatype Value = Record(record: TxResult) | HashOf(hash: Hash)

  type Db = map<Key, Value>

  const UINT32_LIMIT: nat := 0x1_0000_0000

  // ---------------------------------------------------------------------
  // Which messages are recorded, and how
  // ---------------------------------------------------------------------

  predicate Relevant(tx: BlockTx) {
    tx.executed && tx.decodes && tx.isEth && tx.parses
  }

  /** Messages of failed transactions are recorded as such; others need their event. */
  predicate Recorded(tx: BlockTx, m: nat)
    requires m < |tx.msgs|
  {
    !tx.codeOk || tx.msgs[m].parsed.Some?
  }

  function GasUsed(tx: BlockTx, m: nat): nat
    requires m < |tx.msgs| && Recorded(tx, m)
  {
    if tx.codeOk then tx.msgs[m].parsed.value.gasUsed else tx.msgs[m].gas
  }

  predicate HasFailed(tx: BlockTx, m: nat)
    requires m < |tx.msgs| && Recorded(tx, m)
  {
    !tx.codeOk || tx.msgs[m].parsed.value.failed
  }

  /** Gas of the recorded messages among the first m, as a uint64. */
  function GasOfFirst(tx: BlockTx, m: nat): nat
    requires m <= |tx.msgs|
  {
    if m == 0 then 0
    else (GasOfFirst(tx, m - 1) + (if Recorded(tx, m - 1) then GasUsed(tx, m - 1) else 0)) % TWO64
  }

  function CountOfFirst(tx: BlockTx, m: nat): nat
    requires m <= |tx.msgs|
  {
    if m == 0 then 0 else CountOfFirst(tx, m - 1) + (if Recorded(tx, m - 1) then 1 else 0)
  }

  /** The number of messages recorded for the first t transactions. */
  function CountBefore(block: Block, t: nat): nat
    requires t <= |block.txs|
  {
    if t == 0 then 0
    else
      var tx := block.txs[t - 1];
      CountBefore(block, t - 1) + (if Relevant(tx) then CountOfFirst(tx, |tx.msgs|) else 0)
  }

  function Count(block: Block): nat {
    CountBefore(block, |block.txs|)
  }

  predicate IsPosition(block: Block, t: nat, m: nat) {
    t < |block.txs| && Relevant(block.txs[t]) && m < |block.txs[t].msgs| && Recorded(block.txs[t], m)
  }

  /** The block's eth-tx index of a recorded message: how many were recorded before it. */
  function EthIndex(block: Block, t: nat, m: nat): nat
    requires IsPosition(block, t, m)
  {
    CountBefore(block, t) + CountOfFirst(block.txs[t], m)
  }

  /** The entry a recorded message must get. */
  function EntryAt(block: Block, t: nat, m: nat): Entry
    requires IsPosition(block, t, m)
  {
    var tx := block.txs[t];
    Entry(tx.msgs[m].hash,
          TxResult(block.height, t % UINT32_LIMIT, m % UINT32_LIMIT, EthIndex(block, t, m),
                   HasFailed(tx, m), GasUsed(tx, m), GasOfFirst(tx, m + 1)))
  }

  function EntriesOfFirst(block: Block, t: nat, m: nat): seq<Entry>
    requires t < |block.txs| && Relevant(block.txs[t]) && m <= |block.txs[t].msgs|
  {
    if m == 0 then []
    else EntriesOfFirst(block, t, m - 1) + (if Recorded(block.txs[t], m - 1) then [EntryAt(block, t, m - 1)] else [])
  }

  function EntriesBefore(block: Block, t: nat): seq<Entry>
    requires t <= |block.txs|
  {
    if t == 0 then []
    else
      var tx := block.txs[t - 1];
      EntriesBefore(block, t - 1) + (if Relevant(tx) then EntriesOfFirst(block, t - 1, |tx.msgs|) else [])
  }

  function Entries(block: Block): seq<Entry> {
    EntriesBefore(block, |block.txs|)
  }

  lemma {:induction false} EntriesOfFirstCount(block: Block, t: nat, m: nat)
    requires t < |block.txs| && Relevant(block.txs[t]) && m <= |block.txs[t].msgs|
    ensures |EntriesOfFirst(block, t, m)| == CountOfFirst(block.txs[t], m)
  {
    if m > 0 { EntriesOfFirstCount(block, t, m - 1); }
  }

  lemma {:induction false} EntriesBeforeCount(block: Block, t: nat)
    requires t <= |block.txs|
    ensures |EntriesBefore(block, t)| == CountBefore(block, t)
  {
    if t > 0 {
      EntriesBeforeCount(block, t - 1);
      if Relevant(block.txs[t - 1]) { EntriesOfFirstCount(block, t - 1, |block.txs[t - 1].msgs|); }
    }
  }

  lemma {:induction false} EntryOfTx(block: Block, t: nat, m: nat, k: nat) returns (i: nat)
    requires t < |block.txs| && Relevant(block.txs[t]) && m <= |block.txs[t].msgs|
    requires k < CountOfFirst(block.txs[t], m)
    ensures i < m && Recorded(block.txs[t], i) && CountOfFirst(block.txs[t], i) == k
    ensures |EntriesOfFirst(block, t, m)| == CountOfFirst(block.txs[t], m)
    ensures EntriesOfFirst(block, t, m)[k] == EntryAt(block, t, i)
  {
    EntriesOfFirstCount(block, t, m);
    EntriesOfFirstCount(block, t, m - 1);
    if k < CountOfFirst(block.txs[t], m - 1) {
      i := EntryOfTx(block, t, m - 1, k);
    } else {
      i := m - 1;
    }
  }

  lemma {:induction false} EntryPositionBefore(block: Block, n: nat, k: nat) returns (t: nat, m: nat)
    requires n <= |block.txs| && k < CountBefore(block, n)
    ensures t < n && IsPosition(block, t, m) && EthIndex(block, t, m) == k
    ensures |EntriesBefore(block, n)| == CountBefore(block, n) && EntriesBefore(block, n)[k] == EntryAt(block, t, m)
  {
    EntriesBeforeCount(block, n);
    EntriesBeforeCount(block, n - 1);
    var c := CountBefore(block, n - 1);
    if k < c {
      t, m := EntryPositionBefore(block, n - 1, k);
    } else {
      t := n - 1;
      m := EntryOfTx(block, t, |block.txs[t].msgs|, k - c);
    }
  }

  // ---------------------------------------------------------------------
  // What an entry says, in terms of the block alone
  // ---------------------------------------------------------------------

  /** Message m of transaction t gets an entry: the transaction passes the filters, and if it succeeded the message has its event. */
  predicate GetsEntry(block: Block, t: int, m: int) {
    && 0 <= t < |block.txs|
    && block.txs[t].executed && block.txs[t].decodes && block.txs[t].isEth && block.txs[t].parses
    && 0 <= m < |block.txs[t].msgs| && (block.txs[t].codeOk ==> block.txs[t].msgs[m].parsed.Some?)
  }

  /** What the messages use together: their gas limits if the transaction failed, else what their events say. */
  function GasSum(msgs: seq<Msg>, codeOk: bool): nat {
    if msgs == [] then 0
    else
      (if !codeOk then msgs[0].gas else if msgs[0].parsed.Some? then msgs[0].parsed.value.gasUsed else 0)
      + GasSum(msgs[1..], codeOk)
  }

  /** The entry is that of message m of transaction t, at index k of the block. */
  predicate Describes(block: Block, e: Entry, t: int, m: int, k: int)
    requires GetsEntry(block, t, m)
  {
    var tx := block.txs[t];
    var r := e.record;
    && e.hash == tx.msgs[m].hash && r.height == block.height && r.ethTxIndex == k
    && r.txIndex == t % 0x1_0000_0000 && r.msgIndex == m % 0x1_0000_0000
    && (if tx.codeOk
        then r.gasUsed == tx.msgs[m].parsed.value.gasUsed && r.failed == tx.msgs[m].parsed.value.failed
        else r.gasUsed == tx.msgs[m].gas && r.failed)
    && r.cumulativeGasUsed == GasSum(tx.msgs[..m + 1], tx.codeOk) % 0x1_0000_0000_0000_0000
  }

  lemma {:induction false} GasSumSnoc(msgs: seq<Msg>, msg: Msg, codeOk: bool)
    ensures GasSum(msgs + [msg], codeOk) == GasSum(msgs, codeOk) + GasSum([msg], codeOk)
    decreases |msgs|
  {
    if msgs == [] {
      assert msgs + [msg] == [msg];
    } else {
      assert (msgs + [msg])[1..] == msgs[1..] + [msg];
      GasSumSnoc(msgs[1..], msg, codeOk);
    }
  }

  lemma {:induction false} GasOfFirstIsSum(tx: BlockTx, m: nat)
    requires m <= |tx.msgs|
    ensures GasOfFirst(tx, m) == GasSum(tx.msgs[..m], tx.codeOk) % TWO64
  {
    if m > 0 {
      GasOfFirstIsSum(tx, m - 1);
      var last := tx.msgs[m - 1];
      assert tx.msgs[..m] == tx.msgs[..m - 1] + [last];
      GasSumSnoc(tx.msgs[..m - 1], last, tx.codeOk);
      assert GasSum([last], tx.codeOk) == if Recorded(tx, m - 1) then GasUsed(tx, m - 1) else 0;
      SumModulo(GasSum(tx.msgs[..m - 1], tx.codeOk), GasSum([last], tx.codeOk));
    }
  }

  lemma {:induction false} SumModulo(a: nat, b: nat)
    ensures (a % TWO64 + b) % TWO64 == (a + b) % TWO64
  {
  }

  lemma {:induction false} EntryAtDescribes(block: Block, t: nat, m: nat)
    requires IsPosition(block, t, m)
    ensures GetsEntry(block, t, m) && Describes(block, EntryAt(block, t, m), t, m, EthIndex(block, t, m))
  {
    GasOfFirstIsSum(block.txs[t], m + 1);
  }

  /**
    The k-th entry of a block is that of a recorded message: it carries the message's hash and
    place, the height, k, whether it failed and what it used, and the gas summed up to it
    within its Cosmos transaction.
  */
  lemma {:induction false} EntryPosition(block: Block, k: nat) returns (t: nat, m: nat)
    requires k < Count(block)
    ensures |Entries(block)| == Count(block)
    ensures IsPosition(block, t, m) && EthIndex(block, t, m) == k && Entries(block)[k] == EntryAt(block, t, m)
    ensures GetsEntry(block, t, m) && Describes(block, Entries(block)[k], t, m, k)
  {
    t, m := EntryPositionBefore(block, |block.txs|, k);
    EntryAtDescribes(block, t, m);
  }

  lemma {:induction false} CountGrows(block: Block, t: nat, n: nat)
    requires t <= n <= |block.txs|
    ensures CountBefore(block, t) <= CountBefore(block, n)
    decreases n - t
  {
    if t < n { CountGrows(block, t, n - 1); }
  }

  lemma {:induction false} CountOfFirstGrows(tx: BlockTx, m: nat, n: nat)
    requires m <= n <= |tx.msgs|
    ensures CountOfFirst(tx, m) <= CountOfFirst(tx, n)
    decreases n - m
  {
    if m < n { CountOfFirstGrows(tx, m, n - 1); }
  }

  /** Recorded messages have different indices, all below the count. */
  lemma {:induction false} EthIndexBounded(block: Block, t: nat, m: nat)
    requires IsPosition(block, t, m)
    ensures EthIndex(block, t, m) < CountBefore(block, t + 1) <= Count(block)
  {
    var tx := block.txs[t];
    CountOfFirstGrows(tx, m + 1, |tx.msgs|);
    CountGrows(block, t + 1, |block.txs|);
  }

  lemma {:induction false} EthIndexOrder(block: Block, t: nat, m: nat, t': nat, m': nat)
    requires IsPosition(block, t, m) && IsPosition(block, t', m') && (t < t' || (t == t' && m < m'))
    ensures EthIndex(block, t, m) < EthIndex(block, t', m')
  {
    if t < t' {
      EthIndexBounded(block, t, m);
      CountGrows(block, t + 1, t');
    } else {
      CountOfFirstGrows(block.txs[t], m + 1, m');
    }
  }

  /** Every message that gets an entry has one, at its index. */
  lemma {:induction false} RecordedHasEntry(block: Block, t: nat, m: nat) returns (k: nat)
    requires GetsEntry(block, t, m)
    ensures IsPosition(block, t, m) && k == EthIndex(block, t, m) < Count(block) == |Entries(block)|
    ensures Entries(block)[k] == EntryAt(block, t, m) && Describes(block, Entries(block)[k], t, m, k)
  {
    EthIndexBounded(block, t, m);
    EntryAtDescribes(block, t, m);
    k := EthIndex(block, t, m);
    var t', m' := EntryPosition(block, k);
    if t < t' || (t == t' && m < m') {
      EthIndexOrder(block, t, m, t', m');
    } else if t' < t || m' < m {
      EthIndexOrder(block, t', m', t, m);
    }
  }

  /** Entries follow the order of the messages, so an index is the number of messages before it that get an entry. */
  lemma {:induction false} EntriesInOrder(block: Block, t: nat, m: nat, t': nat, m': nat) returns (k: nat, l: nat)
    requires GetsEntry(block, t, m) && GetsEntry(block, t', m') && (t < t' || (t == t' && m < m'))
    ensures k < l < |Entries(block)|
    ensures Describes(block, Entries(block)[k], t, m, k) && Describes(block, Entries(block)[l], t', m', l)
  {
    k := RecordedHasEntry(block, t, m);
    l := RecordedHasEntry(block, t', m');
    EthIndexOrder(block, t, m, t', m');
  }

  // ---------------------------------------------------------------------
  // The store
  // ---------------------------------------------------------------------

  predicate Storable(e: Entry) {
    KeyArguments(e.record.height, e.record.ethTxIndex)
  }

  /** saveTxResult. */
  function Save(db: Db, e: Entry): Db
    requires Storable(e)
  {
    db[TxHashKey(e.hash) := Record(e.record)][TxIndexKey(e.record.height, e.record.ethTxIndex) := HashOf(e.hash)]
  }

  ghost predicate AllStorable(es: seq<Entry>) {
    forall i :: 0 <= i < |es| ==> Storable(es[i])
  }

  ghost function SaveAll(db: Db, es: seq<Entry>): Db
    requires AllStorable(es)
  {
    if es == [] then db else Save(SaveAll(db, es[..|es| - 1]), es[|es| - 1])
  }

  datatype Lookup = Found(record: TxResult) | NotFound | Malformed

  function GetByTxHash(db: Db, hash: Hash): Lookup {
    if TxHashKey(hash) !in db then NotFound
    else
      match db[TxHashKey(hash)]
      case Record(r) => if r == ZERO_RESULT then NotFound else Found(r)
      case HashOf(_) => Malformed
  }

  function GetByBlockAndIndex(db: Db, height: int, index: int): Lookup
    requires KeyArguments(height, index)
  {
    var key := TxIndexKey(height, index);
    if key !in db then NotFound
    else
      match db[key]
      case HashOf(hash) => GetByTxHash(db, hash)
      case Record(_) => Malformed
  }

  /** Blocks that fit the index: a positive height and an int32 count. */
  predicate Indexable(block: Block) {
    1 <= block.height < TWO63 && Count(block) < TWO31
  }

  lemma {:induction false} EntriesStorable(block: Block)
    requires Indexable(block)
    ensures |Entries(block)| == Count(block) && AllStorable(Entries(block))
  {
    EntriesBeforeCount(block, |block.txs|);
    forall k | 0 <= k < |Entries(block)| ensures Storable(Entries(block)[k]) {
      var t, m := EntryPosition(block, k);
    }
  }

  /** How the store may fail during one IndexBlock: batch.Set at the entry with this index, or batch.Write. */
  datatype Faults = Faults(setAt: Option<nat>, write: bool)

  class KVIndexer {
    var db: Db

    constructor ()
      ensures db == map[]
    {
      db := map[];
    }

    /** batch.Write: the pending entries are applied in order. */
    method Write(batch: seq<Entry>)
      requires AllStorable(batch)
      modifies this
      ensures db == SaveAll(old(db), batch)
    {
      for i := 0 to |batch|
        invariant db == SaveAll(old(db), batch[..i])
      {
        assert batch[..i + 1][..i] == batch[..i];
        db := Save(db, batch[i]);
      }
      assert batch[..|batch|] == batch;
    }

    /**
      IndexBlock: every recorded message of the block is saved, in order, in one batch. It fails
      exactly when setting one of the block's entries or the final write fails, and then nothing
      is written.
    */
    method IndexBlock(block: Block, faults: Faults) returns (ok: bool)
      requires Indexable(block)
      modifies this
      ensures ok <==> !faults.write && !(faults.setAt.Some? && faults.setAt.value < Count(block))
      ensures AllStorable(Entries(block)) && db == if ok then SaveAll(old(db), Entries(block)) else old(db)
    {
      EntriesStorable(block);
      var batch: seq<Entry> := [];
      var ethTxIndex: nat := 0;
      for t := 0 to |block.txs|
        invariant ethTxIndex == CountBefore(block, t)
        invariant batch == EntriesBefore(block, t) && db == old(db)
        invariant !(faults.setAt.Some? && faults.setAt.value < ethTxIndex)
      {
        var tx := block.txs[t];
        if !tx.executed || !tx.decodes || !tx.isEth || !tx.parses {
          continue;
        }
        var entries;
        ethTxIndex, entries, ok := IndexTx(block, t, ethTxIndex, faults.setAt);
        if !ok {
          return;
        }
        batch := batch + entries;
      }
      if faults.write {
        return false;
      }
      Write(batch);
      ok := true;
    }
  }

  /** The messages of one transaction: the inner loop of IndexBlock. */
  method IndexTx(block: Block, t: nat, first: nat, setFailsAt: Option<nat>)
    returns (ethTxIndex: nat, entries: seq<Entry>, ok: bool)
    requires t < |block.txs| && Relevant(block.txs[t]) && first == CountBefore(block, t)
    ensures ok ==> ethTxIndex == first + CountOfFirst(block.txs[t], |block.txs[t].msgs|)
    ensures ok ==> entries == EntriesOfFirst(block, t, |block.txs[t].msgs|)
    ensures ok ==> !(setFailsAt.Some? && first <= setFailsAt.value < ethTxIndex)
    ensures !ok ==> setFailsAt.Some? && first <= setFailsAt.value < Count(block)
  {
    var tx := block.txs[t];
    ethTxIndex, entries, ok := first, [], true;
    var cumulativeGasUsed := 0;
    for m := 0 to |tx.msgs|
      invariant ethTxIndex == first + CountOfFirst(tx, m)
      invariant cumulativeGasUsed == GasOfFirst(tx, m)
      invariant entries == EntriesOfFirst(block, t, m)
      invariant ok && !(setFailsAt.Some? && first <= setFailsAt.value < ethTxIndex)
    {
      var msg := tx.msgs[m];
      var gasUsed, failed := msg.gas, true;
      if tx.codeOk {
        if msg.parsed.None? {
          continue;
        }
        gasUsed, failed := msg.parsed.value.gasUsed, msg.parsed.value.failed;
      }
      cumulativeGasUsed := (cumulativeGasUsed + gasUsed) % TWO64;
      var result := TxResult(block.height, t % UINT32_LIMIT, m % UINT32_LIMIT, ethTxIndex,
                             failed, gasUsed, cumulativeGasUsed);
      ethTxIndex := ethTxIndex + 1;
      if setFailsAt == Some(ethTxIndex - 1) {
        EthIndexBounded(block, t, m);
        ok := false;
        return;
      }
      entries := entries + [Entry(msg.hash, result)];
    }
  }
}
