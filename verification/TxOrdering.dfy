/**
  Price-and-nonce ordering of pending EVM transactions
  (mempool/miner/ordering.go): an in-place binary heap of account heads over
  per-account, nonce-sorted queues.
*/
module TxOrdering {
  import opened Wrappers

  type Address = nat

  /** The part of txpool.LazyTransaction the ordering looks at. */
  datatype LazyTx = LazyTx(id: nat, time: int, feeCap: nat, tipCap: nat)

  /** txWithMinerFee: an account's next transaction and its effective tip. */
  datatype Head = Head(tx: LazyTx, from: Address, fees: nat)

  /** What is still to be emitted, per account, in nonce order. */
  type Queues = map<Address, seq<LazyTx>>

  // ---------------------------------------------------------------------
  // Effective tip
  // ---------------------------------------------------------------------

  predicate Affordable(tx: LazyTx, baseFee: Option<nat>) {
    baseFee.Some? ==> baseFee.value <= tx.feeCap
  }

  /** EIP-1559: min(tipCap, feeCap - baseFee), or the tip cap without a base fee. */
  function EffectiveTip(tx: LazyTx, baseFee: Option<nat>): (tip: nat)
    requires Affordable(tx, baseFee)
    ensures baseFee.None? ==> tip == tx.tipCap
    ensures baseFee.Some? ==> tip <= tx.tipCap && tip + baseFee.value <= tx.feeCap
    ensures baseFee.Some? ==> tip == tx.tipCap || tip + baseFee.value == tx.feeCap
  {
    if baseFee.None? || tx.tipCap <= tx.feeCap - baseFee.value
    then tx.tipCap else tx.feeCap - baseFee.value
  }

  function NewTxWithMinerFee(tx: LazyTx, from: Address, baseFee: Option<nat>): (r: Option<Head>)
    ensures r.Some? <==> Affordable(tx, baseFee)
    ensures r.None? <==> baseFee.Some? && tx.feeCap < baseFee.value
    ensures r.Some? ==> r.value == Head(tx, from, EffectiveTip(tx, baseFee))
    ensures r.Some? && baseFee.None? ==> r.value.fees == tx.tipCap
    ensures r.Some? && baseFee.Some? ==>
      var room := tx.feeCap - baseFee.value;
      r.value.fees <= tx.tipCap && r.value.fees <= room && (r.value.fees == tx.tipCap || r.value.fees == room)
  {
    match baseFee
    case None => Some(Head(tx, from, tx.tipCap))
    case Some(fee) =>
      if tx.feeCap < fee then None
      else
        var tip := tx.feeCap - fee;
        Some(Head(tx, from, if tip > tx.tipCap then tx.tipCap else tip))
  }

  /** The leading transactions of an account that all cover the base fee. */
  function AffordablePrefix(txs: seq<LazyTx>, baseFee: Option<nat>): seq<LazyTx> {
    if txs == [] || !Affordable(txs[0], baseFee) then []
    else [txs[0]] + AffordablePrefix(txs[1..], baseFee)
  }

  lemma {:induction false} AffordablePrefixIsLongest(txs: seq<LazyTx>, baseFee: Option<nat>)
    ensures var p := AffordablePrefix(txs, baseFee);
            && p <= txs
            && (forall i :: 0 <= i < |p| ==> Affordable(txs[i], baseFee))
            && (|p| < |txs| ==> !Affordable(txs[|p|], baseFee))
  {
    if txs != [] && Affordable(txs[0], baseFee) {
      AffordablePrefixIsLongest(txs[1..], baseFee);
      assert txs == [txs[0]] + txs[1..];
    }
  }

  // ---------------------------------------------------------------------
  // The heap on a sequence
  // ---------------------------------------------------------------------

  /** txByPriceAndTime.Less: higher tip first, then earlier arrival. */
  predicate Less(a: Head, b: Head) {
    if a.fees == b.fees then a.tx.time < b.tx.time else a.fees > b.fees
  }

  function Parent(j: int): int { (j - 1) / 2 }

  /** Node k does not beat node p. */
  ghost predicate Bounded(h: seq<Head>, k: int, p: int)
    requires 0 <= k < |h| && 0 <= p < |h|
  {
    !Less(h[k], h[p])
  }

  /** Every node below n whose parent is at least lo does not beat its parent. */
  ghost predicate HeapFrom(h: seq<Head>, lo: int, n: nat)
    requires n <= |h|
  {
    forall j {:trigger Bounded(h, j, Parent(j))} :: 1 <= j < n && lo <= Parent(j) ==> Bounded(h, j, Parent(j))
  }

  /** As HeapFrom, except that node i may be beaten by its children. */
  ghost predicate HeapExcept(h: seq<Head>, lo: int, i: int, n: nat)
    requires n <= |h|
  {
    && (forall j {:trigger Bounded(h, j, Parent(j))} ::
          1 <= j < n && lo <= Parent(j) && Parent(j) != i ==> Bounded(h, j, Parent(j)))
    && (forall j {:trigger Bounded(h, j, Parent(i))} ::
          1 <= j < n && Parent(j) == i && 1 <= i && lo <= Parent(i) ==> Bounded(h, j, Parent(i)))
  }

  ghost predicate Distinct(h: seq<Head>) {
    forall i, j :: 0 <= i < j < |h| ==> h[i].from != h[j].from
  }

  /** The heads by account. */
  ghost function ByAccount(h: seq<Head>): map<Address, Head> {
    if h == [] then map[] else ByAccount(h[..|h| - 1])[h[|h| - 1].from := h[|h| - 1]]
  }

  lemma {:induction false} HeadAt(h: seq<Head>, k: nat)
    requires k < |h| && Distinct(h)
    ensures h[k].from in ByAccount(h) && ByAccount(h)[h[k].from] == h[k]
  {
    if k < |h| - 1 {
      HeadAt(h[..|h| - 1], k);
    }
  }

  lemma {:induction false} FindHead(h: seq<Head>, a: Address) returns (k: nat)
    requires a in ByAccount(h)
    requires Distinct(h)
    ensures k < |h| && h[k].from == a && ByAccount(h)[a] == h[k]
  {
    if h[|h| - 1].from == a {
      k := |h| - 1;
    } else {
      k := FindHead(h[..|h| - 1], a);
    }
  }

  /** Sequences holding the same heads have the same heads by account. */
  lemma {:induction false} SameHeads(h: seq<Head>, s: seq<Head>)
    requires Distinct(h) && Distinct(s)
    requires forall k :: 0 <= k < |h| ==> h[k] in s
    requires forall k :: 0 <= k < |s| ==> s[k] in h
    ensures ByAccount(s) == ByAccount(h)
  {
    HeadsIncluded(h, s);
    HeadsIncluded(s, h);
  }

  lemma {:induction false} HeadsIncluded(h: seq<Head>, s: seq<Head>)
    requires Distinct(h) && Distinct(s)
    requires forall k :: 0 <= k < |h| ==> h[k] in s
    ensures forall a :: a in ByAccount(h) ==> a in ByAccount(s) && ByAccount(s)[a] == ByAccount(h)[a]
  {
    forall a | a in ByAccount(h) ensures a in ByAccount(s) && ByAccount(s)[a] == ByAccount(h)[a] {
      var k := FindHead(h, a);
      assert h[k] in s;
      var j :| 0 <= j < |s| && s[j] == h[k];
      HeadAt(s, j);
    }
  }

  function Swapped(h: seq<Head>, i: nat, j: nat): seq<Head>
    requires i < |h| && j < |h|
  {
    h[i := h[j]][j := h[i]]
  }

  lemma {:induction false} SwapKeepsHeads(h: seq<Head>, i: nat, j: nat)
    requires i < |h| && j < |h| && Distinct(h)
    ensures Distinct(Swapped(h, i, j))
    ensures ByAccount(Swapped(h, i, j)) == ByAccount(h)
  {
    var s := Swapped(h, i, j);
    forall k | 0 <= k < |h| ensures h[k] in s {
      assert s[if k == i then j else if k == j then i else k] == h[k];
    }
    forall k | 0 <= k < |s| ensures s[k] in h {
      assert h[if k == i then j else if k == j then i else k] == s[k];
    }
    SameHeads(h, s);
  }

  /** Dropping the last head removes exactly its account. */
  lemma {:induction false} DropLastHead(h: seq<Head>)
    requires h != [] && Distinct(h)
    ensures Distinct(h[..|h| - 1])
    ensures ByAccount(h[..|h| - 1]) == ByAccount(h) - {h[|h| - 1].from}
  {
    var last := h[|h| - 1].from;
    if last in ByAccount(h[..|h| - 1]) {
      var k := FindHead(h[..|h| - 1], last);
    }
  }

  /** Replacing the root by a newer head of the same account. */
  lemma {:induction false} ReplaceRoot(h: seq<Head>, x: Head)
    requires h != [] && Distinct(h) && x.from == h[0].from
    ensures Distinct(h[0 := x])
    ensures ByAccount(h[0 := x]) == ByAccount(h)[x.from := x]
  {
    if |h| > 1 {
      ReplaceRoot(h[..|h| - 1], x);
      assert h[0 := x][..|h| - 1] == h[..|h| - 1][0 := x];
    }
  }

  lemma {:induction false} RootIsBest(h: seq<Head>, i: nat)
    requires HeapFrom(h, 0, |h|) && i < |h|
    ensures !Less(h[i], h[0])
    decreases i
  {
    if i > 0 {
      assert Bounded(h, i, Parent(i));
      RootIsBest(h, Parent(i));
    }
  }

  // ---------------------------------------------------------------------
  // The linear-scan specification and whole drains
  // ---------------------------------------------------------------------

  predicate BeatsTx(a: LazyTx, b: LazyTx, baseFee: Option<nat>)
    requires Affordable(a, baseFee) && Affordable(b, baseFee)
  {
    var x, y := EffectiveTip(a, baseFee), EffectiveTip(b, baseFee);
    if x == y then a.time < b.time else x > y
  }

  /** Every queue is non-empty and every queued transaction covers the base fee. */
  ghost predicate WellFormed(q: Queues, baseFee: Option<nat>) {
    forall a :: a in q ==> q[a] != [] && forall i :: 0 <= i < |q[a]| ==> Affordable(q[a][i], baseFee)
  }

  /** What a linear scan over the account heads would allow next. */
  ghost predicate IsBest(q: Queues, a: Address, baseFee: Option<nat>)
    requires WellFormed(q, baseFee)
  {
    a in q && forall b :: b in q ==> !BeatsTx(q[b][0], q[a][0], baseFee)
  }

  /** In full: a best head tips at least as much as every head, and is no later than those that tip the same. */
  lemma {:induction false} BestMeans(q: Queues, a: Address, baseFee: Option<nat>)
    requires WellFormed(q, baseFee) && a in q
    ensures IsBest(q, a, baseFee) <==>
            forall b :: b in q ==>
              var x, y := EffectiveTip(q[a][0], baseFee), EffectiveTip(q[b][0], baseFee);
              x > y || (x == y && q[a][0].time <= q[b][0].time)
  {
    forall b | b in q
      ensures !BeatsTx(q[b][0], q[a][0], baseFee) <==>
              var x, y := EffectiveTip(q[a][0], baseFee), EffectiveTip(q[b][0], baseFee);
              x > y || (x == y && q[a][0].time <= q[b][0].time)
    {
    }
  }

  ghost function Advance(q: Queues, a: Address): Queues
    requires a in q && q[a] != []
  {
    if |q[a]| == 1 then q - {a} else q[a := q[a][1..]]
  }

  lemma {:induction false} AdvanceWellFormed(q: Queues, a: Address, baseFee: Option<nat>)
    requires WellFormed(q, baseFee) && a in q
    ensures WellFormed(Advance(q, a), baseFee)
  {
  }

  /** out is a complete drain of q: each element is one a linear scan allows. */
  ghost predicate IsDrain(q: Queues, baseFee: Option<nat>, out: seq<(Address, LazyTx)>)
    requires WellFormed(q, baseFee)
    decreases |out|
  {
    if out == [] then q == map[]
    else
      var (a, tx) := out[0];
      && IsBest(q, a, baseFee)
      && tx == q[a][0]
      && (AdvanceWellFormed(q, a, baseFee);
          IsDrain(Advance(q, a), baseFee, out[1..]))
  }

  /** out is the beginning of a drain of q, after which rest is still to be emitted. */
  ghost predicate IsDrainPrefix(q: Queues, baseFee: Option<nat>, out: seq<(Address, LazyTx)>, rest: Queues)
    requires WellFormed(q, baseFee)
    decreases |out|
  {
    if out == [] then q == rest
    else
      var (a, tx) := out[0];
      && IsBest(q, a, baseFee)
      && tx == q[a][0]
      && (AdvanceWellFormed(q, a, baseFee);
          IsDrainPrefix(Advance(q, a), baseFee, out[1..], rest))
  }

  lemma {:induction false} ExtendDrain(q: Queues, baseFee: Option<nat>, out: seq<(Address, LazyTx)>, rest: Queues, a: Address)
    requires WellFormed(q, baseFee) && IsDrainPrefix(q, baseFee, out, rest)
    requires WellFormed(rest, baseFee) && IsBest(rest, a, baseFee)
    ensures IsDrainPrefix(q, baseFee, out + [(a, rest[a][0])], Advance(rest, a))
    decreases |out|
  {
    var longer := out + [(a, rest[a][0])];
    if out == [] {
      AdvanceWellFormed(q, a, baseFee);
      assert longer[1..] == [];
    } else {
      AdvanceWellFormed(q, out[0].0, baseFee);
      ExtendDrain(Advance(q, out[0].0), baseFee, out[1..], rest, a);
      assert longer[1..] == out[1..] + [(a, rest[a][0])];
    }
  }

  lemma {:induction false} CompleteDrain(q: Queues, baseFee: Option<nat>, out: seq<(Address, LazyTx)>)
    requires WellFormed(q, baseFee) && IsDrainPrefix(q, baseFee, out, map[])
    ensures IsDrain(q, baseFee, out)
    decreases |out|
  {
    if out != [] {
      AdvanceWellFormed(q, out[0].0, baseFee);
      CompleteDrain(Advance(q, out[0].0), baseFee, out[1..]);
    }
  }

  /** The number of transactions still to be emitted. */
  ghost function Total(q: Queues): nat {
    if q == map[] then 0
    else
      var a :| a in q;
      |q[a]| + Total(q - {a})
  }

  lemma {:induction false} TotalSplit(q: Queues, a: Address)
    requires a in q
    ensures Total(q) == |q[a]| + Total(q - {a})
    decreases |q|
  {
    var b :| b in q && Total(q) == |q[b]| + Total(q - {b});
    if b != a {
      TotalSplit(q - {b}, a);
      TotalSplit(q - {a}, b);
      assert q - {a} - {b} == q - {b} - {a};
    }
  }

  lemma {:induction false} AdvanceTotal(q: Queues, a: Address)
    requires a in q && q[a] != []
    ensures Total(Advance(q, a)) == Total(q) - 1
  {
    TotalSplit(q, a);
    if |q[a]| > 1 {
      var r := Advance(q, a);
      TotalSplit(r, a);
      assert r - {a} == q - {a};
    }
  }

  lemma {:induction false} DrainCount(q: Queues, baseFee: Option<nat>, out: seq<(Address, LazyTx)>)
    requires WellFormed(q, baseFee) && IsDrain(q, baseFee, out)
    ensures |out| == Total(q)
    decreases |out|
  {
    if out != [] {
      AdvanceWellFormed(q, out[0].0, baseFee);
      AdvanceTotal(q, out[0].0);
      DrainCount(Advance(q, out[0].0), baseFee, out[1..]);
    }
  }

  function OfAccount(out: seq<(Address, LazyTx)>, a: Address): seq<LazyTx> {
    if out == [] then []
    else (if out[0].0 == a then [out[0].1] else []) + OfAccount(out[1..], a)
  }

  ghost function QueueOf(q: Queues, a: Address): seq<LazyTx> {
    if a in q then q[a] else []
  }

  /** A drain emits every queue completely, in order, each element once. */
  lemma {:induction false} DrainEmitsQueues(q: Queues, baseFee: Option<nat>, out: seq<(Address, LazyTx)>, a: Address)
    requires WellFormed(q, baseFee) && IsDrain(q, baseFee, out)
    ensures OfAccount(out, a) == QueueOf(q, a)
    decreases |out|
  {
    if out != [] {
      var b := out[0].0;
      AdvanceWellFormed(q, b, baseFee);
      DrainEmitsQueues(Advance(q, b), baseFee, out[1..], a);
      if a == b {
        assert q[a] == [q[a][0]] + QueueOf(Advance(q, b), a);
      }
    }
  }

  ghost predicate TipsNeverRise(txs: seq<LazyTx>, baseFee: Option<nat>) {
    forall i, j :: 0 <= i < j < |txs| && Affordable(txs[i], baseFee) && Affordable(txs[j], baseFee)
      ==> EffectiveTip(txs[i], baseFee) >= EffectiveTip(txs[j], baseFee)
  }

  function Txs(out: seq<(Address, LazyTx)>): seq<LazyTx> {
    seq(|out|, i requires 0 <= i < |out| => out[i].1)
  }

  /** Everything a drain emits is affordable and, when queues never rise, no better than the best head. */
  lemma {:induction false} DrainBounded(q: Queues, baseFee: Option<nat>, out: seq<(Address, LazyTx)>, bound: nat)
    requires WellFormed(q, baseFee) && IsDrain(q, baseFee, out)
    requires forall a :: a in q ==> TipsNeverRise(q[a], baseFee)
    requires forall a :: a in q ==> EffectiveTip(q[a][0], baseFee) <= bound
    ensures forall i :: 0 <= i < |out| ==> Affordable(out[i].1, baseFee) && EffectiveTip(out[i].1, baseFee) <= bound
    ensures TipsNeverRise(Txs(out), baseFee)
    decreases |out|
  {
    if out != [] {
      var (b, tx) := out[0];
      AdvanceWellFormed(q, b, baseFee);
      var r := Advance(q, b);
      var best := EffectiveTip(q[b][0], baseFee);
      forall a | a in r ensures TipsNeverRise(r[a], baseFee) && EffectiveTip(r[a][0], baseFee) <= best {
        if a == b {
          assert r[a][0] == q[a][1];
        }
      }
      DrainBounded(r, baseFee, out[1..], best);
      forall i | 0 <= i < |out|
        ensures Affordable(out[i].1, baseFee) && EffectiveTip(out[i].1, baseFee) <= best
      {
        if i > 0 { assert out[i] == out[1..][i - 1]; }
      }
      var all, rest := Txs(out), Txs(out[1..]);
      forall i, j | 0 <= i < j < |all| && Affordable(all[i], baseFee) && Affordable(all[j], baseFee)
        ensures EffectiveTip(all[i], baseFee) >= EffectiveTip(all[j], baseFee)
      {
        assert all[j] == rest[j - 1];
        if i > 0 { assert all[i] == rest[i - 1]; }
      }
    }
  }

  /** The subsequence an account contributes, as increasing positions of the output. */
  lemma {:induction false} AccountPositions(out: seq<(Address, LazyTx)>, a: Address, i: nat, j: nat)
    returns (x: nat, y: nat)
    requires i < j < |OfAccount(out, a)|
    ensures x < y < |out| && out[x].1 == OfAccount(out, a)[i] && out[y].1 == OfAccount(out, a)[j]
  {
    if out[0].0 != a {
      assert OfAccount(out, a) == OfAccount(out[1..], a);
      x, y := AccountPositions(out[1..], a, i, j);
      x, y := x + 1, y + 1;
    } else if i > 0 {
      x, y := AccountPositions(out[1..], a, i - 1, j - 1);
      x, y := x + 1, y + 1;
    } else {
      x := 0;
      y := AccountPosition(out[1..], a, j - 1);
      y := y + 1;
    }
  }

  lemma {:induction false} AccountPosition(out: seq<(Address, LazyTx)>, a: Address, j: nat) returns (y: nat)
    requires j < |OfAccount(out, a)|
    ensures y < |out| && out[y].1 == OfAccount(out, a)[j]
  {
    if out[0].0 == a && j == 0 {
      y := 0;
    } else if out[0].0 == a {
      y := AccountPosition(out[1..], a, j - 1);
      y := y + 1;
    } else {
      assert OfAccount(out, a) == OfAccount(out[1..], a);
      y := AccountPosition(out[1..], a, j);
      y := y + 1;
    }
  }

  lemma {:induction false} RisingQueueShows(q: Queues, baseFee: Option<nat>, out: seq<(Address, LazyTx)>, a: Address)
    requires WellFormed(q, baseFee) && IsDrain(q, baseFee, out)
    requires a in q && !TipsNeverRise(q[a], baseFee)
    ensures !TipsNeverRise(Txs(out), baseFee)
  {
    DrainEmitsQueues(q, baseFee, out, a);
    var i, j :| 0 <= i < j < |q[a]| && Affordable(q[a][i], baseFee) && Affordable(q[a][j], baseFee)
      && EffectiveTip(q[a][i], baseFee) < EffectiveTip(q[a][j], baseFee);
    var x, y := AccountPositions(out, a, i, j);
    assert Txs(out)[x] == q[a][i] && Txs(out)[y] == q[a][j];
  }

  lemma {:induction false} FallingQueuesDrainSorted(q: Queues, baseFee: Option<nat>, out: seq<(Address, LazyTx)>)
    requires WellFormed(q, baseFee) && IsDrain(q, baseFee, out)
    requires forall a :: a in q ==> TipsNeverRise(q[a], baseFee)
    ensures TipsNeverRise(Txs(out), baseFee)
  {
    if out != [] {
      var bound := EffectiveTip(out[0].1, baseFee);
      forall a | a in q ensures EffectiveTip(q[a][0], baseFee) <= bound {
        assert !BeatsTx(q[a][0], q[out[0].0][0], baseFee);
      }
      DrainBounded(q, baseFee, out, bound);
    }
  }

  /** The whole output is non-increasing in tip exactly when no account's queue ever rises. */
  lemma {:induction false} DrainSortedIff(q: Queues, baseFee: Option<nat>, out: seq<(Address, LazyTx)>)
    requires WellFormed(q, baseFee) && IsDrain(q, baseFee, out)
    ensures TipsNeverRise(Txs(out), baseFee) <==> forall a :: a in q ==> TipsNeverRise(q[a], baseFee)
  {
    forall a | a in q && !TipsNeverRise(q[a], baseFee) ensures !TipsNeverRise(Txs(out), baseFee) {
      RisingQueueShows(q, baseFee, out, a);
    }
    if forall a :: a in q ==> TipsNeverRise(q[a], baseFee) {
      FallingQueuesDrainSorted(q, baseFee, out);
    }
  }

  /** The queues a transaction set starts with: the affordable prefix of each account's list. */
  ghost function InitialQueues(txs: map<Address, seq<LazyTx>>, baseFee: Option<nat>): Queues {
    map a | a in txs && AffordablePrefix(txs[a], baseFee) != [] :: AffordablePrefix(txs[a], baseFee)
  }

  lemma {:induction false} InitialQueuesWellFormed(txs: map<Address, seq<LazyTx>>, baseFee: Option<nat>)
    ensures WellFormed(InitialQueues(txs, baseFee), baseFee)
  {
    forall a | a in txs ensures forall i :: 0 <= i < |AffordablePrefix(txs[a], baseFee)| ==>
      Affordable(AffordablePrefix(txs[a], baseFee)[i], baseFee)
    {
      AffordablePrefixIsLongest(txs[a], baseFee);
    }
  }

  /**
    The drain theorem: whatever ties the heap breaks, the output holds, for each account and
    in list order, exactly the longest prefix whose fee caps cover the base fee.
  */
  lemma {:induction false} DrainTheorem(lists: map<Address, seq<LazyTx>>, baseFee: Option<nat>, out: seq<(Address, LazyTx)>, a: Address)
    requires (InitialQueuesWellFormed(lists, baseFee); IsDrain(InitialQueues(lists, baseFee), baseFee, out))
    ensures |out| == Total(InitialQueues(lists, baseFee))
    ensures a !in lists ==> OfAccount(out, a) == []
    ensures a in lists ==>
      var emitted := OfAccount(out, a);
      && emitted <= lists[a]
      && (forall i :: 0 <= i < |emitted| ==> Affordable(lists[a][i], baseFee))
      && (|emitted| < |lists[a]| ==> !Affordable(lists[a][|emitted|], baseFee))
  {
    InitialQueuesWellFormed(lists, baseFee);
    DrainCount(InitialQueues(lists, baseFee), baseFee, out);
    DrainEmitsQueues(InitialQueues(lists, baseFee), baseFee, out, a);
    if a in lists {
      AffordablePrefixIsLongest(lists[a], baseFee);
    }
  }

  // ---------------------------------------------------------------------
  // From heaps to queues
  // ---------------------------------------------------------------------

  /** Every head covers the base fee and carries its effective tip. */
  ghost predicate Priced(h: seq<Head>, baseFee: Option<nat>) {
    forall i :: 0 <= i < |h| ==>
      Affordable(h[i].tx, baseFee) && h[i].fees == EffectiveTip(h[i].tx, baseFee)
  }

  lemma {:induction false} SameHeadsPriced(h: seq<Head>, s: seq<Head>, baseFee: Option<nat>)
    requires Distinct(h) && Distinct(s) && ByAccount(h) == ByAccount(s) && Priced(h, baseFee)
    ensures Priced(s, baseFee)
  {
    forall i | 0 <= i < |s|
      ensures Affordable(s[i].tx, baseFee) && s[i].fees == EffectiveTip(s[i].tx, baseFee)
    {
      HeadAt(s, i);
      var k := FindHead(h, s[i].from);
    }
  }

  ghost function RestOf(txs: map<Address, seq<LazyTx>>, a: Address, baseFee: Option<nat>): seq<LazyTx> {
    if a in txs then AffordablePrefix(txs[a], baseFee) else []
  }

  /** What a set of heads over the given lists still has to emit. */
  ghost function QueuesOf(m: map<Address, Head>, txs: map<Address, seq<LazyTx>>, baseFee: Option<nat>): Queues {
    map a | a in m :: [m[a].tx] + RestOf(txs, a, baseFee)
  }

  lemma {:induction false} QueuesWellFormed(h: seq<Head>, txs: map<Address, seq<LazyTx>>, baseFee: Option<nat>)
    requires Distinct(h) && Priced(h, baseFee)
    ensures WellFormed(QueuesOf(ByAccount(h), txs, baseFee), baseFee)
  {
    var m := ByAccount(h);
    var q := QueuesOf(m, txs, baseFee);
    forall a | a in q ensures q[a] != [] && forall i :: 0 <= i < |q[a]| ==> Affordable(q[a][i], baseFee) {
      var rest := RestOf(txs, a, baseFee);
      if a in txs { AffordablePrefixIsLongest(txs[a], baseFee); }
      var k := FindHead(h, a);
      forall i | 0 <= i < |q[a]| ensures Affordable(q[a][i], baseFee) {
        if i > 0 { assert q[a][i] == rest[i - 1]; }
      }
    }
  }

  lemma {:induction false} RootBestInQueues(h: seq<Head>, txs: map<Address, seq<LazyTx>>, baseFee: Option<nat>)
    requires h != [] && Distinct(h) && Priced(h, baseFee) && HeapFrom(h, 0, |h|)
    requires WellFormed(QueuesOf(ByAccount(h), txs, baseFee), baseFee)
    ensures var q := QueuesOf(ByAccount(h), txs, baseFee);
            IsBest(q, h[0].from, baseFee) && q[h[0].from][0] == h[0].tx
  {
    var m := ByAccount(h);
    var q := QueuesOf(m, txs, baseFee);
    HeadAt(h, 0);
    forall b | b in q ensures !BeatsTx(q[b][0], q[h[0].from][0], baseFee) {
      var k := FindHead(h, b);
      RootIsBest(h, k);
    }
  }

  /** The child of i that the sift-down compares with. */
  function BetterChild(h: seq<Head>, i: nat, n: nat): nat
    requires 2 * i + 1 < n <= |h|
  {
    if 2 * i + 2 < n && Less(h[2 * i + 2], h[2 * i + 1]) then 2 * i + 2 else 2 * i + 1
  }

  lemma {:induction false} ChildrenOf(i: nat, k: nat)
    requires 1 <= k
    ensures Parent(k) == i <==> k == 2 * i + 1 || k == 2 * i + 2
  {
  }

  /** Swapping node i with its better child moves the hole one level down. */
  lemma {:induction false} SiftStep(h: seq<Head>, lo: nat, i: nat, n: nat)
    requires lo <= i && 2 * i + 1 < n <= |h| && HeapExcept(h, lo, i, n)
    requires Less(h[BetterChild(h, i, n)], h[i])
    ensures HeapExcept(Swapped(h, i, BetterChild(h, i, n)), lo, BetterChild(h, i, n), n)
  {
    var j := BetterChild(h, i, n);
    forall k: nat | 1 <= k < n && Parent(k) == i ensures Bounded(h, k, j) {
      ChildrenOf(i, k);
    }
    SwapMovesHole(h, lo, i, j, n);
  }

  lemma {:induction false} SwapMovesHole(h: seq<Head>, lo: nat, i: nat, j: nat, n: nat)
    requires lo <= i < j < n <= |h| && Parent(j) == i
    requires HeapExcept(h, lo, i, n) && Less(h[j], h[i])
    requires forall k: nat :: 1 <= k < n && Parent(k) == i ==> Bounded(h, k, j)
    ensures HeapExcept(Swapped(h, i, j), lo, j, n)
  {
    var s := Swapped(h, i, j);
    forall k | 1 <= k < n && lo <= Parent(k) && Parent(k) != j ensures Bounded(s, k, Parent(k)) {
      assert Parent(k) != i ==> Bounded(h, k, Parent(k));
      if Parent(k) == i {
        assert k != j ==> Bounded(h, k, j);
      } else if k == i {
        assert Bounded(h, j, Parent(i));
      }
    }
    forall k | 1 <= k < n && Parent(k) == j ensures Bounded(s, k, Parent(j)) {
      assert Bounded(h, k, Parent(k));
    }
  }

  /** Once no child beats node i, the hole is closed. */
  lemma {:induction false} SiftDone(h: seq<Head>, lo: nat, i: nat, n: nat)
    requires n <= |h| && HeapExcept(h, lo, i, n)
    requires 2 * i + 1 < n ==> !Less(h[BetterChild(h, i, n)], h[i])
    ensures HeapFrom(h, lo, n)
  {
  }

  /** h was obtained from h0 by moving heads around within positions lo..n. */
  ghost predicate Rearranged(h0: seq<Head>, h: seq<Head>, lo: nat, n: nat) {
    && |h| == |h0|
    && Distinct(h0) && Distinct(h) && ByAccount(h) == ByAccount(h0)
    && (forall k :: 0 <= k < |h| && (k < lo || n <= k) ==> h[k] == h0[k])
  }

  lemma {:induction false} RearrangeStep(h0: seq<Head>, h: seq<Head>, lo: nat, n: nat, i: nat, j: nat)
    requires Rearranged(h0, h, lo, n) && lo <= i < n <= |h| && lo <= j < n
    ensures Rearranged(h0, Swapped(h, i, j), lo, n)
  {
    SwapKeepsHeads(h, i, j);
  }

  /** Lowering lo by one leaves node lo as the only possible hole. */
  lemma {:induction false} HeapWithNextRoot(h: seq<Head>, lo: nat, n: nat)
    requires n <= |h| && HeapFrom(h, lo + 1, n)
    ensures HeapExcept(h, lo, lo, n)
  {
  }

  /** Above the last parent there is nothing to order. */
  lemma {:induction false} LeavesAreHeap(h: seq<Head>)
    ensures HeapFrom(h, |h| / 2, |h|)
  {
  }

  /** Overwriting the root leaves it as the only possible hole. */
  lemma {:induction false} HeapWithNewRoot(h: seq<Head>, x: Head, n: nat)
    requires h != [] && n <= |h| && HeapFrom(h, 0, |h|)
    ensures HeapExcept(h[0 := x], 0, 0, n)
  {
    var s := h[0 := x];
    forall j | 1 <= j < n && Parent(j) != 0 ensures Bounded(s, j, Parent(j)) {
      assert Bounded(h, j, Parent(j));
    }
  }

  lemma {:induction false} SwapRootWithLast(h: seq<Head>)
    requires h != [] && HeapFrom(h, 0, |h|)
    ensures HeapExcept(Swapped(h, 0, |h| - 1), 0, 0, |h| - 1)
  {
    var s := Swapped(h, 0, |h| - 1);
    forall j | 1 <= j < |h| - 1 && Parent(j) != 0 ensures Bounded(s, j, Parent(j)) {
      assert Bounded(h, j, Parent(j));
    }
  }

  lemma {:induction false} HeapOfPrefix(h: seq<Head>, n: nat)
    requires n <= |h| && HeapFrom(h, 0, n)
    ensures HeapFrom(h[..n], 0, n)
  {
    forall j | 1 <= j < n ensures Bounded(h[..n], j, Parent(j)) {
      assert Bounded(h, j, Parent(j));
    }
  }

  // ---------------------------------------------------------------------
  // Building the heads
  // ---------------------------------------------------------------------

  /** State of the constructor's loop: the accounts outside todo have been looked at. */
  ghost predicate Collected(lists: map<Address, seq<LazyTx>>, todo: set<Address>, hs: seq<Head>,
                            rest: map<Address, seq<LazyTx>>, baseFee: Option<nat>)
    requires forall a :: a in lists ==> lists[a] != []
  {
    && todo <= lists.Keys && Distinct(hs) && Priced(hs, baseFee)
    && (forall i :: 0 <= i < |hs| ==> hs[i].from in lists && hs[i].from !in todo && hs[i].tx == lists[hs[i].from][0])
    && (forall a :: a in lists && a !in todo && Affordable(lists[a][0], baseFee) ==>
          a in ByAccount(hs) && a in rest && rest[a] == lists[a][1..])
    && (forall a :: a in todo ==> a in rest && rest[a] == lists[a])
  }

  lemma {:induction false} CollectAffordable(lists: map<Address, seq<LazyTx>>, todo: set<Address>, hs: seq<Head>,
                          rest: map<Address, seq<LazyTx>>, baseFee: Option<nat>, a: Address)
    requires forall a :: a in lists ==> lists[a] != []
    requires Collected(lists, todo, hs, rest, baseFee) && a in todo && Affordable(lists[a][0], baseFee)
    ensures Collected(lists, todo - {a}, hs + [Head(lists[a][0], a, EffectiveTip(lists[a][0], baseFee))],
                      rest[a := lists[a][1..]], baseFee)
  {
  }

  lemma {:induction false} CollectUnaffordable(lists: map<Address, seq<LazyTx>>, todo: set<Address>, hs: seq<Head>,
                            rest: map<Address, seq<LazyTx>>, baseFee: Option<nat>, a: Address)
    requires forall a :: a in lists ==> lists[a] != []
    requires Collected(lists, todo, hs, rest, baseFee) && a in todo && !Affordable(lists[a][0], baseFee)
    ensures Collected(lists, todo - {a}, hs, rest - {a}, baseFee)
  {
  }

  lemma {:induction false} CollectedQueues(lists: map<Address, seq<LazyTx>>, hs: seq<Head>,
                        rest: map<Address, seq<LazyTx>>, baseFee: Option<nat>)
    requires forall a :: a in lists ==> lists[a] != []
    requires Collected(lists, {}, hs, rest, baseFee)
    ensures QueuesOf(ByAccount(hs), rest, baseFee) == InitialQueues(lists, baseFee)
  {
    var m := ByAccount(hs);
    var q, q' := QueuesOf(m, rest, baseFee), InitialQueues(lists, baseFee);
    forall a | a in m ensures a in q' && q[a] == q'[a] {
      CollectedQueue(lists, hs, rest, baseFee, a);
    }
    forall a | a in q' ensures a in m {
      assert Affordable(lists[a][0], baseFee);
    }
  }

  lemma {:induction false} CollectedQueue(lists: map<Address, seq<LazyTx>>, hs: seq<Head>,
                                          rest: map<Address, seq<LazyTx>>, baseFee: Option<nat>, a: Address)
    requires forall a :: a in lists ==> lists[a] != []
    requires Collected(lists, {}, hs, rest, baseFee) && a in ByAccount(hs)
    ensures a in lists && AffordablePrefix(lists[a], baseFee) != []
    ensures [ByAccount(hs)[a].tx] + RestOf(rest, a, baseFee) == AffordablePrefix(lists[a], baseFee)
  {
    var k := FindHead(hs, a);
    assert Affordable(lists[a][0], baseFee);
    assert rest[a] == lists[a][1..];
  }

  /**
    The constructor's loop. Accounts are visited in any order, as Go's map iteration
    does; an account with an empty list makes the Go code panic.
  */
  method CollectHeads(lists: map<Address, seq<LazyTx>>, baseFee: Option<nat>)
    returns (hs: seq<Head>, rest: map<Address, seq<LazyTx>>)
    requires forall a :: a in lists ==> lists[a] != []
    ensures Distinct(hs) && Priced(hs, baseFee)
    ensures QueuesOf(ByAccount(hs), rest, baseFee) == InitialQueues(lists, baseFee)
  {
    hs, rest := [], lists;
    var todo := lists.Keys;
    while todo != {}
      invariant Collected(lists, todo, hs, rest, baseFee)
      decreases todo
    {
      var from :| from in todo;
      var wrapped := NewTxWithMinerFee(lists[from][0], from, baseFee);
      if wrapped.None? {
        CollectUnaffordable(lists, todo, hs, rest, baseFee, from);
        rest := rest - {from};
      } else {
        CollectAffordable(lists, todo, hs, rest, baseFee, from);
        hs, rest := hs + [wrapped.value], rest[from := lists[from][1..]];
      }
      todo := todo - {from};
    }
    CollectedQueues(lists, hs, rest, baseFee);
  }

  // ---------------------------------------------------------------------
  // Shifting
  // ---------------------------------------------------------------------

  /** Replacing an account's head by its next affordable transaction advances its queue. */
  lemma {:induction false} ShiftAdvances(m: map<Address, Head>, txs: map<Address, seq<LazyTx>>, a: Address, x: Head, baseFee: Option<nat>)
    requires a in m && a in txs && txs[a] != [] && Affordable(txs[a][0], baseFee) && x.tx == txs[a][0]
    ensures var q := QueuesOf(m, txs, baseFee);
            a in q && QueuesOf(m[a := x], txs[a := txs[a][1..]], baseFee) == Advance(q, a)
  {
  }

  /** Dropping an account whose next transaction is missing or unaffordable advances its queue. */
  lemma {:induction false} DropAdvances(m: map<Address, Head>, txs: map<Address, seq<LazyTx>>, a: Address, baseFee: Option<nat>)
    requires a in m && RestOf(txs, a, baseFee) == []
    ensures var q := QueuesOf(m, txs, baseFee);
            a in q && QueuesOf(m - {a}, txs, baseFee) == Advance(q, a)
  {
  }

  // ---------------------------------------------------------------------
  // The transaction set
  // ---------------------------------------------------------------------

  class TransactionsByPriceAndNonce {
    var txs: map<Address, seq<LazyTx>>
    var heads: seq<Head>
    const baseFee: Option<nat>

    /** Heap order, one head per account, and every head carries its effective tip. */
    ghost predicate Valid()
      reads this
    {
      HeapFrom(heads, 0, |heads|) && Distinct(heads) && Priced(heads, baseFee)
    }

    /** Everything still to be emitted, by account. */
    ghost function Remaining(): (q: Queues)
      requires Valid()
      reads this
      ensures WellFormed(q, baseFee)
    {
      QueuesWellFormed(heads, txs, baseFee);
      QueuesOf(ByAccount(heads), txs, baseFee)
    }

    /** heap.down(i0, n): sift the node at i0 towards the leaves of the first n heads. */
    method Down(i0: nat, n: nat) returns (moved: bool)
      requires n <= |heads| && Distinct(heads) && HeapExcept(heads, i0, i0, n)
      modifies this`heads
      ensures Rearranged(old(heads), heads, i0, n) && HeapFrom(heads, i0, n)
      ensures !moved ==> heads == old(heads)
    {
      var i := i0;
      while true
        invariant i0 <= i && Rearranged(old(heads), heads, i0, n)
        invariant HeapExcept(heads, i0, i, n)
        invariant i == i0 ==> heads == old(heads)
        decreases n - i
      {
        var j1 := 2 * i + 1;
        if j1 >= n {
          SiftDone(heads, i0, i, n);
          break;
        }
        var j := j1;
        if j1 + 1 < n && Less(heads[j1 + 1], heads[j1]) {
          j := j1 + 1;
        }
        if !Less(heads[j], heads[i]) {
          SiftDone(heads, i0, i, n);
          break;
        }
        SiftStep(heads, i0, i, n);
        RearrangeStep(old(heads), heads, i0, n, i, j);
        heads := Swapped(heads, i, j);
        i := j;
      }
      moved := i > i0;
    }

    /** heap.Init: sift every inner node, last parent first. */
    method Init()
      requires Distinct(heads)
      modifies this`heads
      ensures Rearranged(old(heads), heads, 0, |heads|) && HeapFrom(heads, 0, |heads|)
    {
      var i := |heads| / 2;
      LeavesAreHeap(heads);
      while i > 0
        invariant 0 <= i <= |heads| && Rearranged(old(heads), heads, 0, |heads|)
        invariant HeapFrom(heads, i, |heads|)
      {
        i := i - 1;
        HeapWithNextRoot(heads, i, |heads|);
        var _ := Down(i, |heads|);
      }
    }

    /** heap.Pop: move the last head to the root, sift it down, drop the old root. */
    method PopHead()
      requires Valid() && heads != []
      modifies this`heads
      ensures Valid() && |heads| == old(|heads|) - 1
      ensures ByAccount(heads) == old(ByAccount(heads)) - {old(heads[0].from)}
    {
      ghost var before := heads;
      var n := |heads| - 1;
      SwapKeepsHeads(heads, 0, n);
      SwapRootWithLast(heads);
      heads := Swapped(heads, 0, n);
      var _ := Down(0, n);
      HeapOfPrefix(heads, n);
      DropLastHead(heads);
      SameHeadsPriced(before, heads, baseFee);
      heads := heads[..n];
    }

    /** NewTransactionsByPriceAndNonce. */
    constructor (lists: map<Address, seq<LazyTx>>, baseFee: Option<nat>)
      requires forall a :: a in lists ==> lists[a] != []
      ensures Valid() && this.baseFee == baseFee
      ensures Remaining() == InitialQueues(lists, baseFee)
    {
      this.baseFee := baseFee;
      var hs, rest := CollectHeads(lists, baseFee);
      txs, heads := rest, hs;
      new;
      Init();
      SameHeadsPriced(hs, heads, baseFee);
    }

    /** Peek returns nothing exactly when all is emitted, and otherwise a head no linear scan would pass over. */
    method Peek() returns (r: Option<(LazyTx, nat)>)
      requires Valid()
      ensures r.None? <==> heads == []
      ensures r.None? <==> Remaining() == map[]
      ensures r.Some? ==>
        && IsBest(Remaining(), heads[0].from, baseFee)
        && r.value.0 == Remaining()[heads[0].from][0]
        && Affordable(r.value.0, baseFee) && r.value.1 == EffectiveTip(r.value.0, baseFee)
    {
      if |heads| == 0 {
        return None;
      }
      QueuesWellFormed(heads, txs, baseFee);
      RootBestInQueues(heads, txs, baseFee);
      return Some((heads[0].tx, heads[0].fees));
    }

    /** Shift emits the best head: its account's queue advances by one, nothing else changes. */
    method Shift()
      requires Valid() && heads != []
      modifies this
      ensures Valid()
      ensures old(heads[0].from) in old(Remaining())
      ensures Remaining() == Advance(old(Remaining()), old(heads[0].from))
    {
      var acc := heads[0].from;
      ghost var m := ByAccount(heads);
      HeadAt(heads, 0);
      if acc in txs && |txs[acc]| > 0 {
        var wrapped := NewTxWithMinerFee(txs[acc][0], acc, baseFee);
        if wrapped.Some? {
          ShiftAdvances(m, txs, acc, wrapped.value, baseFee);
          ReplaceRoot(heads, wrapped.value);
          HeapWithNewRoot(heads, wrapped.value, |heads|);
          heads, txs := heads[0 := wrapped.value], txs[acc := txs[acc][1..]];
          // heap.Fix(0): when the root does not move down there is nowhere to move it up.
          ghost var fixed := heads;
          var _ := Down(0, |heads|);
          SameHeadsPriced(fixed, heads, baseFee);
          return;
        }
      }
      DropAdvances(m, txs, acc, baseFee);
      PopHead();
    }

    /** Pop discards the best head together with the rest of its account. */
    method Pop()
      requires Valid() && heads != []
      modifies this`heads
      ensures Valid()
      ensures Remaining() == old(Remaining()) - {old(heads[0].from)}
    {
      PopHead();
    }
  }

  /** Repeating Peek and Shift until the set is empty. */
  method Drain(t: TransactionsByPriceAndNonce) returns (out: seq<(Address, LazyTx)>)
    requires t.Valid()
    modifies t
    ensures t.Valid() && t.heads == []
    ensures IsDrain(old(t.Remaining()), t.baseFee, out)
  {
    out := [];
    ghost var q0 := t.Remaining();
    while |t.heads| > 0
      invariant t.Valid()
      invariant IsDrainPrefix(q0, t.baseFee, out, t.Remaining())
      decreases Total(t.Remaining())
    {
      var r := t.Peek();
      var from := t.heads[0].from;
      AdvanceTotal(t.Remaining(), from);
      ExtendDrain(q0, t.baseFee, out, t.Remaining(), from);
      t.Shift();
      out := out + [(from, r.value.0)];
    }
    assert t.Remaining() == map[];
    CompleteDrain(q0, t.baseFee, out);
  }

  /** Building a transaction set from account lists and draining it. */
  method DrainLists(lists: map<Address, seq<LazyTx>>, baseFee: Option<nat>) returns (out: seq<(Address, LazyTx)>)
    requires forall a :: a in lists ==> lists[a] != []
    ensures (InitialQueuesWellFormed(lists, baseFee); IsDrain(InitialQueues(lists, baseFee), baseFee, out))
    ensures forall a :: OfAccount(out, a) == if a in lists then AffordablePrefix(lists[a], baseFee) else []
  {
    var t := new TransactionsByPriceAndNonce(lists, baseFee);
    out := Drain(t);
    forall a ensures OfAccount(out, a) == if a in lists then AffordablePrefix(lists[a], baseFee) else [] {
      InitialQueuesWellFormed(lists, baseFee);
      DrainEmitsQueues(InitialQueues(lists, baseFee), baseFee, out, a);
    }
  }
}
