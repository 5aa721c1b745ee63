/**
  The unified mempool iterator (mempool/iterator.go): merges the EVM
  price-and-nonce order with the Cosmos stream by effective tip.

  The base fee read from the chain and the outcome of converting an EVM
  transaction to an SDK one are parameters, fixed over a run.
*/
module MempoolIterator {
  import opened Wrappers
  import opened Coins
  import opened TxOrdering

  /** Coins of a valid fee. */
  type FeeCoin = c: Coin | c.amount >= 0 witness Coin("", 0)

  /** What the fee interface exposes: the fee coins and the gas limit. */
  datatype Offer = Offer(coins: seq<FeeCoin>, gas: nat)

  datatype CosmosTx = CosmosTx(id: nat, fee: Option<Offer>)

  datatype Env = Env(bondDenom: string, baseFee: Option<nat>, evmBaseFee: Option<nat>)

  /** The element a step of the iterator consumes. */
  datatype Item = Evm(from: Address, tx: LazyTx) | Cosmos(ctx: CosmosTx)

  /** The SDK transaction Tx returns. */
  datatype SdkTx = FromEvm(tx: LazyTx) | FromCosmos(ctx: CosmosTx)

  const UINT256_LIMIT: nat := 0x1_0000_0000_0000_0000_0000_0000_0000_0000_0000_0000_0000_0000_0000_0000_0000_0000

  // ---------------------------------------------------------------------
  // Effective tip of a Cosmos transaction
  // ---------------------------------------------------------------------

  /** The amount of the last coin in the given denomination. */
  function LastAmount(coins: seq<FeeCoin>, denom: string): nat {
    if coins == [] then 0
    else if coins[|coins| - 1].denom == denom then coins[|coins| - 1].amount
    else LastAmount(coins[..|coins| - 1], denom)
  }

  /** A gas limit of zero makes the Go code panic on division. */
  predicate GasPositive(tx: CosmosTx) {
    tx.fee.Some? ==> tx.fee.value.gas > 0
  }

  function GasPrice(fee: Offer, denom: string): nat
    requires fee.gas > 0
  {
    LastAmount(fee.coins, denom) / fee.gas
  }

  /** What a Cosmos transaction pays per gas above the base fee; zero when it names no valid fee. */
  function CosmosFee(tx: CosmosTx, env: Env): nat
    requires GasPositive(tx)
  {
    if tx.fee.None? then 0
    else
      var price := GasPrice(tx.fee.value, env.bondDenom);
      if price >= UINT256_LIMIT then 0
      else if env.baseFee.None? then price
      else if price < env.baseFee.value then 0
      else price - env.baseFee.value
  }

  /** The amount counts: it is that of the last coin in the denomination, or zero without one. */
  ghost predicate Counts(coins: seq<FeeCoin>, denom: string, amount: nat) {
    || (amount == 0 && forall i :: 0 <= i < |coins| ==> coins[i].denom != denom)
    || exists k :: 0 <= k < |coins| && coins[k].denom == denom && coins[k].amount == amount &&
                   forall i :: k < i < |coins| ==> coins[i].denom != denom
  }

  lemma {:induction false} LastAmountCounts(coins: seq<FeeCoin>, denom: string, amount: nat)
    ensures Counts(coins, denom, amount) <==> amount == LastAmount(coins, denom)
    decreases |coins|
  {
    if coins != [] && coins[|coins| - 1].denom != denom {
      var front := coins[..|coins| - 1];
      LastAmountCounts(front, denom, amount);
      assert forall i :: 0 <= i < |front| ==> front[i] == coins[i];
      if Counts(front, denom, amount) && exists k :: 0 <= k < |front| && front[k].denom == denom {
        var k :| 0 <= k < |front| && front[k].denom == denom && front[k].amount == amount &&
                 forall i :: k < i < |front| ==> front[i].denom != denom;
        assert coins[k].denom == denom;
      }
      if Counts(coins, denom, amount) && exists k :: 0 <= k < |coins| && coins[k].denom == denom {
        var k :| 0 <= k < |coins| && coins[k].denom == denom && coins[k].amount == amount &&
                 forall i :: k < i < |coins| ==> coins[i].denom != denom;
        assert front[k].denom == denom;
      }
    }
  }

  /** The fee a transaction competes with: what it pays per gas beyond the base fee, or zero. */
  lemma {:induction false} CosmosFeeMeans(tx: CosmosTx, env: Env, amount: nat)
    requires GasPositive(tx) && tx.fee.Some? && Counts(tx.fee.value.coins, env.bondDenom, amount)
    ensures var price, base := amount / tx.fee.value.gas, if env.baseFee.Some? then env.baseFee.value else 0;
            CosmosFee(tx, env) == if price >= UINT256_LIMIT || price <= base then 0 else price - base
  {
    LastAmountCounts(tx.fee.value.coins, env.bondDenom, amount);
  }

  /** extractCosmosEffectiveTip. */
  method ExtractCosmosEffectiveTip(tx: CosmosTx, env: Env) returns (tip: Option<nat>)
    requires GasPositive(tx)
    ensures tx.fee.None? ==> tip.None?
    ensures tx.fee.Some? ==> forall amount: nat :: Counts(tx.fee.value.coins, env.bondDenom, amount) ==>
      var price, base := amount / tx.fee.value.gas, if env.baseFee.Some? then env.baseFee.value else 0;
      tip == if price >= UINT256_LIMIT then None else Some(if price <= base then 0 else price - base)
    ensures tip.None? <==> tx.fee.None? || GasPrice(tx.fee.value, env.bondDenom) >= UINT256_LIMIT
    ensures (if tip.Some? then tip.value else 0) == CosmosFee(tx, env)
  {
    if tx.fee.None? {
      return None;
    }
    var coins := tx.fee.value.coins;
    var amount := 0;
    for i := 0 to |coins|
      invariant amount == LastAmount(coins[..i], env.bondDenom)
    {
      assert coins[..i + 1][..i] == coins[..i];
      if coins[i].denom == env.bondDenom {
        amount := coins[i].amount;
      }
    }
    assert coins[..|coins|] == coins;
    forall a | Counts(coins, env.bondDenom, a) ensures a == amount {
      LastAmountCounts(coins, env.bondDenom, a);
    }
    var gasPrice := amount / tx.fee.value.gas;
    if gasPrice >= UINT256_LIMIT {
      return None;
    }
    if env.baseFee.None? {
      return Some(gasPrice);
    }
    if gasPrice < env.baseFee.value {
      return Some(0);
    }
    return Some(gasPrice - env.baseFee.value);
  }

  // ---------------------------------------------------------------------
  // Whole merges
  // ---------------------------------------------------------------------

  ghost predicate AllGasPositive(cs: seq<CosmosTx>) {
    forall i :: 0 <= i < |cs| ==> GasPositive(cs[i])
  }

  /** Whether out[0] may be consumed next from queues q and Cosmos stream cs. */
  ghost predicate MayConsume(q: Queues, cs: seq<CosmosTx>, env: Env, item: Item)
    requires WellFormed(q, env.evmBaseFee) && AllGasPositive(cs)
  {
    match item
    case Evm(a, tx) =>
      && IsBest(q, a, env.evmBaseFee) && tx == q[a][0]
      && (cs == [] || CosmosFee(cs[0], env) <= EffectiveTip(tx, env.evmBaseFee))
    case Cosmos(c) =>
      && cs != [] && c == cs[0]
      && (forall a :: a in q ==> EffectiveTip(q[a][0], env.evmBaseFee) < CosmosFee(c, env))
  }

  ghost function QueuesAfter(q: Queues, item: Item): Queues
    requires item.Evm? ==> item.from in q && q[item.from] != []
  {
    match item
    case Evm(a, _) => Advance(q, a)
    case Cosmos(_) => q
  }

  ghost function CosmosAfter(cs: seq<CosmosTx>, item: Item): seq<CosmosTx>
    requires item.Cosmos? ==> cs != []
  {
    if item.Cosmos? then cs[1..] else cs
  }

  lemma {:induction false} AfterWellFormed(q: Queues, cs: seq<CosmosTx>, env: Env, item: Item)
    requires WellFormed(q, env.evmBaseFee) && AllGasPositive(cs) && MayConsume(q, cs, env, item)
    ensures WellFormed(QueuesAfter(q, item), env.evmBaseFee) && AllGasPositive(CosmosAfter(cs, item))
  {
  }

  /** out is the beginning of a merge of q and cs that leaves q' and cs'. */
  ghost predicate IsMergePrefix(q: Queues, cs: seq<CosmosTx>, env: Env, out: seq<Item>, q': Queues, cs': seq<CosmosTx>)
    requires WellFormed(q, env.evmBaseFee) && AllGasPositive(cs)
    decreases |out|
  {
    if out == [] then q == q' && cs == cs'
    else
      && MayConsume(q, cs, env, out[0])
      && (AfterWellFormed(q, cs, env, out[0]);
          IsMergePrefix(QueuesAfter(q, out[0]), CosmosAfter(cs, out[0]), env, out[1..], q', cs'))
  }

  ghost predicate IsMerge(q: Queues, cs: seq<CosmosTx>, env: Env, out: seq<Item>)
    requires WellFormed(q, env.evmBaseFee) && AllGasPositive(cs)
  {
    IsMergePrefix(q, cs, env, out, map[], [])
  }

  lemma {:induction false} ExtendMerge(q: Queues, cs: seq<CosmosTx>, env: Env, out: seq<Item>,
                                       q': Queues, cs': seq<CosmosTx>, item: Item)
    requires WellFormed(q, env.evmBaseFee) && AllGasPositive(cs) && IsMergePrefix(q, cs, env, out, q', cs')
    requires WellFormed(q', env.evmBaseFee) && AllGasPositive(cs') && MayConsume(q', cs', env, item)
    ensures IsMergePrefix(q, cs, env, out + [item], QueuesAfter(q', item), CosmosAfter(cs', item))
    decreases |out|
  {
    var longer := out + [item];
    if out == [] {
      AfterWellFormed(q, cs, env, item);
      assert longer[1..] == [];
    } else {
      AfterWellFormed(q, cs, env, out[0]);
      ExtendMerge(QueuesAfter(q, out[0]), CosmosAfter(cs, out[0]), env, out[1..], q', cs', item);
      assert longer[1..] == out[1..] + [item];
    }
  }

  function EvmPart(out: seq<Item>): seq<(Address, LazyTx)> {
    if out == [] then []
    else (if out[0].Evm? then [(out[0].from, out[0].tx)] else []) + EvmPart(out[1..])
  }

  function CosmosPart(out: seq<Item>): seq<CosmosTx> {
    if out == [] then []
    else (if out[0].Cosmos? then [out[0].ctx] else []) + CosmosPart(out[1..])
  }

  /**
    A full merge is an interleaving: its EVM elements are a complete drain of the EVM
    queues and its Cosmos elements are the whole Cosmos stream, both in order.
  */
  lemma {:induction false} MergeInterleaves(q: Queues, cs: seq<CosmosTx>, env: Env, out: seq<Item>)
    requires WellFormed(q, env.evmBaseFee) && AllGasPositive(cs) && IsMerge(q, cs, env, out)
    ensures IsDrain(q, env.evmBaseFee, EvmPart(out))
    ensures CosmosPart(out) == cs
    ensures |out| == Total(q) + |cs|
    decreases |out|
  {
    if out != [] {
      AfterWellFormed(q, cs, env, out[0]);
      MergeInterleaves(QueuesAfter(q, out[0]), CosmosAfter(cs, out[0]), env, out[1..]);
      ConsumeCounts(q, cs, env, out[0]);
      PartsOf(out);
      if out[0].Cosmos? {
        assert cs == [out[0].ctx] + cs[1..];
      }
    }
  }

  lemma {:induction false} PartsOf(out: seq<Item>)
    requires out != []
    ensures out[0].Evm? ==>
      EvmPart(out) == [(out[0].from, out[0].tx)] + EvmPart(out[1..]) && CosmosPart(out) == CosmosPart(out[1..])
    ensures out[0].Cosmos? ==>
      EvmPart(out) == EvmPart(out[1..]) && CosmosPart(out) == [out[0].ctx] + CosmosPart(out[1..])
  {
  }

  lemma {:induction false} ConsumeCounts(q: Queues, cs: seq<CosmosTx>, env: Env, item: Item)
    requires WellFormed(q, env.evmBaseFee) && AllGasPositive(cs) && MayConsume(q, cs, env, item)
    ensures Total(QueuesAfter(q, item)) + |CosmosAfter(cs, item)| == Total(q) + |cs| - 1
  {
    if item.Evm? {
      AdvanceTotal(q, item.from);
    }
  }

  /** The next EVM element, if it comes after only Cosmos ones, is a best head of the present queues. */
  lemma {:induction false} NextEvm(q: Queues, cs: seq<CosmosTx>, env: Env, out: seq<Item>, j: nat)
    requires WellFormed(q, env.evmBaseFee) && AllGasPositive(cs) && IsMerge(q, cs, env, out)
    requires j < |out| && out[j].Evm? && forall i :: 0 <= i < j ==> out[i].Cosmos?
    ensures IsBest(q, out[j].from, env.evmBaseFee) && out[j].tx == q[out[j].from][0]
    decreases j
  {
    if j > 0 {
      AfterWellFormed(q, cs, env, out[0]);
      NextEvm(q, cs[1..], env, out[1..], j - 1);
    }
  }

  lemma {:induction false} NextCosmos(q: Queues, cs: seq<CosmosTx>, env: Env, out: seq<Item>, j: nat)
    requires WellFormed(q, env.evmBaseFee) && AllGasPositive(cs) && IsMerge(q, cs, env, out)
    requires j < |out| && out[j].Cosmos? && forall i :: 0 <= i < j ==> out[i].Evm?
    ensures cs != [] && out[j].ctx == cs[0]
    decreases j
  {
    if j > 0 {
      AfterWellFormed(q, cs, env, out[0]);
      NextCosmos(QueuesAfter(q, out[0]), cs, env, out[1..], j - 1);
    }
  }

  predicate IsPriced(item: Item, env: Env) {
    match item
    case Evm(_, tx) => Affordable(tx, env.evmBaseFee)
    case Cosmos(c) => GasPositive(c)
  }

  /** The tip an element competes with; a merge only holds priced elements. */
  ghost function Tip(item: Item, env: Env): nat {
    match item
    case Evm(_, tx) => if Affordable(tx, env.evmBaseFee) then EffectiveTip(tx, env.evmBaseFee) else 0
    case Cosmos(c) => if GasPositive(c) then CosmosFee(c, env) else 0
  }

  lemma {:induction false} MergeItemsPriced(q: Queues, cs: seq<CosmosTx>, env: Env, out: seq<Item>, i: nat)
    requires WellFormed(q, env.evmBaseFee) && AllGasPositive(cs) && IsMerge(q, cs, env, out) && i < |out|
    ensures IsPriced(out[i], env)
    decreases i
  {
    if i > 0 {
      AfterWellFormed(q, cs, env, out[0]);
      MergeItemsPriced(QueuesAfter(q, out[0]), CosmosAfter(cs, out[0]), env, out[1..], i - 1);
    }
  }

  /**
    Precedence in the output: a Cosmos transaction goes before the next EVM one only
    with a strictly higher tip, an EVM transaction before the next Cosmos one whenever
    its tip is at least as high.
  */
  lemma {:induction false} MergePrecedence(q: Queues, cs: seq<CosmosTx>, env: Env, out: seq<Item>, i: nat, j: nat)
    requires WellFormed(q, env.evmBaseFee) && AllGasPositive(cs) && IsMerge(q, cs, env, out)
    requires i < j < |out| && out[i].Cosmos? != out[j].Cosmos?
    requires forall k :: i <= k < j ==> out[k].Cosmos? == out[i].Cosmos?
    ensures IsPriced(out[i], env) && IsPriced(out[j], env)
    ensures if out[i].Cosmos? then Tip(out[i], env) > Tip(out[j], env) else Tip(out[i], env) >= Tip(out[j], env)
    decreases i
  {
    MergeItemsPriced(q, cs, env, out, i);
    MergeItemsPriced(q, cs, env, out, j);
    if i > 0 {
      AfterWellFormed(q, cs, env, out[0]);
      MergePrecedence(QueuesAfter(q, out[0]), CosmosAfter(cs, out[0]), env, out[1..], i - 1, j - 1);
    } else if out[0].Cosmos? {
      NextEvm(q, cs, env, out, j);
    } else {
      NextCosmos(q, cs, env, out, j);
    }
  }

  function AsSdk(item: Item): SdkTx {
    match item
    case Evm(_, tx) => FromEvm(tx)
    case Cosmos(c) => FromCosmos(c)
  }

  predicate Convertible(item: Item, converts: LazyTx -> bool) {
    item.Evm? ==> converts(item.tx)
  }

  /** What stands for an element: itself, or the head of the Cosmos stream when it does not convert. */
  function ShownFor(item: Item, stream: seq<CosmosTx>, converts: LazyTx -> bool): Option<SdkTx> {
    if Convertible(item, converts) then Some(AsSdk(item))
    else if stream == [] then None
    else Some(FromCosmos(stream[0]))
  }

  // ---------------------------------------------------------------------
  // The iterator
  // ---------------------------------------------------------------------

  class EVMMempoolIterator {
    const evmIterator: TransactionsByPriceAndNonce?
    var cosmosIterator: seq<CosmosTx>
    const bondDenom: string
    const baseFee: Option<nat>
    const converts: LazyTx -> bool

    ghost predicate Valid()
      reads this, evmIterator
    {
      AllGasPositive(cosmosIterator) && (evmIterator != null ==> evmIterator.Valid())
    }

    ghost function GetEnv(): Env
      reads this
    {
      Env(bondDenom, baseFee, if evmIterator == null then None else evmIterator.baseFee)
    }

    ghost function EvmQueues(): (q: Queues)
      requires Valid()
      reads this, evmIterator
      ensures WellFormed(q, GetEnv().evmBaseFee)
    {
      if evmIterator == null then map[] else evmIterator.Remaining()
    }

    ghost predicate Exhausted()
      requires Valid()
      reads this, evmIterator
    {
      EvmQueues() == map[] && cosmosIterator == []
    }

    /** The element the iterator stands on. */
    ghost function Current(): (item: Item)
      requires Valid() && !Exhausted()
      reads this, evmIterator
      ensures MayConsume(EvmQueues(), cosmosIterator, GetEnv(), item)
    {
      var env := GetEnv();
      if evmIterator == null || evmIterator.heads == [] then Cosmos(cosmosIterator[0])
      else
        var h := evmIterator.heads[0];
        QueuesWellFormed(evmIterator.heads, evmIterator.txs, evmIterator.baseFee);
        RootBestInQueues(evmIterator.heads, evmIterator.txs, evmIterator.baseFee);
        if cosmosIterator == [] || CosmosFee(cosmosIterator[0], env) <= h.fees
        then Evm(h.from, h.tx) else Cosmos(cosmosIterator[0])
    }

    constructor (evmIterator: TransactionsByPriceAndNonce?, cosmosIterator: seq<CosmosTx>,
                 bondDenom: string, baseFee: Option<nat>, converts: LazyTx -> bool)
      requires evmIterator != null ==> evmIterator.Valid()
      requires AllGasPositive(cosmosIterator)
      ensures Valid() && this.evmIterator == evmIterator && this.cosmosIterator == cosmosIterator
      ensures this.bondDenom == bondDenom && this.baseFee == baseFee && this.converts == converts
    {
      this.evmIterator, this.cosmosIterator := evmIterator, cosmosIterator;
      this.bondDenom, this.baseFee, this.converts := bondDenom, baseFee, converts;
    }

    method GetNextEVMTx() returns (r: Option<(LazyTx, nat)>)
      requires Valid()
      ensures r.None? <==> EvmQueues() == map[]
      ensures r.None? <==> evmIterator == null || evmIterator.heads == []
      ensures r.Some? ==> r.value == (evmIterator.heads[0].tx, evmIterator.heads[0].fees)
    {
      if evmIterator == null {
        return None;
      }
      r := evmIterator.Peek();
      if r.Some? {
        var h := evmIterator.heads[0];
        RootBestInQueues(evmIterator.heads, evmIterator.txs, evmIterator.baseFee);
      }
    }

    method GetNextCosmosTx() returns (r: Option<(CosmosTx, nat)>)
      requires Valid()
      ensures r.None? <==> cosmosIterator == []
      ensures r.Some? ==> r.value == (cosmosIterator[0], CosmosFee(cosmosIterator[0], GetEnv()))
    {
      if cosmosIterator == [] {
        return None;
      }
      var env := Env(bondDenom, baseFee, if evmIterator == null then None else evmIterator.baseFee);
      var tip := ExtractCosmosEffectiveTip(cosmosIterator[0], env);
      if tip.None? {
        return Some((cosmosIterator[0], 0));
      }
      return Some((cosmosIterator[0], tip.value));
    }

    method ShouldUseEVM() returns (useEVM: bool)
      requires Valid()
      ensures Exhausted() ==> !useEVM
      ensures !Exhausted() ==> (useEVM <==> Current().Evm?)
    {
      var evm := GetNextEVMTx();
      var cosmos := GetNextCosmosTx();
      if evm.None? {
        return false;
      }
      if cosmos.None? {
        return true;
      }
      if cosmos.value.1 == 0 {
        return true;
      }
      var cosmosHigher := cosmos.value.1 > evm.value.1;
      return !cosmosHigher;
    }

    /** Tx shows the current element, converted; a failed conversion falls back to the Cosmos head. */
    method Tx() returns (r: Option<SdkTx>)
      requires Valid()
      ensures Exhausted() ==> r.None?
      ensures !Exhausted() ==> r == ShownFor(Current(), cosmosIterator, converts)
    {
      var evm := GetNextEVMTx();
      var cosmos := GetNextCosmosTx();
      if evm.None? && cosmos.None? {
        return None;
      }
      var useEVM := ShouldUseEVM();
      if useEVM {
        if evm.Some? && converts(evm.value.0) {
          return Some(FromEvm(evm.value.0));
        }
      }
      return if cosmos.Some? then Some(FromCosmos(cosmos.value.0)) else None;
    }

    /** Next consumes the current element and reports whether anything is left. */
    method Next() returns (more: bool)
      requires Valid()
      modifies this, evmIterator
      ensures Valid()
      ensures more <==> !Exhausted()
      ensures old(Exhausted()) ==> Exhausted() && EvmQueues() == old(EvmQueues())
      ensures !old(Exhausted()) ==>
        && EvmQueues() == QueuesAfter(old(EvmQueues()), old(Current()))
        && cosmosIterator == CosmosAfter(old(cosmosIterator), old(Current()))
    {
      var evm := GetNextEVMTx();
      var cosmos := GetNextCosmosTx();
      if evm.None? && cosmos.None? {
        return false;
      }
      var useEVM := ShouldUseEVM();
      if useEVM {
        evmIterator.Shift();
      } else {
        cosmosIterator := cosmosIterator[1..];
      }
      evm := GetNextEVMTx();
      cosmos := GetNextCosmosTx();
      more := evm.Some? || cosmos.Some?;
    }
  }

  /** NewEVMMempoolIterator: no iterator at all when both sides are empty. */
  method NewEVMMempoolIterator(evm: TransactionsByPriceAndNonce?, cosmos: seq<CosmosTx>,
                               bondDenom: string, baseFee: Option<nat>, converts: LazyTx -> bool)
    returns (it: EVMMempoolIterator?)
    requires evm != null ==> evm.Valid()
    requires AllGasPositive(cosmos)
    ensures it == null <==> (evm == null || evm.heads == []) && cosmos == []
    ensures it != null ==> fresh(it) && it.Valid() && !it.Exhausted()
    ensures it != null ==> it.evmIterator == evm && it.cosmosIterator == cosmos && it.converts == converts
    ensures it != null ==> it.bondDenom == bondDenom && it.baseFee == baseFee
  {
    if (evm == null || |evm.heads| == 0) && cosmos == [] {
      return null;
    }
    it := new EVMMempoolIterator(evm, cosmos, bondDenom, baseFee, converts);
    var head := it.GetNextEVMTx();
  }

  /** Each position shows what stands for the element consumed there; cs is what is left of the stream at the end. */
  ghost predicate ShowsPrefix(shown: seq<Option<SdkTx>>, consumed: seq<Item>, cs: seq<CosmosTx>, converts: LazyTx -> bool) {
    && |shown| == |consumed|
    && forall i :: 0 <= i < |shown| ==> shown[i] == ShownFor(consumed[i], CosmosPart(consumed[i..]) + cs, converts)
  }

  /**
    Over a full run, each position shows the element consumed there if that converts, and
    else the next Cosmos element to be consumed, or nothing when none is to come.
  */
  ghost predicate ShowsConsumed(shown: seq<Option<SdkTx>>, consumed: seq<Item>, converts: LazyTx -> bool) {
    && |shown| == |consumed|
    && forall i :: 0 <= i < |shown| ==> shown[i] == ShownFor(consumed[i], CosmosPart(consumed[i..]), converts)
  }

  lemma {:induction false} CosmosPartSnoc(out: seq<Item>, item: Item)
    ensures CosmosPart(out + [item]) == CosmosPart(out) + (if item.Cosmos? then [item.ctx] else [])
    decreases |out|
  {
    if out == [] {
      assert out + [item] == [item];
    } else {
      hide CosmosPart;
      assert (out + [item])[1..] == out[1..] + [item];
      CosmosPartSnoc(out[1..], item);
      PartsOf(out);
      PartsOf(out + [item]);
    }
  }

  lemma {:induction false} ExtendShown(shown: seq<Option<SdkTx>>, consumed: seq<Item>, cs: seq<CosmosTx>,
                                       converts: LazyTx -> bool, tx: Option<SdkTx>, item: Item)
    requires ShowsPrefix(shown, consumed, cs, converts) && tx == ShownFor(item, cs, converts)
    requires item.Cosmos? ==> cs != [] && item.ctx == cs[0]
    ensures ShowsPrefix(shown + [tx], consumed + [item], CosmosAfter(cs, item), converts)
  {
    hide CosmosPart, CosmosAfter, ShownFor;
    var longer, cs' := consumed + [item], CosmosAfter(cs, item);
    forall i | 0 <= i < |longer| ensures (shown + [tx])[i] == ShownFor(longer[i], CosmosPart(longer[i..]) + cs', converts) {
      StreamKept(consumed, cs, item, i);
    }
  }

  /** From each position on, what is consumed and what is left make up the same stream. */
  lemma {:induction false} StreamKept(consumed: seq<Item>, cs: seq<CosmosTx>, item: Item, i: nat)
    requires i <= |consumed| && (item.Cosmos? ==> cs != [] && item.ctx == cs[0])
    ensures CosmosPart((consumed + [item])[i..]) + CosmosAfter(cs, item) == CosmosPart(consumed[i..]) + cs
    ensures i == |consumed| ==> CosmosPart(consumed[i..]) + cs == cs
  {
    assert (consumed + [item])[i..] == consumed[i..] + [item];
    CosmosPartSnoc(consumed[i..], item);
  }

  lemma {:induction false} WholeRunShown(shown: seq<Option<SdkTx>>, consumed: seq<Item>, converts: LazyTx -> bool)
    requires ShowsPrefix(shown, consumed, [], converts)
    ensures ShowsConsumed(shown, consumed, converts)
  {
    forall i | 0 <= i < |shown| ensures CosmosPart(consumed[i..]) + [] == CosmosPart(consumed[i..]) {
    }
  }

  lemma {:induction false} HeadOfCosmosPart(out: seq<Item>, j: nat)
    requires j < |out| && out[j].Cosmos? && forall k :: 0 <= k < j ==> out[k].Evm?
    ensures CosmosPart(out) != [] && CosmosPart(out)[0] == out[j].ctx
    decreases j
  {
    if j > 0 { HeadOfCosmosPart(out[1..], j - 1); }
  }

  /**
    A Cosmos transaction is shown once more for every unconvertible EVM transaction that is
    consumed while it is the next Cosmos one.
  */
  lemma {:induction false} ShownAgain(shown: seq<Option<SdkTx>>, consumed: seq<Item>, converts: LazyTx -> bool, i: nat, j: nat)
    requires ShowsConsumed(shown, consumed, converts) && i < j < |consumed|
    requires !Convertible(consumed[i], converts) && consumed[j].Cosmos?
    requires forall k :: i <= k < j ==> consumed[k].Evm?
    ensures shown[i] == shown[j] == Some(FromCosmos(consumed[j].ctx))
  {
    HeadOfCosmosPart(consumed[i..], j - i);
  }

  /** A run that shows the one Cosmos transaction twice and the one EVM transaction never. */
  lemma {:induction false} UnconvertibleIsMasked(tx: LazyTx, c: CosmosTx, env: Env)
    requires env.evmBaseFee.None? && c.fee.None?
    ensures var q, cs, out := map[0 := [tx]], [c], [Evm(0, tx), Cosmos(c)];
            && WellFormed(q, env.evmBaseFee) && AllGasPositive(cs) && IsMerge(q, cs, env, out)
            && ShowsConsumed([Some(FromCosmos(c)), Some(FromCosmos(c))], out, _ => false)
  {
    var q: Queues, cs, out := map[0 := [tx]], [c], [Evm(0, tx), Cosmos(c)];
    assert out[1..] == [Cosmos(c)] && out[1..][1..] == [] && out[0..] == out;
    assert Advance(q, 0) == map[];
    assert CosmosPart(out[1..]) == [c] + CosmosPart([]) && CosmosPart(out) == [] + CosmosPart(out[1..]);
  }

  /** Every consumed element converts exactly when every queued EVM transaction does. */
  lemma {:induction false} AllConvertIff(q: Queues, cs: seq<CosmosTx>, env: Env, out: seq<Item>, converts: LazyTx -> bool)
    requires WellFormed(q, env.evmBaseFee) && AllGasPositive(cs) && IsMerge(q, cs, env, out)
    ensures (forall i :: 0 <= i < |out| ==> Convertible(out[i], converts)) <==>
            (forall a, i :: a in q && 0 <= i < |q[a]| ==> converts(q[a][i]))
    decreases |out|
  {
    if out != [] {
      var q' := QueuesAfter(q, out[0]);
      AfterWellFormed(q, cs, env, out[0]);
      AllConvertIff(q', CosmosAfter(cs, out[0]), env, out[1..], converts);
      assert (forall i :: 0 <= i < |out| ==> Convertible(out[i], converts)) <==>
             Convertible(out[0], converts) && forall i :: 0 <= i < |out[1..]| ==> Convertible(out[1..][i], converts) by {
        assert out == [out[0]] + out[1..];
      }
      if out[0].Evm? {
        QueueConverts(q, out[0].from, converts);
      }
    }
  }

  lemma {:induction false} QueueConverts(q: Queues, a: Address, converts: LazyTx -> bool)
    requires a in q && q[a] != []
    ensures (forall b, i :: b in q && 0 <= i < |q[b]| ==> converts(q[b][i])) <==>
            converts(q[a][0]) && forall b, i :: b in Advance(q, a) && 0 <= i < |Advance(q, a)[b]| ==> converts(Advance(q, a)[b][i])
  {
    var r := Advance(q, a);
    if converts(q[a][0]) && forall b, i :: b in r && 0 <= i < |r[b]| ==> converts(r[b][i]) {
      forall b, i | b in q && 0 <= i < |q[b]| ensures converts(q[b][i]) {
        if b == a && i > 0 { assert q[a][i] == r[a][i - 1]; }
        if b != a { assert r[b] == q[b]; }
      }
    }
    if forall b, i :: b in q && 0 <= i < |q[b]| ==> converts(q[b][i]) {
      forall b, i | b in r && 0 <= i < |r[b]| ensures converts(r[b][i]) {
        if b == a { assert r[a][i] == q[a][i + 1]; } else { assert r[b] == q[b]; }
      }
    }
  }

  /** Over a full run Tx shows exactly what Next consumes if and only if every queued EVM transaction converts. */
  lemma {:induction false} ShownIsConsumedIff(q: Queues, cs: seq<CosmosTx>, env: Env, out: seq<Item>,
                                              shown: seq<Option<SdkTx>>, converts: LazyTx -> bool)
    requires WellFormed(q, env.evmBaseFee) && AllGasPositive(cs) && IsMerge(q, cs, env, out)
    requires ShowsConsumed(shown, out, converts)
    ensures (forall i :: 0 <= i < |out| ==> shown[i] == Some(AsSdk(out[i]))) <==>
            (forall a, i :: a in q && 0 <= i < |q[a]| ==> converts(q[a][i]))
  {
    AllConvertIff(q, cs, env, out, converts);
  }

  /** One round: look at the current element with Tx, then consume it with Next. */
  method Round(it: EVMMempoolIterator) returns (tx: Option<SdkTx>, more: bool, ghost item: Item)
    requires it.Valid() && !it.Exhausted()
    modifies it, it.evmIterator
    ensures it.Valid() && (more <==> !it.Exhausted())
    ensures MayConsume(old(it.EvmQueues()), old(it.cosmosIterator), it.GetEnv(), item)
    ensures it.EvmQueues() == QueuesAfter(old(it.EvmQueues()), item)
    ensures it.cosmosIterator == CosmosAfter(old(it.cosmosIterator), item)
    ensures tx == ShownFor(item, old(it.cosmosIterator), it.converts)
  {
    item := it.Current();
    tx := it.Tx();
    more := it.Next();
  }

  /**
    A full Tx/Next run. What is consumed is a merge of both sides; what is shown at a
    position is the element consumed there if that converts, else the next Cosmos one.
  */
  method Walk(it: EVMMempoolIterator) returns (shown: seq<Option<SdkTx>>, ghost consumed: seq<Item>)
    requires it.Valid() && !it.Exhausted()
    modifies it, it.evmIterator
    ensures it.Valid() && it.Exhausted()
    ensures IsMerge(old(it.EvmQueues()), old(it.cosmosIterator), it.GetEnv(), consumed)
    ensures ShowsConsumed(shown, consumed, it.converts)
  {
    shown, consumed := [], [];
    ghost var q0, cs0, env := it.EvmQueues(), it.cosmosIterator, it.GetEnv();
    ghost var q, cs := q0, cs0;
    var more := true;
    while more
      invariant it.Valid() && (more <==> !it.Exhausted())
      invariant q == it.EvmQueues() && cs == it.cosmosIterator
      invariant IsMergePrefix(q0, cs0, env, consumed, q, cs)
      invariant ShowsPrefix(shown, consumed, cs, it.converts)
      decreases Total(q) + |cs|
    {
      var tx, m, item := Round(it);
      ExtendMerge(q0, cs0, env, consumed, q, cs, item);
      ExtendShown(shown, consumed, cs, it.converts, tx, item);
      ConsumeCounts(q, cs, env, item);
      q, cs := it.EvmQueues(), it.cosmosIterator;
      shown, consumed := shown + [tx], consumed + [item];
      more := m;
    }
    WholeRunShown(shown, consumed, it.converts);
  }
}
