/**
  TxPool.Add (mempool/txpool/txpool.go): a batch is split over the subpools and
  the errors they return are put back into the batch's order.

  A subpool is its filter and its answer to a batch; it returns one error slot
  per transaction, as the SubPool interface promises.
*/
module BatchAdd {

  datatype Tx = Tx(id: nat, txType: nat)

  /** An error slot: nil, the subpool's own error, or the coordinator's. */
  datatype Outcome = Accepted | Rejected(reason: nat) | Unsupported(txType: nat)

  datatype Subpool = Subpool(filter: Tx -> bool, add: seq<Tx> -> seq<Outcome>)

  ghost predicate AnswersAll(p: Subpool) {
    forall txs :: |p.add(txs)| == |txs|
  }

  ghost predicate AllAnswerAll(pools: seq<Subpool>) {
    forall j :: 0 <= j < |pools| ==> AnswersAll(pools[j])
  }

  /** j is the first subpool that accepts tx, or -1 when none does. */
  predicate IsRoute(pools: seq<Subpool>, tx: Tx, j: int) {
    && -1 <= j < |pools|
    && (j >= 0 ==> pools[j].filter(tx))
    && (forall k :: 0 <= k < (if j == -1 then |pools| else j) ==> !pools[k].filter(tx))
  }

  function Route(pools: seq<Subpool>, tx: Tx): (j: int)
    ensures IsRoute(pools, tx, j)
  {
    RouteFrom(pools, tx, 0)
  }

  function RouteFrom(pools: seq<Subpool>, tx: Tx, k: nat): (j: int)
    requires k <= |pools| && forall i :: 0 <= i < k ==> !pools[i].filter(tx)
    ensures IsRoute(pools, tx, j)
    decreases |pools| - k
  {
    if k == |pools| then -1 else if pools[k].filter(tx) then k else RouteFrom(pools, tx, k + 1)
  }

  /** The transactions routed to subpool j, in batch order. */
  function Share(pools: seq<Subpool>, txs: seq<Tx>, j: nat): seq<Tx> {
    if txs == [] then []
    else
      var front, last := txs[..|txs| - 1], txs[|txs| - 1];
      Share(pools, front, j) + (if Route(pools, last) == j then [last] else [])
  }

  /** The position of transaction i within its subpool's share. */
  function Rank(pools: seq<Subpool>, txs: seq<Tx>, i: nat): nat
    requires i < |txs| && Route(pools, txs[i]) >= 0
  {
    |Share(pools, txs[..i], Route(pools, txs[i]))|
  }

  lemma {:induction false} ShareGrows(pools: seq<Subpool>, txs: seq<Tx>, i: nat, j: nat)
    requires i <= |txs|
    ensures Share(pools, txs[..i], j) <= Share(pools, txs, j)
    decreases |txs| - i
  {
    if i < |txs| {
      ShareGrows(pools, txs, i + 1, j);
      assert txs[..i + 1][..i] == txs[..i];
    } else {
      assert txs[..i] == txs;
    }
  }

  /** A routed transaction stands in its subpool's share at its rank. */
  lemma {:induction false} RankFindsTx(pools: seq<Subpool>, txs: seq<Tx>, i: nat)
    requires i < |txs| && Route(pools, txs[i]) >= 0
    ensures var share := Share(pools, txs, Route(pools, txs[i]));
            Rank(pools, txs, i) < |share| && share[Rank(pools, txs, i)] == txs[i]
  {
    var j := Route(pools, txs[i]);
    ShareGrows(pools, txs, i + 1, j);
    assert txs[..i + 1][..i] == txs[..i];
  }

  /** Two transactions of one subpool keep their order. */
  lemma {:induction false} RankKeepsOrder(pools: seq<Subpool>, txs: seq<Tx>, i: nat, k: nat)
    requires i < k < |txs| && Route(pools, txs[i]) == Route(pools, txs[k]) >= 0
    ensures Rank(pools, txs, i) < Rank(pools, txs, k)
  {
    var j := Route(pools, txs[i]);
    RankFindsTx(pools, txs[..k], i);
    assert txs[..k][..i] == txs[..i];
  }

  /** Shares hold nothing but routed transactions. */
  lemma {:induction false} ShareIsRouted(pools: seq<Subpool>, txs: seq<Tx>, j: nat, r: nat) returns (i: nat)
    requires r < |Share(pools, txs, j)|
    ensures i < |txs| && Route(pools, txs[i]) == j && Rank(pools, txs, i) == r && Share(pools, txs, j)[r] == txs[i]
  {
    var front, last := txs[..|txs| - 1], txs[|txs| - 1];
    if r < |Share(pools, front, j)| {
      i := ShareIsRouted(pools, front, j, r);
      assert front[..i] == txs[..i];
    } else {
      i := |txs| - 1;
    }
  }

  /** The answer of subpool j to its share of the batch. */
  function Answer(pools: seq<Subpool>, txs: seq<Tx>, j: nat): seq<Outcome>
    requires j < |pools|
  {
    pools[j].add(Share(pools, txs, j))
  }

  /** o is the error the batch's transaction i must get. */
  ghost predicate IsError(pools: seq<Subpool>, txs: seq<Tx>, i: nat, o: Outcome)
    requires i < |txs|
  {
    var j := Route(pools, txs[i]);
    if j == -1 then o == Unsupported(txs[i].txType)
    else Rank(pools, txs, i) < |Answer(pools, txs, j)| && o == Answer(pools, txs, j)[Rank(pools, txs, i)]
  }

  /** After i transactions are served, the rest of subpool j's answer is left. */
  ghost predicate Left(pools: seq<Subpool>, txs: seq<Tx>, i: nat, j: nat, rest: seq<Outcome>)
    requires i <= |txs| && j < |pools|
  {
    var served := |Share(pools, txs[..i], j)|;
    served <= |Answer(pools, txs, j)| && rest == Answer(pools, txs, j)[served..]
  }

  /** Serving transaction i from its own subpool takes the right error and leaves the right rest. */
  lemma {:induction false} ServeNext(pools: seq<Subpool>, txs: seq<Tx>, i: nat, rest: seq<Outcome>)
    requires AllAnswerAll(pools) && i < |txs| && Route(pools, txs[i]) >= 0
    requires Left(pools, txs, i, Route(pools, txs[i]), rest)
    ensures rest != [] && IsError(pools, txs, i, rest[0])
    ensures Left(pools, txs, i + 1, Route(pools, txs[i]), rest[1..])
  {
    var j := Route(pools, txs[i]);
    RankFindsTx(pools, txs, i);
    assert AnswersAll(pools[j]);
    assert txs[..i + 1][..i] == txs[..i];
  }

  /** Serving a transaction leaves the other subpools' answers alone. */
  lemma {:induction false} OthersWait(pools: seq<Subpool>, txs: seq<Tx>, i: nat, j: nat, rest: seq<Outcome>)
    requires i < |txs| && j < |pools| && Route(pools, txs[i]) != j && Left(pools, txs, i, j, rest)
    ensures Left(pools, txs, i + 1, j, rest)
  {
    assert txs[..i + 1][..i] == txs[..i];
  }

  /** The inner search loop: the first subpool whose filter accepts. */
  method FindSubpool(pools: seq<Subpool>, tx: Tx) returns (split: int)
    ensures split == Route(pools, tx)
  {
    split := -1;
    for j := 0 to |pools|
      invariant split == -1 && forall k :: 0 <= k < j ==> !pools[k].filter(tx)
    {
      if pools[j].filter(tx) {
        split := j;
        break;
      }
    }
  }

  /** The first half of Add: splits[i] is where transaction i went, txsets[j] what subpool j gets. */
  method Split(pools: seq<Subpool>, txs: seq<Tx>) returns (txsets: seq<seq<Tx>>, splits: seq<int>)
    ensures |splits| == |txs| && forall i :: 0 <= i < |txs| ==> splits[i] == Route(pools, txs[i])
    ensures |txsets| == |pools| && forall j :: 0 <= j < |pools| ==> txsets[j] == Share(pools, txs, j)
  {
    txsets := seq(|pools|, _ => []);
    splits := [];
    for i := 0 to |txs|
      invariant |splits| == i && forall k :: 0 <= k < i ==> splits[k] == Route(pools, txs[k])
      invariant |txsets| == |pools| && forall j :: 0 <= j < |pools| ==> txsets[j] == Share(pools, txs[..i], j)
    {
      var split := FindSubpool(pools, txs[i]);
      assert txs[..i + 1][..i] == txs[..i];
      if split >= 0 {
        txsets := txsets[split := txsets[split] + [txs[i]]];
      }
      splits := splits + [split];
    }
    assert txs[..|txs|] == txs;
  }

  /** The second half of Add: errors are taken from the front of each subpool's answer. */
  method Reassemble(pools: seq<Subpool>, txs: seq<Tx>, splits: seq<int>, answers: seq<seq<Outcome>>)
    returns (errs: seq<Outcome>)
    requires AllAnswerAll(pools)
    requires |splits| == |txs| && forall i :: 0 <= i < |txs| ==> splits[i] == Route(pools, txs[i])
    requires |answers| == |pools| && forall j :: 0 <= j < |pools| ==> answers[j] == Answer(pools, txs, j)
    ensures |errs| == |txs| && forall i :: 0 <= i < |txs| ==> IsError(pools, txs, i, errs[i])
  {
    errs := [];
    var errsets := answers;
    for i := 0 to |txs|
      invariant |errs| == i && |errsets| == |pools|
      invariant forall j :: 0 <= j < |pools| ==> Left(pools, txs, i, j, errsets[j])
      invariant forall k :: 0 <= k < i ==> IsError(pools, txs, k, errs[k])
    {
      var split := splits[i];
      ghost var before := errsets;
      if split == -1 {
        errs := errs + [Unsupported(txs[i].txType)];
      } else {
        ServeNext(pools, txs, i, errsets[split]);
        errs := errs + [errsets[split][0]];
        errsets := errsets[split := errsets[split][1..]];
      }
      forall j | 0 <= j < |pools| ensures Left(pools, txs, i + 1, j, errsets[j]) {
        if j != split { OthersWait(pools, txs, i, j, before[j]); }
      }
    }
  }

  /**
    Add: each transaction goes to the first subpool that accepts it, in batch order, and
    its slot holds exactly the error that subpool gave for it, or "unsupported".
  */
  method Add(pools: seq<Subpool>, txs: seq<Tx>) returns (errs: seq<Outcome>)
    requires AllAnswerAll(pools)
    ensures |errs| == |txs| && forall i :: 0 <= i < |txs| ==> IsError(pools, txs, i, errs[i])
  {
    var txsets, splits := Split(pools, txs);
    var answers: seq<seq<Outcome>> := [];
    for j := 0 to |pools|
      invariant |answers| == j && forall k :: 0 <= k < j ==> answers[k] == Answer(pools, txs, k)
    {
      answers := answers + [pools[j].add(txsets[j])];
    }
    errs := Reassemble(pools, txs, splits, answers);
  }
}
