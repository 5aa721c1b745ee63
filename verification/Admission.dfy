/**
  Stateful admission (mempool/txpool/validation.go): the balance, nonce, gap and
  slot checks a transaction must pass before it enters a pool. The pool behind the
  callbacks is modelled as what it must report: costs by nonce, per account.
*/
module Admission {
  import opened Wrappers

  type Address = nat

  /** A transaction; no sender when its signature does not recover. */
  datatype Tx = Tx(sender: Option<Address>, nonce: nat, cost: nat)

  /** Costs of an account's pooled transactions by nonce. */
  type Pooled = map<nat, nat>

  datatype Account = Account(nonce: nat, balance: nat)

  /** The optional callbacks: nonce gaps are forbidden or not, slots are capped or not. */
  datatype Options = Options(forbidGaps: bool, slotCap: Option<nat>)

  datatype Error = InvalidSender | NonceTooLow | NonceTooHigh | InsufficientFunds | AccountLimitExceeded

  // ---------------------------------------------------------------------
  // The callbacks
  // ---------------------------------------------------------------------

  /** ExistingExpenditure. */
  ghost function Expenditure(p: Pooled): nat {
    if p == map[] then 0
    else
      var n :| n in p;
      p[n] + Expenditure(p - {n})
  }

  lemma {:induction false} ExpenditureSplit(p: Pooled, n: nat)
    requires n in p
    ensures Expenditure(p) == p[n] + Expenditure(p - {n})
    decreases |p|
  {
    var k :| k in p && Expenditure(p) == p[k] + Expenditure(p - {k});
    if k != n {
      ExpenditureSplit(p - {k}, n);
      ExpenditureSplit(p - {n}, k);
      assert p - {k} - {n} == p - {n} - {k};
    }
  }

  lemma {:induction false} ExpenditureUpdate(p: Pooled, n: nat, cost: nat)
    ensures Expenditure(p[n := cost]) == Expenditure(p) + cost - (if n in p then p[n] else 0)
  {
    ExpenditureSplit(p[n := cost], n);
    assert p[n := cost] - {n} == p - {n};
    if n in p {
      ExpenditureSplit(p, n);
    } else {
      assert p - {n} == p;
    }
  }

  /** FirstNonceGap: the first nonce from next on that is not pooled. */
  ghost function FirstGap(p: Pooled, next: nat): (gap: nat)
    ensures gap >= next && gap !in p
    ensures forall n :: next <= n < gap ==> n in p
    decreases |set n | n in p && n >= next|
  {
    if next !in p then next
    else
      assert (set n | n in p && n >= next) == (set n | n in p && n >= next + 1) + {next};
      FirstGap(p, next + 1)
  }

  // ---------------------------------------------------------------------
  // The check
  // ---------------------------------------------------------------------

  /** ValidateTransactionWithState, for a recovered sender: the first check that fails. */
  ghost function Check(nonce: nat, cost: nat, acc: Account, p: Pooled, opts: Options): Option<Error> {
    if acc.nonce > nonce then Some(NonceTooLow)
    else if opts.forbidGaps && FirstGap(p, acc.nonce) < nonce then Some(NonceTooHigh)
    else if acc.balance < cost then Some(InsufficientFunds)
    else
      var spent := Expenditure(p);
      if nonce in p then
        var bump := cost - p[nonce];
        if acc.balance < spent + bump then Some(InsufficientFunds) else None
      else if acc.balance < spent + cost then Some(InsufficientFunds)
      else if opts.slotCap.Some? && opts.slotCap.value - |p| <= 0 then Some(AccountLimitExceeded)
      else None
  }

  /** From next on, every nonce below a pooled one is pooled too. */
  ghost predicate GapFree(p: Pooled, next: nat) {
    forall m, n :: n in p && next <= m < n ==> m in p
  }

  /** What the pool promises for one account. */
  ghost predicate Sound(p: Pooled, acc: Account, opts: Options) {
    && (forall n :: n in p ==> acc.nonce <= n)
    && Expenditure(p) <= acc.balance
    && (opts.forbidGaps ==> GapFree(p, acc.nonce))
    && (opts.slotCap.Some? ==> |p| <= opts.slotCap.value)
  }

  /** With gaps forbidden, a nonce continues a gap-free pool exactly when it does not pass the first gap. */
  lemma {:induction false} GapFreeIff(p: Pooled, next: nat, nonce: nat, cost: nat)
    requires next <= nonce && GapFree(p, next)
    ensures nonce <= FirstGap(p, next) <==> GapFree(p[nonce := cost], next)
  {
    var gap := FirstGap(p, next);
    var p' := p[nonce := cost];
    if nonce > gap {
      assert nonce in p' && next <= gap < nonce && gap !in p';
    }
  }

  /**
    The check is exact: on a sound pool it admits precisely the transactions whose insertion,
    or replacement of the one with the same nonce, leaves the pool sound.
  */
  lemma {:induction false} AdmittedIffSound(nonce: nat, cost: nat, acc: Account, p: Pooled, opts: Options)
    requires Sound(p, acc, opts)
    ensures Check(nonce, cost, acc, p, opts).None? <==> Sound(p[nonce := cost], acc, opts)
  {
    var p' := p[nonce := cost];
    ExpenditureUpdate(p, nonce, cost);
    if nonce in p {
      ExpenditureSplit(p, nonce);
    }
    assert nonce in p';
    if acc.nonce <= nonce && opts.forbidGaps {
      GapFreeIff(p, acc.nonce, nonce, cost);
    }
  }

  /** The nonce is neither used up in the state nor, with gaps forbidden, beyond one that is not pooled. */
  ghost predicate NonceFits(nonce: nat, acc: Account, p: Pooled, opts: Options) {
    acc.nonce <= nonce && (opts.forbidGaps ==> forall m :: acc.nonce <= m < nonce ==> m in p)
  }

  /**
    Which error is reported, on any pool: each says what would be wrong with the pool that holds
    the transaction. The check of the cost alone against the balance adds nothing to this.
  */
  lemma {:induction false} RejectionReason(nonce: nat, cost: nat, acc: Account, p: Pooled, opts: Options)
    ensures var r, p', fits := Check(nonce, cost, acc, p, opts), p[nonce := cost], NonceFits(nonce, acc, p, opts);
            && (r == Some(NonceTooLow) <==> nonce < acc.nonce)
            && (r == Some(NonceTooHigh) <==> acc.nonce <= nonce && !fits)
            && (r == Some(InsufficientFunds) <==> fits && Expenditure(p') > acc.balance)
            && (r == Some(AccountLimitExceeded) <==>
                fits && Expenditure(p') <= acc.balance && nonce !in p && opts.slotCap.Some? && |p'| > opts.slotCap.value)
            && r != Some(InvalidSender)
  {
    ExpenditureUpdate(p, nonce, cost);
    ExpenditureSplit(p[nonce := cost], nonce);
  }

  // ---------------------------------------------------------------------
  // Runs
  // ---------------------------------------------------------------------

  type Pool = map<Address, Pooled>

  ghost function Of(pool: Pool, a: Address): Pooled {
    if a in pool then pool[a] else map[]
  }

  /** ValidateTransactionWithState. */
  ghost function Validate(tx: Tx, state: Address -> Account, pool: Pool, opts: Options): Option<Error> {
    if tx.sender.None? then Some(InvalidSender)
    else Check(tx.nonce, tx.cost, state(tx.sender.value), Of(pool, tx.sender.value), opts)
  }

  /** A transaction that passes is inserted or replaces the one with its nonce; any other changes nothing. */
  ghost function Offer(tx: Tx, state: Address -> Account, pool: Pool, opts: Options): Pool {
    if Validate(tx, state, pool, opts).Some? then pool
    else
      var a := tx.sender.value;
      pool[a := Of(pool, a)[tx.nonce := tx.cost]]
  }

  ghost function OfferAll(txs: seq<Tx>, state: Address -> Account, opts: Options): Pool {
    if txs == [] then map[]
    else Offer(txs[|txs| - 1], state, OfferAll(txs[..|txs| - 1], state, opts), opts)
  }

  /**
    No overdraft: whatever is offered, in whatever order, every account's pooled cost stays
    within its balance and its nonces at or above the state's; with the callbacks set they
    stay gap-free and within the cap.
  */
  lemma {:induction false} NoOverdraft(txs: seq<Tx>, state: Address -> Account, opts: Options, a: Address)
    ensures Sound(Of(OfferAll(txs, state, opts), a), state(a), opts)
    decreases |txs|
  {
    if txs != [] {
      var tx, before := txs[|txs| - 1], OfferAll(txs[..|txs| - 1], state, opts);
      NoOverdraft(txs[..|txs| - 1], state, opts, a);
      if tx.sender == Some(a) {
        AdmittedIffSound(tx.nonce, tx.cost, state(a), Of(before, a), opts);
      }
    }
  }

  /** What is in the pool came from an offered transaction that was admitted when it was offered. */
  lemma {:induction false} PooledWasAdmitted(txs: seq<Tx>, state: Address -> Account, opts: Options, a: Address, n: nat)
    returns (i: nat)
    requires n in Of(OfferAll(txs, state, opts), a)
    ensures i < |txs| && txs[i] == Tx(Some(a), n, Of(OfferAll(txs, state, opts), a)[n])
    ensures Validate(txs[i], state, OfferAll(txs[..i], state, opts), opts).None?
    decreases |txs|
  {
    var front := txs[..|txs| - 1];
    var tx, before := txs[|txs| - 1], OfferAll(front, state, opts);
    if Validate(tx, state, before, opts).None? && tx.sender == Some(a) && tx.nonce == n {
      i := |txs| - 1;
    } else {
      i := PooledWasAdmitted(front, state, opts, a, n);
      assert front[..i] == txs[..i];
    }
  }
}
