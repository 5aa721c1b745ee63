/**
  Fees of Cosmos transactions under EIP-1559 (ante/evm/fee_checker.go) and the
  minimum gas price check (ante/cosmos/min_gas_price.go), in the 18-digit fixed
  point of LegacyDec: a decimal is an integer number of 10^-18 units.
*/
module FeeChecker {
  import opened Wrappers
  import opened Coins

  /** A LegacyDec, in units of 10^-18. */
  type Dec = int

  const ONE: int := 1_000_000_000_000_000_000
  const MAX_INT64: int := 0x7fff_ffff_ffff_ffff
  const PRIORITY_REDUCTION: int := 1_000_000

  /** An extension option: a dynamic fee option, whose price may be nil, or another one. */
  datatype Extension = DynamicFee(maxPriorityPrice: Option<Dec>) | OtherExtension

  datatype FeeTx = FeeTx(fee: int, gas: nat, extensions: seq<Extension>)

  datatype FeeError = NegativePriorityPrice | ZeroGas | GasPriceTooLow

  datatype FeeResult = Charged(fee: int, priority: int) | Refused(error: FeeError)

  // ---------------------------------------------------------------------
  // Fixed-point arithmetic
  // ---------------------------------------------------------------------

  /** big.Int Quo: division truncated towards zero. */
  function Quo(a: int, b: int): int
    requires b > 0
  {
    if a >= 0 then a / b else -((-a) / b)
  }

  /** Ceil followed by RoundInt: the least integer not below the decimal. */
  function CeilInt(d: Dec): int {
    var q := Quo(d, ONE);
    if d - q * ONE > 0 then q + 1 else q
  }

  lemma {:induction false} QuoBounds(a: int, b: int)
    requires b > 0
    ensures a >= 0 ==> Quo(a, b) * b <= a < Quo(a, b) * b + b
    ensures a < 0 ==> Quo(a, b) * b - b < a <= Quo(a, b) * b
  {
  }

  /** CeilInt is the ceiling, for negative decimals too. */
  lemma {:induction false} CeilIntIsCeiling(d: Dec)
    ensures (CeilInt(d) - 1) * ONE < d <= CeilInt(d) * ONE
  {
  }

  /** Rounding to an integer number of units, half to even, as after LegacyDec multiplication. */
  function ChopRound(x: int): int {
    if x >= 0 then ChopRoundUp(x) else -ChopRoundUp(-x)
  }

  function ChopRoundUp(x: nat): int {
    var q, r := x / ONE, x % ONE;
    if 2 * r < ONE then q else if 2 * r > ONE then q + 1 else if q % 2 == 0 then q else q + 1
  }

  /** LegacyDec.Mul. */
  function Mul(a: Dec, b: Dec): Dec {
    ChopRound(a * b)
  }

  /** Multiplying by a whole number is exact. */
  lemma {:induction false} MulByInteger(a: Dec, n: nat)
    ensures Mul(a, n * ONE) == a * n
  {
    var p := a * n;
    assert a * (n * ONE) == p * ONE;
    if p < 0 {
      assert p * ONE < 0 && -(p * ONE) == (-p) * ONE;
    } else {
      assert p * ONE >= 0;
    }
  }

  // ---------------------------------------------------------------------
  // FeeChecker
  // ---------------------------------------------------------------------

  /** The first dynamic fee option decides the tip cap; without one it is MaxInt64 whole units. */
  function TipCap(extensions: seq<Extension>): Dec {
    if extensions == [] then MAX_INT64 * ONE
    else
      match extensions[0]
      case DynamicFee(price) => if price.Some? then price.value else 0
      case OtherExtension => TipCap(extensions[1..])
  }

  /** feeAmount / gas, truncated. */
  function FeeCap(tx: FeeTx): Dec
    requires tx.gas > 0
  {
    Quo(tx.fee * ONE, tx.gas)
  }

  /** effectiveGasPriceLegacyDec: min(tipCap + baseFee, feeCap). */
  function EffectivePrice(tx: FeeTx, baseFee: Dec): Dec
    requires tx.gas > 0
  {
    var cap := FeeCap(tx);
    if TipCap(tx.extensions) + baseFee <= cap then TipCap(tx.extensions) + baseFee else cap
  }

  predicate NoDynamicFee(extensions: seq<Extension>) {
    forall i :: 0 <= i < |extensions| ==> !extensions[i].DynamicFee?
  }

  /** The option at k is a dynamic fee option, and none before it is. */
  predicate FirstDynamicFee(extensions: seq<Extension>, k: int) {
    0 <= k < |extensions| && extensions[k].DynamicFee? && NoDynamicFee(extensions[..k])
  }

  /** The tip cap is the price of the first dynamic fee option, nil counting as zero; without one it is MaxInt64. */
  lemma {:induction false} TipCapMeans(extensions: seq<Extension>)
    ensures NoDynamicFee(extensions) ==> TipCap(extensions) == 0x7fff_ffff_ffff_ffff * ONE
    ensures forall k :: FirstDynamicFee(extensions, k) ==>
      if extensions[k].maxPriorityPrice.None? then TipCap(extensions) == 0
      else TipCap(extensions) == extensions[k].maxPriorityPrice.value
  {
    if extensions != [] && extensions[0].OtherExtension? {
      var rest := extensions[1..];
      TipCapMeans(rest);
      forall k | FirstDynamicFee(extensions, k) ensures k > 0 && FirstDynamicFee(rest, k - 1) && extensions[k] == rest[k - 1] {
        assert rest[..k - 1] == extensions[..k][1..];
      }
    }
  }

  /** The scan for the tip cap, as the loop in FeeChecker runs it. */
  method FindTipCap(extensions: seq<Extension>) returns (tipCap: Dec)
    ensures tipCap == TipCap(extensions)
    ensures NoDynamicFee(extensions) ==> tipCap == 0x7fff_ffff_ffff_ffff * ONE
    ensures forall k :: FirstDynamicFee(extensions, k) ==>
      if extensions[k].maxPriorityPrice.None? then tipCap == 0 else tipCap == extensions[k].maxPriorityPrice.value
  {
    tipCap := MAX_INT64 * ONE;
    for i := 0 to |extensions|
      invariant tipCap == MAX_INT64 * ONE && TipCap(extensions) == TipCap(extensions[i..])
      invariant NoDynamicFee(extensions[..i])
    {
      assert extensions[i..][0] == extensions[i] && extensions[i..][1..] == extensions[i + 1..];
      if extensions[i].DynamicFee? {
        tipCap := if extensions[i].maxPriorityPrice.Some? then extensions[i].maxPriorityPrice.value else 0;
        return;
      }
    }
  }

  /**
    FeeChecker after the London fork; a disabled base fee is zero. The errors come in the
    order of the code, and a success charges the effective price for the whole gas limit.
  */
  method CheckFee(tx: FeeTx, baseFee: Dec) returns (r: FeeResult)
    ensures r == Refused(NegativePriorityPrice) <==> TipCap(tx.extensions) < 0
    ensures r == Refused(ZeroGas) <==> TipCap(tx.extensions) >= 0 && tx.gas == 0
    ensures r == Refused(GasPriceTooLow) <==> TipCap(tx.extensions) >= 0 && tx.gas > 0 && FeeCap(tx) < baseFee
    ensures r.Charged? ==> r.fee == CeilInt(EffectivePrice(tx, baseFee) * tx.gas)
    ensures NoDynamicFee(tx.extensions) && 0 < tx.gas <= ONE && tx.fee >= 0 && OffersWithin(tx, baseFee) ==>
      r.Charged? && r.fee == tx.fee
    ensures r.Charged? ==> 0 <= r.priority <= MAX_INT64
    ensures r.Charged? ==>
      var tip := EffectivePrice(tx, baseFee) - baseFee;
      if r.priority == MAX_INT64 then tip >= MAX_INT64 * 1_000_000 * ONE
      else r.priority * 1_000_000 * ONE <= tip < (r.priority + 1) * 1_000_000 * ONE
  {
    if NoDynamicFee(tx.extensions) && 0 < tx.gas <= ONE && tx.fee >= 0 && OffersWithin(tx, baseFee) {
      OrdinaryPaysOffer(tx, baseFee);
    }
    var tipCap := FindTipCap(tx.extensions);
    if tipCap < 0 {
      return Refused(NegativePriorityPrice);
    }
    if tx.gas == 0 {
      return Refused(ZeroGas);
    }
    var feeCap := Quo(tx.fee * ONE, tx.gas);
    if feeCap < baseFee {
      return Refused(GasPriceTooLow);
    }
    var price := if tipCap + baseFee <= feeCap then tipCap + baseFee else feeCap;
    var fee := CeilInt(price * tx.gas);
    var priority := PriorityOf(price - baseFee);
    return Charged(fee, priority);
  }

  /** The tip in millions of whole units, truncated twice and saturated at MaxInt64. */
  function PriorityOf(tip: Dec): (p: int)
    requires tip >= 0
    ensures 0 <= p <= MAX_INT64
    ensures if p == MAX_INT64 then tip >= MAX_INT64 * 1_000_000 * ONE
            else p * 1_000_000 * ONE <= tip < (p + 1) * 1_000_000 * ONE
  {
    var reduced := Quo(Quo(tip, PRIORITY_REDUCTION), ONE);
    if reduced <= MAX_INT64 then reduced else MAX_INT64
  }

  // ---------------------------------------------------------------------
  // What is charged
  // ---------------------------------------------------------------------

  /** The transaction is charged. */
  predicate Charges(tx: FeeTx, baseFee: Dec) {
    TipCap(tx.extensions) >= 0 && tx.gas > 0 && FeeCap(tx) >= baseFee
  }

  function Fee(tx: FeeTx, baseFee: Dec): int
    requires Charges(tx, baseFee)
  {
    CeilInt(EffectivePrice(tx, baseFee) * tx.gas)
  }

  /** The fee cap, not the tip cap, is what limits the price. */
  predicate CapBinds(tx: FeeTx, baseFee: Dec)
    requires tx.gas > 0
  {
    FeeCap(tx) <= TipCap(tx.extensions) + baseFee
  }

  lemma {:induction false} MulMonotone(a: int, b: int, n: nat)
    requires a <= b
    ensures a * n <= b * n
  {
  }

  /** The charge covers the base fee for all gas and never exceeds the offer. */
  lemma {:induction false} ChargeWithinBounds(tx: FeeTx, baseFee: Dec)
    requires Charges(tx, baseFee) && tx.fee >= 0
    ensures CeilInt(baseFee * tx.gas) <= Fee(tx, baseFee) <= tx.fee
  {
    var price := EffectivePrice(tx, baseFee);
    MulMonotone(baseFee, price, tx.gas);
    QuoBounds(tx.fee * ONE, tx.gas);
    MulMonotone(price, FeeCap(tx), tx.gas);
  }

  /** What the truncated fee cap loses, in units of 10^-18. */
  function Truncated(tx: FeeTx): int
    requires tx.gas > 0 && tx.fee >= 0
  {
    (tx.fee * ONE) % tx.gas
  }

  /** When the fee cap binds, the charge falls short of the offer by the whole units truncation lost. */
  lemma {:induction false} CapBindingCharge(tx: FeeTx, baseFee: Dec)
    requires Charges(tx, baseFee) && tx.fee >= 0 && CapBinds(tx, baseFee)
    ensures Fee(tx, baseFee) == tx.fee - Truncated(tx) / ONE
  {
  }

  /** So a fee-cap-bound offer is charged exactly as offered if and only if less than one whole unit is lost. */
  lemma {:induction false} CapBindingExactIff(tx: FeeTx, baseFee: Dec)
    requires Charges(tx, baseFee) && tx.fee >= 0 && CapBinds(tx, baseFee)
    ensures Fee(tx, baseFee) == tx.fee <==> (tx.fee * ONE) % tx.gas < ONE
    ensures tx.gas <= ONE ==> Fee(tx, baseFee) == tx.fee
  {
    CapBindingCharge(tx, baseFee);
  }

  /** Gas times the base fee is offered, and no more than MaxInt64 on top of it, up to the truncation. */
  predicate OffersWithin(tx: FeeTx, baseFee: Dec) {
    baseFee * tx.gas <= tx.fee * ONE < (0x7fff_ffff_ffff_ffff * ONE + baseFee + 1) * tx.gas
  }

  /** The ordinary Cosmos transaction, without a dynamic fee option, pays exactly its offer. */
  lemma {:induction false} OrdinaryPaysOffer(tx: FeeTx, baseFee: Dec)
    requires NoDynamicFee(tx.extensions) && 0 < tx.gas <= ONE && tx.fee >= 0 && OffersWithin(tx, baseFee)
    ensures Charges(tx, baseFee) && Fee(tx, baseFee) == tx.fee
  {
    TipCapMeans(tx.extensions);
    CapWithin(tx, baseFee);
    CapBindingExactIff(tx, baseFee);
  }

  lemma {:induction false} CapWithin(tx: FeeTx, baseFee: Dec)
    requires tx.gas > 0 && tx.fee >= 0 && OffersWithin(tx, baseFee)
    ensures baseFee <= FeeCap(tx) <= 0x7fff_ffff_ffff_ffff * ONE + baseFee
  {
    var cap, most := FeeCap(tx), 0x7fff_ffff_ffff_ffff * ONE + baseFee;
    QuoBounds(tx.fee * ONE, tx.gas);
    if cap < baseFee { MulMonotone(cap + 1, baseFee, tx.gas); }
    if cap > most { MulMonotone(most + 1, cap, tx.gas); }
  }

  /** With the tip cap binding, the charge is the tip cap and the base fee for all gas, rounded up. */
  lemma {:induction false} TipBindingCharge(tx: FeeTx, baseFee: Dec)
    requires Charges(tx, baseFee) && !CapBinds(tx, baseFee)
    ensures (Fee(tx, baseFee) - 1) * ONE < (TipCap(tx.extensions) + baseFee) * tx.gas <= Fee(tx, baseFee) * ONE
  {
    CeilIntIsCeiling((TipCap(tx.extensions) + baseFee) * tx.gas);
  }

  /** Gas limits above 10^18 do lose offers: one whole unit of fee is charged as nothing. */
  lemma {:induction false} LargeGasLosesOffer(gas: nat)
    requires gas > ONE
    ensures var tx := FeeTx(1, gas, []);
            Charges(tx, 0) && CapBinds(tx, 0) && Fee(tx, 0) == 0
  {
  }

  /** Under a tip cap the charge equals the offer exactly when the capped price still rounds up to it. */
  lemma {:induction false} TipBindingExactIff(tx: FeeTx, baseFee: Dec)
    requires Charges(tx, baseFee) && tx.fee >= 0 && !CapBinds(tx, baseFee)
    ensures Fee(tx, baseFee) == tx.fee <==> (TipCap(tx.extensions) + baseFee) * tx.gas > (tx.fee - 1) * ONE
  {
    var total := (TipCap(tx.extensions) + baseFee) * tx.gas;
    ChargeWithinBounds(tx, baseFee);
    CeilIntIsCeiling(total);
  }

  // ---------------------------------------------------------------------
  // The minimum gas price
  // ---------------------------------------------------------------------

  /** The fee the minimum gas price asks for. */
  function RequiredFee(minGasPrice: Dec, gas: nat): int {
    CeilInt(Mul(minGasPrice, gas * ONE))
  }

  datatype MinPriceResult = Passes | WrongDenom | FeeMissing | FeeTooLow

  /** Coins.IsAnyGTE against a list of at most one required coin. */
  predicate IsAnyGTE(coins: seq<Coin>, required: Option<Coin>) {
    && required.Some?
    && coins != []
    && ((coins[0].denom == required.value.denom && coins[0].amount >= required.value.amount && required.value.amount != 0)
        || IsAnyGTE(coins[1..], required))
  }

  /** MinGasPriceDecorator; None stands for nil fee coins. */
  function CheckMinGasPrice(fees: Option<seq<Coin>>, gas: nat, minGasPrice: Dec, evmDenom: string, bondDenom: string,
                            simulate: bool): MinPriceResult {
    var coins := if fees.Some? then fees.value else [];
    var validFees := coins == [] || (|coins| == 1 && (coins[0].denom == evmDenom || coins[0].denom == bondDenom));
    if !validFees && !simulate then WrongDenom
    else if minGasPrice == 0 || simulate then Passes
    else
      var fee := RequiredFee(minGasPrice, gas);
      var required := if fee > 0 then Some(Coin(evmDenom, fee)) else None;
      if fees.None? then FeeMissing
      else if !IsAnyGTE(coins, required) then FeeTooLow
      else Passes
  }

  lemma {:induction false} RequiredFeeIsCeiling(minGasPrice: Dec, gas: nat)
    ensures RequiredFee(minGasPrice, gas) == CeilInt(minGasPrice * gas)
    ensures RequiredFee(minGasPrice, gas) > 0 <==> minGasPrice > 0 && gas > 0
  {
    MulByInteger(minGasPrice, gas);
    var x := minGasPrice * gas;
    CeilIntIsCeiling(x);
    if minGasPrice > 0 && gas > 0 {
      assert x > 0;
    } else if minGasPrice <= 0 {
      assert x <= 0;
    }
  }

  /**
    With a non-zero minimum and outside simulation, exactly the transactions pass that pay
    one coin, in the EVM denomination, of at least ceil(minGasPrice * gas), for some gas at
    a positive price. In particular a gas limit of zero is refused.
  */
  lemma {:induction false} MinGasPricePassesIff(fees: Option<seq<Coin>>, gas: nat, minGasPrice: Dec, evmDenom: string, bondDenom: string)
    requires minGasPrice != 0
    ensures CheckMinGasPrice(fees, gas, minGasPrice, evmDenom, bondDenom, false) == Passes <==>
            && fees.Some? && |fees.value| == 1 && fees.value[0].denom == evmDenom
            && minGasPrice > 0 && gas > 0 && fees.value[0].amount >= CeilInt(minGasPrice * gas)
  {
    RequiredFeeIsCeiling(minGasPrice, gas);
    var fee := RequiredFee(minGasPrice, gas);
    if fees.Some? && |fees.value| == 1 && fee > 0 {
      assert fees.value == [fees.value[0]];
      OneCoinGTE(fees.value[0], Coin(evmDenom, fee));
    }
  }

  /** One coin at most, in the EVM or the bond denomination. */
  ghost predicate NativeFees(fees: Option<seq<Coin>>, evmDenom: string, bondDenom: string) {
    fees.Some? ==> |fees.value| <= 1 && forall i :: 0 <= i < |fees.value| ==> fees.value[i].denom in {evmDenom, bondDenom}
  }

  /** Simulation lets everything pass; otherwise fees must be native, and with a minimum set they must be given. */
  lemma {:induction false} MinGasPriceOutcomes(fees: Option<seq<Coin>>, gas: nat, minGasPrice: Dec, evmDenom: string,
                                               bondDenom: string, simulate: bool)
    ensures var r := CheckMinGasPrice(fees, gas, minGasPrice, evmDenom, bondDenom, simulate);
            && (simulate ==> r == Passes)
            && (r == WrongDenom <==> !simulate && !NativeFees(fees, evmDenom, bondDenom))
            && (r == FeeMissing <==> !simulate && minGasPrice != 0 && fees.None?)
            && (minGasPrice == 0 ==> (r == Passes <==> simulate || NativeFees(fees, evmDenom, bondDenom)))
  {
    if fees.Some? && |fees.value| == 1 {
      assert fees.value[0].denom in {evmDenom, bondDenom} <==> NativeFees(fees, evmDenom, bondDenom);
    }
  }

  lemma {:induction false} OneCoinGTE(c: Coin, required: Coin)
    ensures IsAnyGTE([c], Some(required)) <==>
            c.denom == required.denom && c.amount >= required.amount && required.amount != 0
  {
  }

  /** A base fee at or above the minimum makes the charge cover the minimum as well. */
  lemma {:induction false} ChargeCoversMinimum(tx: FeeTx, baseFee: Dec, minGasPrice: Dec)
    requires Charges(tx, baseFee) && baseFee >= minGasPrice
    ensures Fee(tx, baseFee) >= RequiredFee(minGasPrice, tx.gas)
  {
    var price := EffectivePrice(tx, baseFee);
    RequiredFeeIsCeiling(minGasPrice, tx.gas);
    MulMonotone(minGasPrice, price, tx.gas);
  }

  /** Below it, some transaction passes the minimum check and is charged less than the minimum. */
  lemma {:induction false} ChargeMayMissMinimum(baseFee: Dec, minGasPrice: Dec, denom: string)
    requires baseFee < minGasPrice && minGasPrice > 0
    ensures var tx := FeeTx(minGasPrice, ONE, [DynamicFee(None)]);
            && CheckMinGasPrice(Some([Coin(denom, tx.fee)]), tx.gas, minGasPrice, denom, denom, false) == Passes
            && Charges(tx, baseFee) && Fee(tx, baseFee) < RequiredFee(minGasPrice, tx.gas)
  {
  }

  /** Every charge covers the minimum if and only if the base fee is at least the minimum. */
  lemma {:induction false} MinimumCoveredIff(baseFee: Dec, minGasPrice: Dec)
    requires minGasPrice > 0
    ensures (forall tx :: Charges(tx, baseFee) ==> Fee(tx, baseFee) >= RequiredFee(minGasPrice, tx.gas)) <==>
            baseFee >= minGasPrice
  {
    if baseFee >= minGasPrice {
      forall tx | Charges(tx, baseFee) ensures Fee(tx, baseFee) >= RequiredFee(minGasPrice, tx.gas) {
        ChargeCoversMinimum(tx, baseFee, minGasPrice);
      }
    } else {
      ChargeMayMissMinimum(baseFee, minGasPrice, "");
    }
  }
}
