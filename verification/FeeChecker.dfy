/** The EIP-1559 fee check of Cosmos txs in 18-decimal fixed point (ante/evm/fee_checker.go). */
module FeeChecker {
  import opened Common

  /** A LegacyDec is an integer number of 10^-18ths. */
  type Dec = int

  const ONE: Dec := 1_000_000_000_000_000_000

  const MAX_INT64: int := 0x7fff_ffff_ffff_ffff

  /** An extension option; a dynamic-fee option may leave its tip cap out. */
  datatype ExtOption = DynamicFee(maxPriorityPrice: Option<Dec>) | OtherOption

  /** A fee tx: the fee in the EVM denomination, the gas limit, the extension options. */
  datatype FeeTx = FeeTx(fee: nat, gas: nat, options: seq<ExtOption>)

  datatype Result = Charged(fee: nat, priority: int) | NegativeTip | ZeroGas | GasPriceTooLow

  /** The tip cap: the first dynamic-fee option's, 0 when that leaves it out, MaxInt64 without such an option. */
  function TipCap(options: seq<ExtOption>): Dec {
    if options == [] then MAX_INT64 * ONE
    else if options[0].DynamicFee? then
      if options[0].maxPriorityPrice.Some? then options[0].maxPriorityPrice.value else 0
    else TipCap(options[1..])
  }

  /** feeAmtDec.QuoInt(gas), truncated at the 18th decimal. */
  function FeeCap(tx: FeeTx): Dec
    requires tx.gas > 0
  {
    tx.fee * ONE / tx.gas
  }

  function Min(a: int, b: int): int { if a < b then a else b }

  /** effectiveGasPriceLegacyDec. */
  function EffectivePrice(baseFee: Dec, feeCap: Dec, tipCap: Dec): Dec { Min(tipCap + baseFee, feeCap) }

  /** Dec.Ceil().RoundInt() of a non-negative decimal. */
  function CeilInt(d: Dec): int
    requires d >= 0
  {
    if d % ONE == 0 then d / ONE else d / ONE + 1
  }

  /** The least whole amount that is at least d. */
  lemma CeilIsLeast(d: Dec, n: int)
    requires d >= 0
    ensures CeilInt(d) * ONE >= d && (n * ONE >= d <==> n >= CeilInt(d))
  {
  }

  /** FeeChecker once the London fork is active; `reduction` is the priority reduction. */
  method CheckFee(baseFee: Option<nat>, baseFeeEnabled: bool, reduction: nat, tx: FeeTx) returns (r: Result)
    requires reduction > 0
    ensures var base := if baseFee.None? || !baseFeeEnabled then 0 else baseFee.value;
            r == Outcome(base, reduction, tx)
  {
    var base: Dec := if baseFee.None? || !baseFeeEnabled then 0 else baseFee.value;
    var tipCap := MAX_INT64 * ONE;
    var i := 0;
    while i < |tx.options|
      invariant 0 <= i <= |tx.options|
      invariant tipCap == MAX_INT64 * ONE && TipCap(tx.options[i..]) == TipCap(tx.options)
    {
      if tx.options[i].DynamicFee? {
        tipCap := if tx.options[i].maxPriorityPrice.Some? then tx.options[i].maxPriorityPrice.value else 0;
        break;
      }
      assert tx.options[i..][1..] == tx.options[i + 1..];
      i := i + 1;
    }
    assert tipCap == TipCap(tx.options);
    if tipCap < 0 {
      return NegativeTip;
    }
    if tx.gas == 0 {
      return ZeroGas;
    }
    var feeCap := tx.fee * ONE / tx.gas;
    if feeCap < base {
      return GasPriceTooLow;
    }
    var effective := EffectivePrice(base, feeCap, tipCap);
    NonNegativeProduct(effective, tx.gas);
    var priority := (effective - base) / reduction / ONE;
    return Charged(CeilInt(effective * tx.gas), if priority <= MAX_INT64 then priority else MAX_INT64);
  }

  lemma NonNegativeProduct(a: int, b: int)
    requires a >= 0 && b >= 0
    ensures a * b >= 0
  {
  }

  /** What the check decides for a tx at the given base fee. */
  function Outcome(base: Dec, reduction: nat, tx: FeeTx): (r: Result)
    requires base >= 0 && reduction > 0
  {
    var tipCap := TipCap(tx.options);
    if tipCap < 0 then NegativeTip
    else if tx.gas == 0 then ZeroGas
    else if FeeCap(tx) < base then GasPriceTooLow
    else
      var effective := EffectivePrice(base, FeeCap(tx), tipCap);
      NonNegativeProduct(effective, tx.gas);
      Charged(CeilInt(effective * tx.gas), Min((effective - base) / reduction / ONE, MAX_INT64))
  }

  // --- What is charged ---

  lemma DivisionBounds(a: nat, b: nat)
    requires b > 0
    ensures a / b * b <= a < a / b * b + b && a == a / b * b + a % b
  {
  }

  lemma ProductOrder(a: int, b: int, g: nat)
    requires a <= b
    ensures a * g <= b * g
  {
  }

  /** Despite the truncation, a tx is turned away exactly when its fee is below base fee times gas. */
  lemma AcceptedIff(base: Dec, reduction: nat, tx: FeeTx)
    requires base >= 0 && reduction > 0
    ensures Outcome(base, reduction, tx).Charged? <==>
            TipCap(tx.options) >= 0 && tx.gas > 0 && tx.fee * ONE >= base * tx.gas
  {
    if tx.gas > 0 {
      DivisionBounds(tx.fee * ONE, tx.gas);
      if FeeCap(tx) >= base {
        ProductOrder(base, FeeCap(tx), tx.gas);
      } else {
        ProductOrder(FeeCap(tx) + 1, base, tx.gas);
        assert (FeeCap(tx) + 1) * tx.gas == FeeCap(tx) * tx.gas + tx.gas;
      }
    }
  }

  /** An accepted tx pays at least base fee times gas, rounded up, and never more than it declared. */
  lemma ChargeWithinBounds(base: Dec, reduction: nat, tx: FeeTx)
    requires base >= 0 && reduction > 0 && Outcome(base, reduction, tx).Charged?
    ensures base * tx.gas >= 0 && CeilInt(base * tx.gas) <= Outcome(base, reduction, tx).fee <= tx.fee
    ensures 0 <= Outcome(base, reduction, tx).priority <= MAX_INT64
  {
    hide TipCap;
    var effective := EffectivePrice(base, FeeCap(tx), TipCap(tx.options));
    NonNegativeProduct(base, tx.gas);
    NonNegativeProduct(effective, tx.gas);
    ProductOrder(base, effective, tx.gas);
    ProductOrder(effective, FeeCap(tx), tx.gas);
    DivisionBounds(tx.fee * ONE, tx.gas);
    CeilIsLeast(base * tx.gas, CeilInt(effective * tx.gas));
    CeilIsLeast(effective * tx.gas, CeilInt(effective * tx.gas));
    CeilIsLeast(effective * tx.gas, tx.fee);
  }

  /**
   * What an accepted tx owes, in 10^-18ths: tip-capped price times gas, or the declared fee less what
   * truncating its price lost.
   */
  function Owed(base: Dec, tx: FeeTx): Dec
    requires tx.gas > 0
  {
    Min((TipCap(tx.options) + base) * tx.gas, tx.fee * ONE - tx.fee * ONE % tx.gas)
  }

  lemma OwedIsPriceTimesGas(base: Dec, tx: FeeTx)
    requires tx.gas > 0
    ensures EffectivePrice(base, FeeCap(tx), TipCap(tx.options)) * tx.gas == Owed(base, tx)
  {
    hide TipCap;
    var capped := TipCap(tx.options) + base;
    DivisionBounds(tx.fee * ONE, tx.gas);
    if capped < FeeCap(tx) {
      ProductOrder(capped, FeeCap(tx), tx.gas);
    } else {
      ProductOrder(FeeCap(tx), capped, tx.gas);
    }
  }

  /** The charge is the least whole amount that covers what is owed. */
  lemma ChargeIsLeast(base: Dec, reduction: nat, tx: FeeTx, n: int)
    requires base >= 0 && reduction > 0 && Outcome(base, reduction, tx).Charged?
    ensures n * ONE >= Owed(base, tx) <==> n >= Outcome(base, reduction, tx).fee
  {
    hide TipCap, FeeCap, Owed, CeilInt;
    var effective := EffectivePrice(base, FeeCap(tx), TipCap(tx.options));
    OwedIsPriceTimesGas(base, tx);
    NonNegativeProduct(effective, tx.gas);
    CeilIsLeast(effective * tx.gas, n);
  }

  /** An accepted tx is charged exactly what it declared iff one unit less would not cover what it owes. */
  lemma FullFeeIff(base: Dec, reduction: nat, tx: FeeTx)
    requires base >= 0 && reduction > 0 && Outcome(base, reduction, tx).Charged?
    ensures Outcome(base, reduction, tx).fee == tx.fee <==>
              (tx.fee - 1) * ONE < Min((TipCap(tx.options) + base) * tx.gas, tx.fee * ONE - tx.fee * ONE % tx.gas)
  {
    hide TipCap, Outcome;
    ChargeIsLeast(base, reduction, tx, tx.fee - 1);
    ChargeWithinBounds(base, reduction, tx);
  }

  /** So it is whenever the tip cap does not bind and the gas is at most 10^18. */
  lemma FullFeeForUsualGas(base: Dec, reduction: nat, tx: FeeTx)
    requires base >= 0 && reduction > 0 && Outcome(base, reduction, tx).Charged?
    requires TipCap(tx.options) + base >= FeeCap(tx) && tx.gas <= ONE
    ensures Outcome(base, reduction, tx).fee == tx.fee
  {
    hide TipCap, Outcome, CeilInt;
    AcceptedIff(base, reduction, tx);
    FullFeeIff(base, reduction, tx);
    DivisionBounds(tx.fee * ONE, tx.gas);
    ProductOrder(FeeCap(tx), TipCap(tx.options) + base, tx.gas);
  }

  // --- The same by the extension options themselves ---

  ghost predicate IsFirstDynamic(options: seq<ExtOption>, i: nat) {
    i < |options| && options[i].DynamicFee? && forall j :: 0 <= j < i ==> !options[j].DynamicFee?
  }

  lemma {:induction false} TipCapIs(options: seq<ExtOption>, i: nat)
    ensures (forall o | o in options :: !o.DynamicFee?) ==> TipCap(options) == MAX_INT64 * ONE
    ensures IsFirstDynamic(options, i) ==>
              var price := options[i].maxPriorityPrice;
              TipCap(options) == if price.Some? then price.value else 0
  {
    if options != [] {
      assert options[0] in options;
      if i > 0 {
        TipCapIs(options[1..], i - 1);
      } else {
        TipCapIs(options[1..], 0);
      }
    }
  }

  /**
   * Without a dynamic-fee option a tx is accepted exactly when its fee covers base fee times gas, and is
   * then charged all of it, given gas of at most 10^18 and a price of at most MaxInt64 above the base fee.
   */
  lemma NoDynamicOption(base: Dec, reduction: nat, tx: FeeTx)
    requires base >= 0 && reduction > 0
    requires forall o | o in tx.options :: !o.DynamicFee?
    ensures var r := Outcome(base, reduction, tx);
            && (r.Charged? <==> tx.gas > 0 && tx.fee * ONE >= base * tx.gas)
            && (r.Charged? && tx.gas <= ONE && tx.fee * ONE / tx.gas <= base + MAX_INT64 * ONE ==> r.fee == tx.fee)
  {
    hide TipCap, Outcome;
    TipCapIs(tx.options, 0);
    AcceptedIff(base, reduction, tx);
    var r := Outcome(base, reduction, tx);
    if r.Charged? && tx.gas <= ONE && FeeCap(tx) <= base + MAX_INT64 * ONE {
      FullFeeForUsualGas(base, reduction, tx);
    }
  }

  /**
   * With dynamic-fee options the first one counts, its price 0 when left out: negative it is the error;
   * otherwise it and the declared fee, less truncation, bound what is owed, and the tip it allows, in
   * whole units over the reduction, is the priority.
   */
  lemma FirstDynamicOption(base: Dec, reduction: nat, tx: FeeTx, i: nat, n: int)
    requires base >= 0 && reduction > 0 && IsFirstDynamic(tx.options, i)
    ensures var cap := tx.options[i].maxPriorityPrice;
            var price := if cap.Some? then cap.value else 0;
            var r := Outcome(base, reduction, tx);
            && (r == NegativeTip <==> price < 0)
            && (r.Charged? <==> price >= 0 && tx.gas > 0 && tx.fee * ONE >= base * tx.gas)
            && (r.Charged? ==>
                  var owed := Min((price + base) * tx.gas, tx.fee * ONE - tx.fee * ONE % tx.gas);
                  var tip := Min(price, tx.fee * ONE / tx.gas - base);
                  && (n * ONE >= owed <==> n >= r.fee)
                  && r.priority * (reduction * ONE) <= tip
                  && (r.priority < MAX_INT64 ==> tip < (r.priority + 1) * (reduction * ONE)))
  {
    hide TipCap, CeilInt;
    TipCapIs(tx.options, i);
    AcceptedIff(base, reduction, tx);
    if Outcome(base, reduction, tx).Charged? {
      hide Outcome;
      ChargeIsLeast(base, reduction, tx, n);
      PriorityIsReducedTip(base, reduction, tx);
    }
  }

  /** The full fee is not always charged: with gas 3 * 10^18 and fee 2 the truncated price pays nothing back. */
  lemma LargeGasPaysLess()
    ensures Outcome(0, 1, FeeTx(2, 3 * ONE, [])).Charged? && Outcome(0, 1, FeeTx(2, 3 * ONE, [])).fee == 0
  {
    assert FeeCap(FeeTx(2, 3 * ONE, [])) == 0;
  }

  lemma Reassociate(a: int, b: int, c: int)
    ensures a * b * c == a * (c * b)
  {
  }

  /** Truncating twice is truncating once. */
  lemma NestedFloor(t: nat, r: nat)
    requires r > 0
    ensures var p := t / r / ONE; p * (r * ONE) <= t < (p + 1) * (r * ONE)
  {
    var q := t / r;
    var p := q / ONE;
    DivisionBounds(t, r);
    DivisionBounds(q, ONE);
    ProductOrder(p * ONE, q, r);
    ProductOrder(q + 1, (p + 1) * ONE, r);
    Reassociate(p, ONE, r);
    Reassociate(p + 1, ONE, r);
    assert (q + 1) * r == q * r + r;
  }

  /** The priority is the effective tip in whole units over the reduction, rounded down, up to MaxInt64. */
  lemma PriorityIsReducedTip(base: Dec, reduction: nat, tx: FeeTx)
    requires base >= 0 && reduction > 0 && Outcome(base, reduction, tx).Charged?
    ensures var tip := EffectivePrice(base, FeeCap(tx), TipCap(tx.options)) - base;
            var p := Outcome(base, reduction, tx).priority;
            && p * (reduction * ONE) <= tip
            && (p < MAX_INT64 ==> tip < (p + 1) * (reduction * ONE))
  {
    hide TipCap, FeeCap;
    var tip := EffectivePrice(base, FeeCap(tx), TipCap(tx.options)) - base;
    NestedFloor(tip, reduction);
    ProductOrder(Outcome(base, reduction, tx).priority, tip / reduction / ONE, reduction * ONE);
  }
}
