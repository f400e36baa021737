/** The burn fee model (`lemma-consensus/src/fee.rs`) and the balance and gas-price checks of
    mempool admission that make its fees payable (`lemma-mempool/src/validation.rs`). */
module Fees {
  import opened Primitives
  import opened Arithmetic

  const MIN_BASE_FEE: nat := 1_000_000_000
  const MAX_NONCE_GAP: nat := 64

  datatype AmountError = Overflow(lhs: nat, rhs: nat) | Underflow(low: nat, high: nat)

  /** The gas fields of a block header. */
  datatype GasHeader = GasHeader(gasLimit: nat, gasUsed: nat, baseFee: nat)

  /** `BlockHeader::validate`. */
  predicate Validated(h: GasHeader) { 0 < h.gasLimit && h.gasUsed <= h.gasLimit }

  predicate AboveTarget(h: GasHeader) { h.gasUsed > h.gasLimit / 2 }

  function FeeDelta(baseFee: nat, gasDiff: nat, target: nat): Result<nat, AmountError>
    requires target > 0
  {
    match CheckedMul(baseFee, gasDiff)
    case None => Err(Overflow(baseFee, gasDiff))
    case Some(n) => Ok(n / target / 8)
  }

  /** The base fee of the next block. */
  function NextBaseFee(h: GasHeader): Result<nat, AmountError> {
    var target := h.gasLimit / 2;
    if target == 0 then Ok(Max(h.baseFee, MIN_BASE_FEE))
    else if h.gasUsed == target then Ok(Max(h.baseFee, MIN_BASE_FEE))
    else if h.gasUsed > target then
      match FeeDelta(h.baseFee, h.gasUsed - target, target)
      case Err(e) => Err(e)
      case Ok(delta) =>
        match CheckedAdd(h.baseFee, Max(delta, 1))
        case None => Err(Overflow(h.baseFee, Max(delta, 1)))
        case Some(next) => Ok(Max(next, MIN_BASE_FEE))
    else
      match FeeDelta(h.baseFee, target - h.gasUsed, target)
      case Err(e) => Err(e)
      case Ok(delta) => Ok(Max(Max(h.baseFee - delta, 0), MIN_BASE_FEE))
  }

  /** A gas difference of at most the target moves the fee by at most an eighth. */
  lemma DeltaAtMostEighth(b: nat, diff: nat, target: nat)
    requires target > 0 && diff <= target
    ensures b * diff / target / 8 <= b / 8
  {
    MulMonotone(b, diff, target);
    QuotientMonotone(b * diff, b * target, target);
    QuotientExact(b, target);
  }

  lemma DeltaMonotone(b: nat, x: nat, y: nat, target: nat)
    requires target > 0 && x <= y
    ensures b * x / target / 8 <= b * y / target / 8
  {
    MulMonotone(b, x, y);
    QuotientMonotone(b * x, b * y, target);
  }

  /** For an even gas limit the next fee stays within an eighth of the old one (or one Drop
      above it), up to the floor, and the decrease is never clamped at zero. */
  lemma BaseFeeBand(h: GasHeader)
    requires Validated(h) && h.gasLimit >= 2 && h.gasLimit % 2 == 0 && NextBaseFee(h).Ok?
    ensures var next, b := NextBaseFee(h).value, h.baseFee;
            Max(MIN_BASE_FEE, b - b / 8) <= next <= Max(MIN_BASE_FEE, b + Max(b / 8, 1))
  {
    var target := h.gasLimit / 2;
    if h.gasUsed > target {
      DeltaAtMostEighth(h.baseFee, h.gasUsed - target, target);
    } else {
      DeltaAtMostEighth(h.baseFee, target - h.gasUsed, target);
    }
  }

  /** For an odd gas limit the target rounds down, so a full block may exceed the eighth: the
      rise is bounded by `b * (t + 1) / (8 * t)`. */
  lemma BaseFeeBandOdd(h: GasHeader)
    requires Validated(h) && h.gasLimit >= 3 && h.gasLimit % 2 == 1 && NextBaseFee(h).Ok?
    ensures var next, b, t := NextBaseFee(h).value, h.baseFee, h.gasLimit / 2;
            Max(MIN_BASE_FEE, b - b / 8) <= next <= Max(MIN_BASE_FEE, b + Max(b * (t + 1) / (8 * t), 1))
  {
    var b, t := h.baseFee, h.gasLimit / 2;
    QuotientTwice(b * (t + 1), t, 8);
    assert t * 8 == 8 * t;
    if h.gasUsed > t {
      DeltaMonotone(b, h.gasUsed - t, t + 1, t);
    } else {
      DeltaAtMostEighth(b, t - h.gasUsed, t);
    }
  }

  /** The documented band: an eighth either way, or one Drop up, above the floor. */
  ghost predicate InBand(h: GasHeader)
    requires NextBaseFee(h).Ok?
  {
    var next, b := NextBaseFee(h).value, h.baseFee;
    Max(MIN_BASE_FEE, b - b / 8) <= next <= Max(MIN_BASE_FEE, b + Max(b / 8, 1))
  }

  /** A full block on the odd limit `2 * t + 1` with a fee of at least `t` and 7 modulo 8. */
  lemma OddLimitExceeds(t: nat, b: nat)
    requires t > 0 && t <= b && b % 8 == 7 && MIN_BASE_FEE <= b && b * (t + 1) <= U128_MAX && 2 * b <= U128_MAX
    ensures var h := GasHeader(2 * t + 1, 2 * t + 1, b);
            Validated(h) && NextBaseFee(h).Ok? && !InBand(h)
  {
    var h := GasHeader(2 * t + 1, 2 * t + 1, b);
    assert h.gasLimit / 2 == t && h.gasUsed - t == t + 1;
    OneMore(t, b);
    DeltaAtMostDouble(b, t + 1, t);
    Exceeds(h, b * (t + 1) / t);
  }

  lemma OneMore(t: nat, b: nat)
    requires 0 < t <= b
    ensures b * (t + 1) / t >= b + 1
  {
    Distribute(b, t, 1);
    assert (b + 1) * t == b * t + t;
    QuotientMonotone((b + 1) * t, b * (t + 1), t);
    QuotientExact(b + 1, t);
  }

  lemma Exceeds(h: GasHeader, quotient: nat)
    requires h.baseFee % 8 == 7 && MIN_BASE_FEE <= h.baseFee && 2 * h.baseFee <= U128_MAX
    requires h.gasUsed > h.gasLimit / 2 > 0 && h.baseFee * OffTarget(h) <= U128_MAX
    requires quotient == h.baseFee * OffTarget(h) / (h.gasLimit / 2) && h.baseFee + 1 <= quotient <= 2 * h.baseFee
    ensures NextBaseFee(h).Ok? && !InBand(h)
  {
    assert NextBaseFee(h) == Ok(Max(h.baseFee + Max(quotient / 8, 1), MIN_BASE_FEE));
  }

  /** For a gas limit of at least 2 the documented band holds for every fullness and every fee if
      and only if the limit is even. */
  lemma BandIff(gasLimit: nat)
    requires 2 <= gasLimit <= U64_MAX
    ensures (forall h: GasHeader :: (h.gasLimit == gasLimit && Validated(h) && NextBaseFee(h).Ok?) ==> InBand(h))
            <==> gasLimit % 2 == 0
  {
    if gasLimit % 2 == 0 {
      forall h: GasHeader | h.gasLimit == gasLimit && Validated(h) && NextBaseFee(h).Ok? ensures InBand(h) {
        BaseFeeBand(h);
      }
    } else {
      var t, b := gasLimit / 2, 0x1_0000_0000_0000_0007;
      MulMonotone(b, t + 1, U64_MAX);
      OddLimitExceeds(t, b);
    }
  }

  /** An instance: a quarter more. */
  lemma OddLimitExceedsEighth()
    ensures var h := GasHeader(3, 3, 8_000_000_000);
            Validated(h) && NextBaseFee(h) == Ok(h.baseFee + h.baseFee / 4)
  {
  }

  /** The next fee to the Drop: the deviation from half the limit, in proportion, as an eighth of the
      fee, at least one Drop upwards, and never below a thousand million. */
  lemma BaseFeeExact(h: GasHeader)
    requires NextBaseFee(h).Ok?
    ensures var (next, b, t) := (NextBaseFee(h).value, h.baseFee, h.gasLimit / 2);
            if t == 0 then next == Max(b, 1_000_000_000)
            else if h.gasUsed > t then next == Max(b + Max(b * (h.gasUsed - t) / (8 * t), 1), 1_000_000_000)
            else next == Max(b - b * (t - h.gasUsed) / (8 * t), 1_000_000_000)
  {
    var b, t := h.baseFee, h.gasLimit / 2;
    if t > 0 {
      QuotientTwice(b * OffTarget(h), t, 8);
      assert t * 8 == 8 * t;
      if h.gasUsed <= t { DeltaAtMostEighth(b, t - h.gasUsed, t); }
    }
  }

  /** A fuller parent block never lowers the next fee. */
  lemma BaseFeeMonotone(h: GasHeader, more: nat)
    requires h.gasUsed <= more
    requires NextBaseFee(h).Ok? && NextBaseFee(h.(gasUsed := more)).Ok?
    ensures NextBaseFee(h).value <= NextBaseFee(h.(gasUsed := more)).value
  {
    var b, t := h.baseFee, h.gasLimit / 2;
    if t > 0 {
      if h.gasUsed > t {
        DeltaMonotone(b, h.gasUsed - t, more - t, t);
      } else if more < t {
        DeltaMonotone(b, t - more, t - h.gasUsed, t);
      }
    }
  }

  /** Above the target the fee strictly rises; below or at it, and not under the floor, it
      never rises. */
  lemma BaseFeeDirection(h: GasHeader)
    requires h.gasLimit >= 2 && NextBaseFee(h).Ok?
    ensures AboveTarget(h) ==> NextBaseFee(h).value > h.baseFee
    ensures !AboveTarget(h) && h.baseFee >= MIN_BASE_FEE ==> NextBaseFee(h).value <= h.baseFee
    ensures NextBaseFee(h).value >= MIN_BASE_FEE
  {
  }

  /** The gas used is off the target by this much. */
  function OffTarget(h: GasHeader): nat {
    if h.gasUsed > h.gasLimit / 2 then h.gasUsed - h.gasLimit / 2 else h.gasLimit / 2 - h.gasUsed
  }

  /** The calculation fails exactly when the product overflows, or above the target the raised fee
      does; on a validated header the latter needs a fee above four fifths of `u128`. */
  lemma BaseFeeDefinedIff(h: GasHeader)
    requires h.gasLimit >= 2 && h.baseFee <= U128_MAX
    ensures NextBaseFee(h).Ok?
            <==> && h.baseFee * OffTarget(h) <= U128_MAX
                 && (AboveTarget(h) ==>
                       h.baseFee + Max(h.baseFee * OffTarget(h) / (8 * (h.gasLimit / 2)), 1) <= U128_MAX)
    ensures h.baseFee * OffTarget(h) > U128_MAX ==> NextBaseFee(h) == Err(Overflow(h.baseFee, OffTarget(h)))
    ensures NextBaseFee(h).Err? && h.baseFee * OffTarget(h) <= U128_MAX ==>
              NextBaseFee(h).error
              == Overflow(h.baseFee, Max(h.baseFee * OffTarget(h) / (8 * (h.gasLimit / 2)), 1))
    ensures Validated(h) && 5 * h.baseFee <= 4 * U128_MAX ==>
              (NextBaseFee(h).Ok? <==> h.baseFee * OffTarget(h) <= U128_MAX)
  {
    var b, t, off := h.baseFee, h.gasLimit / 2, OffTarget(h);
    QuotientTwice(b * off, t, 8);
    assert t * 8 == 8 * t;
    if Validated(h) { DeltaAtMostDouble(b, off, t); }
  }

  lemma DeltaAtMostDouble(b: nat, diff: nat, t: nat)
    requires t > 0 && diff <= 2 * t
    ensures b * diff / t <= 2 * b
  {
    MulMonotone(b, diff, 2 * t);
    Reassociate(2, b, t);
    QuotientMonotone(b * diff, 2 * b * t, t);
    QuotientExact(2 * b, t);
  }

  // ---- fee distribution and admission ------------------------------------------------

  datatype FeeDistribution = FeeDistribution(burned: nat, toProposer: nat)

  function DistributeFee(gasUsed: nat, baseFee: nat, gasPrice: nat): Result<FeeDistribution, AmountError> {
    match CheckedSub(gasPrice, baseFee)
    case None => Err(Underflow(gasPrice, baseFee))
    case Some(tip) =>
      match CheckedMul(baseFee, gasUsed)
      case None => Err(Overflow(baseFee, gasUsed))
      case Some(burned) =>
        match CheckedMul(tip, gasUsed)
        case None => Err(Overflow(tip, gasUsed))
        case Some(toProposer) => Ok(FeeDistribution(burned, toProposer))
  }

  /** The split succeeds exactly when the price covers the base fee and both products fit; then the
      base fee of the gas used is burned and the rest of the price goes to the proposer. */
  lemma DistributeFeeIff(gasUsed: nat, baseFee: nat, gasPrice: nat)
    ensures DistributeFee(gasUsed, baseFee, gasPrice).Ok?
            <==> baseFee <= gasPrice && baseFee * gasUsed <= U128_MAX && (gasPrice - baseFee) * gasUsed <= U128_MAX
    ensures var fee := DistributeFee(gasUsed, baseFee, gasPrice);
            fee.Ok? ==> fee.value.burned == baseFee * gasUsed
                        && fee.value.burned + fee.value.toProposer == gasPrice * gasUsed
  {
    if baseFee <= gasPrice {
      assert gasPrice * gasUsed == baseFee * gasUsed + (gasPrice - baseFee) * gasUsed;
    }
  }

  datatype AdmissionError =
    | NonceTooLow(txNonce: nat, accountNonce: nat)
    | NonceGapTooLarge(txNonce: nat, accountNonce: nat, maxGap: nat)
    | InsufficientBalance(required: nat, available: nat)
    | GasPriceTooLow(provided: nat, baseFee: nat)

  function ValidateNonce(txNonce: nat, accountNonce: nat): Result<(), AdmissionError> {
    if txNonce < accountNonce then Err(NonceTooLow(txNonce, accountNonce))
    else if txNonce - accountNonce > MAX_NONCE_GAP then Err(NonceGapTooLarge(txNonce, accountNonce, MAX_NONCE_GAP))
    else Ok(())
  }

  function ValidateBalance(gasLimit: nat, gasPrice: nat, value: nat, balance: nat): Result<(), AdmissionError> {
    match CheckedMul(gasPrice, gasLimit)
    case None => Err(InsufficientBalance(U128_MAX, balance))
    case Some(gasCost) =>
      match CheckedAdd(gasCost, value)
      case None => Err(InsufficientBalance(U128_MAX, balance))
      case Some(total) => if balance < total then Err(InsufficientBalance(total, balance)) else Ok(())
  }

  function ValidateGasPrice(gasPrice: nat, baseFee: nat): Result<(), AdmissionError> {
    if gasPrice < baseFee then Err(GasPriceTooLow(gasPrice, baseFee)) else Ok(())
  }

  /** On real balances the balance check is the exact inequality, overflow included. */
  lemma BalanceCheckExact(gasLimit: nat, gasPrice: nat, value: nat, balance: nat)
    requires balance <= U128_MAX
    ensures ValidateBalance(gasLimit, gasPrice, value, balance).Ok? <==> gasPrice * gasLimit + value <= balance
  {
  }

  /** An admitted transaction that ran: what admission saw and what execution used. */
  datatype Paid = Paid(gasLimit: nat, gasPrice: nat, value: nat, balance: nat, gasUsed: nat)

  ghost predicate PassedAdmission(p: Paid, baseFee: nat) {
    && ValidateBalance(p.gasLimit, p.gasPrice, p.value, p.balance).Ok?
    && ValidateGasPrice(p.gasPrice, baseFee).Ok?
    && p.gasUsed <= p.gasLimit
  }

  /** Admission implies that the fee can be split, exactly and within the checked balance. */
  lemma AdmissionImpliesPayable(p: Paid, baseFee: nat)
    requires PassedAdmission(p, baseFee)
    ensures var fee := DistributeFee(p.gasUsed, baseFee, p.gasPrice);
            && fee.Ok?
            && fee.value.burned == baseFee * p.gasUsed
            && fee.value.burned + fee.value.toProposer == p.gasPrice * p.gasUsed
            && fee.value.burned + fee.value.toProposer + p.value <= p.balance
  {
    var tip := p.gasPrice - baseFee;
    MulMonotone(p.gasPrice, p.gasUsed, p.gasLimit);
    assert baseFee * p.gasUsed + tip * p.gasUsed == p.gasPrice * p.gasUsed;
  }

  /** The totals of a block: burned, tips, transferred value and checked balances. */
  datatype BlockTotals = BlockTotals(burned: nat, tips: nat, gasCost: nat, value: nat, balance: nat)

  function TotalsOf(block: seq<Paid>, baseFee: nat): BlockTotals {
    if block == [] then BlockTotals(0, 0, 0, 0, 0) else
      var rest, p := TotalsOf(block[1..], baseFee), block[0];
      var fee := DistributeFee(p.gasUsed, baseFee, p.gasPrice);
      BlockTotals(rest.burned + (if fee.Ok? then fee.value.burned else 0),
                  rest.tips + (if fee.Ok? then fee.value.toProposer else 0),
                  rest.gasCost + p.gasPrice * p.gasUsed, rest.value + p.value, rest.balance + p.balance)
  }

  function GasUsed(block: seq<Paid>): nat { if block == [] then 0 else block[0].gasUsed + GasUsed(block[1..]) }

  /** Block-wide: every Drop of gas cost is either burned or tipped, the base fee of all gas is burned,
      and costs plus transfers stay within the checked balances. */
  lemma {:induction false} BlockFeesConserved(block: seq<Paid>, baseFee: nat)
    requires forall p :: p in block ==> PassedAdmission(p, baseFee)
    ensures var t := TotalsOf(block, baseFee);
            && t.burned == baseFee * GasUsed(block)
            && t.burned + t.tips == t.gasCost && t.gasCost + t.value <= t.balance
  {
    if block != [] {
      AdmissionImpliesPayable(block[0], baseFee);
      BlockFeesConserved(block[1..], baseFee);
      Distribute(baseFee, block[0].gasUsed, GasUsed(block[1..]));
    }
  }
}
