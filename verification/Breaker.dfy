/** Load tiers (`lemma-mempool/src/circuit_breaker.rs`) and stake-weighted priority
    (`lemma-mempool/src/qos.rs`). */
module Breaker {
  import opened Primitives
  import opened Arithmetic

  datatype TxType = Transfer | ContractCall | ContractDeploy | Stake | Unstake | GovernanceVote

  datatype NetworkTier = Normal | Busy | Critical | Emergency

  function FromLoad(pending: nat, capacity: nat): NetworkTier {
    if capacity == 0 then Emergency else
      var percent := SatMul64(pending, 100) / capacity;
      if percent < 70 then Normal
      else if percent < 90 then Busy
      else if percent < 100 then Critical
      else Emergency
  }

  predicate Admits(tier: NetworkTier, t: TxType) {
    match tier
    case Normal => true
    case Busy => !t.ContractDeploy?
    case Critical => t.Transfer? || t.Stake? || t.Unstake? || t.GovernanceVote?
    case Emergency => t.Stake? || t.Unstake?
  }

  function Severity(tier: NetworkTier): nat {
    match tier
    case Normal => 0
    case Busy => 1
    case Critical => 2
    case Emergency => 3
  }

  /** More load never admits more. */
  lemma LoadOnlySheds(pending: nat, more: nat, capacity: nat, t: TxType)
    requires pending <= more
    ensures Severity(FromLoad(pending, capacity)) <= Severity(FromLoad(more, capacity))
    ensures Admits(FromLoad(more, capacity), t) ==> Admits(FromLoad(pending, capacity), t)
  {
    if capacity > 0 {
      QuotientMonotone(SatMul64(pending, 100), SatMul64(more, 100), capacity);
    }
  }

  /** The Emergency tier is exactly a full pool, for every load up to the capacity, if and only
      if the percentage of the capacity does not saturate. */
  lemma EmergencyIsFullIff(capacity: nat)
    requires capacity <= U64_MAX
    ensures (forall pending: nat :: pending <= capacity ==>
                (FromLoad(pending, capacity) == Emergency <==> pending == capacity))
            <==> 100 * capacity <= U64_MAX
  {
    if capacity > 0 {
      if 100 * capacity <= U64_MAX {
        forall pending: nat | pending <= capacity
          ensures FromLoad(pending, capacity) == Emergency <==> pending == capacity
        {
          Floor(pending * 100, capacity);
          QuotientExact(100, capacity);
          if pending < capacity {
            MulMonotone(100, pending + 1, capacity);
            BelowHundred(pending, capacity);
          }
        }
      } else {
        BelowHundredSaturated(capacity);
        assert FromLoad(capacity, capacity) != Emergency;
      }
    }
  }

  lemma BelowHundred(pending: nat, capacity: nat)
    requires pending < capacity
    ensures pending * 100 / capacity < 100
  {
    var q := pending * 100 / capacity;
    Floor(pending * 100, capacity);
    if q >= 100 {
      MulMonotone(capacity, 100, q);
    }
  }

  lemma BelowHundredSaturated(capacity: nat)
    requires 0 < capacity && U64_MAX < 100 * capacity
    ensures U64_MAX / capacity < 100
  {
    var q := U64_MAX / capacity;
    Floor(U64_MAX, capacity);
    if q >= 100 {
      MulMonotone(capacity, 100, q);
    }
  }

  /** A hundred times the load, as far as `u64` goes. */
  function Load(pending: nat): nat { Min(100 * pending, 0xFFFF_FFFF_FFFF_FFFF) }

  /** The load at which each tier begins. */
  lemma TierByLoad(pending: nat, capacity: nat)
    requires capacity > 0
    ensures FromLoad(pending, capacity) == Normal <==> Load(pending) < 70 * capacity
    ensures FromLoad(pending, capacity) == Busy <==> 70 * capacity <= Load(pending) < 90 * capacity
    ensures FromLoad(pending, capacity) == Critical <==> 90 * capacity <= Load(pending) < 100 * capacity
    ensures FromLoad(pending, capacity) == Emergency <==> 100 * capacity <= Load(pending)
  {
    PercentBelow(Load(pending), capacity, 70);
    PercentBelow(Load(pending), capacity, 90);
    PercentBelow(Load(pending), capacity, 100);
  }

  lemma PercentBelow(load: nat, capacity: nat, limit: nat)
    requires capacity > 0
    ensures load / capacity < limit <==> load < limit * capacity
  {
    var q := load / capacity;
    Floor(load, capacity);
    if q < limit { MulMonotone(capacity, q + 1, limit); } else { MulMonotone(capacity, limit, q); }
  }

  /** Below which load a transaction type is admitted: deployments below 70 %, calls below 90 %,
      transfers and votes below a full pool, staking always. */
  predicate AdmittedAt(t: TxType, pending: nat, capacity: nat) {
    match t
    case ContractDeploy => Load(pending) < 70 * capacity
    case ContractCall => Load(pending) < 90 * capacity
    case Transfer => Load(pending) < 100 * capacity
    case GovernanceVote => Load(pending) < 100 * capacity
    case Stake => true
    case Unstake => true
  }

  lemma AdmittedAtIff(t: TxType, pending: nat, capacity: nat)
    ensures Admits(FromLoad(pending, capacity), t) <==> AdmittedAt(t, pending, capacity)
  {
    if capacity > 0 { TierByLoad(pending, capacity); }
  }

  // ---- priority ----------------------------------------------------------------------

  const STAKE_UNIT: nat := 1_000_000_000_000_000_000
  const MAX_STAKE_BONUS: nat := 1_000_000

  function StakeBonus(stake: nat): nat { Min(Min(stake / STAKE_UNIT, U64_MAX), MAX_STAKE_BONUS) }

  function PriorityScore(gasPrice: nat, stake: nat): nat {
    SatAdd64(Min(gasPrice, U64_MAX), StakeBonus(stake))
  }

  /** The saturations come to one: the price plus one point per whole token staked, at most a
      million of them, capped at the largest `u64`. */
  lemma PriorityExact(gasPrice: nat, stake: nat)
    ensures PriorityScore(gasPrice, stake)
            == Min(gasPrice + Min(stake / 1_000_000_000_000_000_000, 1_000_000), 0xFFFF_FFFF_FFFF_FFFF)
  {
  }

  /** Priority rises with price and with stake, and no stake is worth more than the cap. */
  lemma PriorityMonotone(price: nat, more: nat, stake: nat, staked: nat)
    requires price <= more && stake <= staked
    ensures PriorityScore(price, stake) <= PriorityScore(more, staked) <= U64_MAX
    ensures price + MAX_STAKE_BONUS <= more <= U64_MAX ==> PriorityScore(price, staked) <= PriorityScore(more, stake)
  {
    QuotientMonotone(stake, staked, STAKE_UNIT);
  }
}
