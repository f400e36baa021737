/** Epoch inflation and proportional reward distribution: `lemma-consensus/src/rewards.rs`. */
module Rewards {
  import opened Primitives
  import opened Ordered
  import opened Weights
  import opened Committee
  import opened Arithmetic

  const DROPS_PER_DRIP: nat := 1_000_000_000
  const EPOCHS_PER_YEAR: nat := 365
  const INFLATION_SCHEDULE_BPS: seq<nat> := [200, 170, 140, 120, 100, 80]

  datatype RewardError = InflationOverflow | DistributionOverflow(address: Address) | RemainderUnderflow

  datatype RewardOutcome = RewardOutcome(distributed: nat, burnedRemainder: nat)

  function RateBps(epoch: nat): nat {
    INFLATION_SCHEDULE_BPS[Min(epoch / EPOCHS_PER_YEAR, 5)]
  }

  function EpochInflation(supply: nat, epoch: nat): Result<nat, RewardError> {
    match CheckedMul(supply, RateBps(epoch))
    case None => Err(InflationOverflow)
    case Some(product) => Ok(product / 10_000 / EPOCHS_PER_YEAR)
  }

  /** Two per cent a year at first, less every year of 365 epochs, 0.8 per cent from the sixth year on. */
  lemma ScheduleExact(epoch: nat)
    ensures RateBps(epoch) == if epoch < 365 then 200 else if epoch < 730 then 170 else if epoch < 1095 then 140
                              else if epoch < 1460 then 120 else if epoch < 1825 then 100 else 80
  {
    var year := epoch / EPOCHS_PER_YEAR;
    assert 365 * year <= epoch < 365 * year + 365;
  }

  /** The two roundings lose no more than one: the mint is the exact yearly rate per epoch
      rounded down once, it never grows with the epoch, and it fails only on overflow. */
  lemma InflationExact(supply: nat, epoch: nat, later: nat)
    requires epoch <= later
    ensures EpochInflation(supply, epoch).Ok? <==> supply * RateBps(epoch) <= U128_MAX
    ensures EpochInflation(supply, epoch).Ok? ==>
              && EpochInflation(supply, epoch).value == supply * RateBps(epoch) / 3_650_000
              && EpochInflation(supply, later).Ok?
              && EpochInflation(supply, later).value <= EpochInflation(supply, epoch).value
              && 18_250 * EpochInflation(supply, epoch).value <= supply
  {
    assert RateBps(later) <= RateBps(epoch) <= 200;
    MulMonotone(supply, RateBps(later), RateBps(epoch));
    MulMonotone(supply, RateBps(epoch), 200);
  }

  // ---- the share arithmetic ----------------------------------------------------------

  function Drips(drops: nat): nat { drops / DROPS_PER_DRIP }

  function ShareDrip(poolDrip: nat, powerDrip: nat, totalDrip: nat): nat
    requires totalDrip > 0
  {
    poolDrip * powerDrip / totalDrip
  }

  function PowerDrips(vset: ValidatorSet): map<Address, nat> {
    map a | a in vset.members :: Drips(vset.members[a].power)
  }

  /** Each member's share in whole Drips. */
  function ShareDrips(power: map<Address, nat>, poolDrip: nat, totalDrip: nat): map<Address, nat>
    requires totalDrip > 0
  {
    map a | a in power :: ShareDrip(poolDrip, power[a], totalDrip)
  }

  /** Each member's share in Drops. */
  function Shares(vset: ValidatorSet, pool: nat): (shares: map<Address, nat>)
    requires Drips(vset.totalPower) > 0
    ensures shares.Keys == vset.members.Keys
  {
    map a | a in vset.members
      :: ShareDrip(Drips(pool), Drips(vset.members[a].power), Drips(vset.totalPower)) * DROPS_PER_DRIP
  }

  /** A share is a whole number of Drips, the largest that is within the member's proportion. */
  lemma ShareIsLargest(vset: ValidatorSet, pool: nat, a: Address) returns (share: nat)
    requires Drips(vset.totalPower) > 0 && a in vset.members
    ensures Shares(vset, pool)[a] == share * 1_000_000_000
    ensures var (x, total) := (pool / 1_000_000_000 * (vset.members[a].power / 1_000_000_000),
                               vset.totalPower / 1_000_000_000);
            share * total <= x < (share + 1) * total
  {
    share := LargestWithin(Drips(pool) * Drips(vset.members[a].power), Drips(vset.totalPower));
  }

  lemma LargestWithin(x: nat, total: nat) returns (q: nat)
    requires total > 0
    ensures q == x / total && q * total <= x < (q + 1) * total
  {
    q := x / total;
    Floor(x, total);
  }

  /** `paid` is the proportion `pool * power / total` rounded down `n` times. */
  ghost predicate NearProportion(paid: nat, power: nat, pool: nat, total: nat, n: nat) {
    total > 0 && paid * total <= pool * power <= paid * total + n * (total - 1)
  }

  lemma FloorNear(pool: nat, power: nat, total: nat)
    requires total > 0
    ensures NearProportion(ShareDrip(pool, power, total), power, pool, total, 1)
  {
    Floor(pool * power, total);
  }

  lemma ProportionStep(share: nat, px: nat, rest: nat, p: nat, pool: nat, total: nat, n: nat)
    requires NearProportion(share, px, pool, total, 1) && NearProportion(rest, p, pool, total, n)
    ensures NearProportion(share + rest, px + p, pool, total, n + 1)
  {
    assert (share + rest) * total == share * total + rest * total;
    assert pool * (px + p) == pool * px + pool * p;
    assert (n + 1) * (total - 1) == n * (total - 1) + (total - 1);
  }

  /** The shares of `s` differ from the exact proportion by less than one Drip each. */
  lemma {:induction false} SharesNearProportion(power: map<Address, nat>, poolDrip: nat, totalDrip: nat,
                                                s: set<Address>)
    requires totalDrip > 0 && s <= power.Keys
    ensures NearProportion(Total(ShareDrips(power, poolDrip, totalDrip), s), Total(power, s), poolDrip, totalDrip, |s|)
  {
    var shares := ShareDrips(power, poolDrip, totalDrip);
    if s != {} {
      var x :| x in s;
      TotalRemove(shares, s, x);
      TotalRemove(power, s, x);
      SharesNearProportion(power, poolDrip, totalDrip, s - {x});
      FloorNear(poolDrip, power[x], totalDrip);
      ProportionStep(shares[x], power[x], Total(shares, s - {x}), Total(power, s - {x}), poolDrip, totalDrip,
                     |s - {x}|);
    }
  }

  /** Summing whole Drips rounds down at least as much as rounding the sum. */
  lemma {:induction false} DripsOfSum(vset: ValidatorSet, s: set<Address>)
    requires s <= vset.members.Keys
    ensures Total(PowerDrips(vset), s) <= Drips(Power(vset, s))
    ensures (forall a :: a in s ==> vset.members[a].power % DROPS_PER_DRIP == 0) ==>
              Power(vset, s) == Total(PowerDrips(vset), s) * DROPS_PER_DRIP
  {
    if s != {} {
      var x :| x in s;
      TotalRemove(PowerDrips(vset), s, x);
      TotalRemove(Powers(vset.members), s, x);
      DripsOfSum(vset, s - {x});
    }
  }

  lemma {:induction false} SharesInDrops(vset: ValidatorSet, pool: nat, s: set<Address>)
    requires Drips(vset.totalPower) > 0 && s <= vset.members.Keys
    ensures Total(Shares(vset, pool), s)
            == Total(ShareDrips(PowerDrips(vset), Drips(pool), Drips(vset.totalPower)), s) * DROPS_PER_DRIP
  {
    if s != {} {
      var x :| x in s;
      TotalRemove(Shares(vset, pool), s, x);
      TotalRemove(ShareDrips(PowerDrips(vset), Drips(pool), Drips(vset.totalPower)), s, x);
      SharesInDrops(vset, pool, s - {x});
    }
  }

  /** The dust left in the pool, in whole Drips. */
  ghost function Dust(power: map<Address, nat>, poolDrip: nat, totalDrip: nat): int
    requires totalDrip > 0
  {
    poolDrip - Total(ShareDrips(power, poolDrip, totalDrip), power.Keys)
  }

  /** `total * d <= pool * (total - sum) + n * (total - 1)`, and `d` is not negative. */
  ghost predicate DustWithin(d: int, sum: nat, pool: nat, total: nat, n: nat) {
    0 <= d && total * d <= pool * (total - sum) + n * (total - 1)
  }

  lemma DustArithmetic(paid: nat, sum: nat, pool: nat, total: nat, n: nat)
    requires sum <= total && NearProportion(paid, sum, pool, total, n)
    ensures DustWithin(pool - paid, sum, pool, total, n)
  {
    MulMonotone(pool, sum, total);
    if paid > pool {
      MulMonotone(total, pool + 1, paid);
    }
    assert total * (pool - paid) == pool * total - paid * total;
    assert pool * (total - sum) == pool * total - pool * sum;
  }

  /** The dust is never negative, so the shares never exceed the pool, and it is bounded by
      the power lost to rounding plus less than one Drip per member. */
  lemma {:induction false} DustBound(power: map<Address, nat>, poolDrip: nat, totalDrip: nat)
    requires totalDrip > 0 && Total(power, power.Keys) <= totalDrip
    ensures DustWithin(Dust(power, poolDrip, totalDrip), Total(power, power.Keys), poolDrip, totalDrip, |power.Keys|)
  {
    SharesNearProportion(power, poolDrip, totalDrip, power.Keys);
    DustArithmetic(Total(ShareDrips(power, poolDrip, totalDrip), power.Keys), Total(power, power.Keys),
                   poolDrip, totalDrip, |power.Keys|);
  }

  lemma SmallDust(d: int, pool: nat, n: nat, total: nat)
    requires total > 0 && n > 0 && DustWithin(d, total, pool, total, n)
    ensures d < n
  {
    if d >= n {
      MulMonotone(total, n, d);
    }
  }

  /** Power lost to rounding shows as dust in proportion to the pool. */
  lemma LostPowerShows(power: map<Address, nat>, poolDrip: nat, totalDrip: nat)
    requires totalDrip > 0 && Total(power, power.Keys) <= totalDrip
    ensures totalDrip * Dust(power, poolDrip, totalDrip) >= poolDrip * (totalDrip - Total(power, power.Keys))
  {
    SharesNearProportion(power, poolDrip, totalDrip, power.Keys);
    DustAtLeast(Total(ShareDrips(power, poolDrip, totalDrip), power.Keys), Total(power, power.Keys), poolDrip,
                totalDrip, |power.Keys|);
  }

  lemma DustAtLeast(paid: nat, sum: nat, pool: nat, total: nat, n: nat)
    requires sum <= total && NearProportion(paid, sum, pool, total, n)
    ensures total * (pool - paid) >= pool * (total - sum)
  {
    assert total * (pool - paid) == pool * total - paid * total;
    assert pool * (total - sum) == pool * total - pool * sum;
  }

  // ---- the distribution --------------------------------------------------------------

  /** The validator map after crediting the members in `done`. */
  ghost function Credited(validators: map<Address, Validator>, shares: map<Address, nat>,
                          done: set<Address>): map<Address, Validator>
    requires done <= shares.Keys
  {
    map a | a in validators
      :: if a in done then validators[a].(activeStake := validators[a].activeStake + shares[a]) else validators[a]
  }

  /** Each validator has its share more, if it has one; nothing else about anyone changes. */
  ghost predicate PaidOut(validators: map<Address, Validator>, shares: map<Address, nat>,
                          updated: map<Address, Validator>) {
    && updated.Keys == validators.Keys
    && forall a :: a in validators ==>
         && updated[a].activeStake == validators[a].activeStake + (if a in shares then shares[a] else 0)
         && updated[a].(activeStake := validators[a].activeStake) == validators[a]
  }

  lemma CreditOne(validators: map<Address, Validator>, shares: map<Address, nat>, done: set<Address>, a: Address)
    requires done <= shares.Keys && a in shares && a !in done
    ensures var before := Credited(validators, shares, done);
            Credited(validators, shares, done + {a})
            == if a in before then before[a := before[a].(activeStake := before[a].activeStake + shares[a])] else before
    ensures a in validators ==> Credited(validators, shares, done)[a] == validators[a]
  {
  }

  /** Every product, share and credited stake of the members fits in `u128`. */
  ghost predicate Fits(validators: map<Address, Validator>, vset: ValidatorSet, pool: nat, a: Address)
    requires a in vset.members && Drips(vset.totalPower) > 0
  {
    && Drips(pool) * Drips(vset.members[a].power) <= U128_MAX
    && Shares(vset, pool)[a] <= U128_MAX
    && (a in validators ==> validators[a].activeStake + Shares(vset, pool)[a] <= U128_MAX)
  }

  /** A member's share in Drops, unless the product or the share overflows. */
  method MemberShare(vset: ValidatorSet, pool: nat, a: Address, poolDrip: nat, totalDrip: nat)
    returns (share: Option<nat>)
    requires a in vset.members && poolDrip == Drips(pool) && totalDrip == Drips(vset.totalPower) > 0
    ensures share.Some? ==> share.value == Shares(vset, pool)[a]
    ensures share.Some? <==> poolDrip * Drips(vset.members[a].power) <= U128_MAX && Shares(vset, pool)[a] <= U128_MAX
  {
    var product := CheckedMul(poolDrip, Drips(vset.members[a].power));
    if product.None? { return None; }
    share := CheckedMul(product.value / totalDrip, DROPS_PER_DRIP);
  }

  /** An overflow at `a`, the first in address order: whoever came before has been credited, and `a`
      itself when only the running total was too large. */
  ghost predicate StoppedAt(validators: map<Address, Validator>, vset: ValidatorSet, pool: nat, a: Address,
                            updated: map<Address, Validator>)
    requires Drips(vset.totalPower) > 0
  {
    && a in vset.members
    && (forall b :: b in vset.members && b < a ==> Fits(validators, vset, pool, b))
    && var before := set b | b in vset.members && b < a;
       if Fits(validators, vset, pool, a)
       then updated == Credited(validators, Shares(vset, pool), before + {a})
            && Total(Shares(vset, pool), before + {a}) > U128_MAX
       else updated == Credited(validators, Shares(vset, pool), before)
  }

  /** One pass of the loop. */
  method PayMember(validators: map<Address, Validator>, vset: ValidatorSet, pool: nat, a: Address,
                   before: map<Address, Validator>, distributed: nat, ghost done: set<Address>)
    returns (ok: bool, updated: map<Address, Validator>, sum: nat)
    requires Drips(vset.totalPower) > 0 && done <= vset.members.Keys && a in vset.members && a !in done
    requires before == Credited(validators, Shares(vset, pool), done)
    requires distributed == Total(Shares(vset, pool), done)
    ensures ok <==> Fits(validators, vset, pool, a) && Total(Shares(vset, pool), done + {a}) <= U128_MAX
    ensures ok ==> sum == Total(Shares(vset, pool), done + {a})
    ensures updated == Credited(validators, Shares(vset, pool),
                                if Fits(validators, vset, pool, a) then done + {a} else done)
  {
    ghost var shares := Shares(vset, pool);
    TotalAdd(shares, done, a);
    CreditOne(validators, shares, done, a);
    ok, updated, sum := false, before, distributed;
    var share := MemberShare(vset, pool, a, Drips(pool), Drips(vset.totalPower));
    if share.None? { return; }
    if a in updated {
      var stake := CheckedAdd(updated[a].activeStake, share.value);
      if stake.None? { return; }
      updated := updated[a := updated[a].(activeStake := stake.value)];
    }
    var total := CheckedAdd(distributed, share.value);
    if total.None? { return; }
    ok, sum := true, total.value;
  }

  ghost predicate AllFit(validators: map<Address, Validator>, vset: ValidatorSet, pool: nat, s: set<Address>)
    requires Drips(vset.totalPower) > 0 && s <= vset.members.Keys
  {
    forall a :: a in s ==> Fits(validators, vset, pool, a)
  }

  lemma Stops(validators: map<Address, Validator>, vset: ValidatorSet, pool: nat, a: Address, done: set<Address>,
              updated: map<Address, Validator>)
    requires Drips(vset.totalPower) > 0 && a in vset.members && done <= vset.members.Keys && a !in done
    requires forall b :: b in vset.members ==> (b in done <==> b < a)
    requires AllFit(validators, vset, pool, done)
    requires !(Fits(validators, vset, pool, a) && Total(Shares(vset, pool), done + {a}) <= U128_MAX)
    requires updated == Credited(validators, Shares(vset, pool),
                                if Fits(validators, vset, pool, a) then done + {a} else done)
    ensures StoppedAt(validators, vset, pool, a, updated)
    ensures AllFit(validators, vset, pool, vset.members.Keys) ==>
        Total(Shares(vset, pool), vset.members.Keys) > U128_MAX
  {
    assert done == set b | b in vset.members && b < a;
    TotalMonotone(Shares(vset, pool), done + {a}, vset.members.Keys);
  }

  /** The loop over the members: all are paid, or it stops at the first that cannot be. */
  method PayMembers(validators: map<Address, Validator>, vset: ValidatorSet, pool: nat)
    returns (updated: map<Address, Validator>, distributed: nat, failed: Option<Address>)
    requires Drips(vset.totalPower) > 0
    ensures failed.None? <==> AllFit(validators, vset, pool, vset.members.Keys)
                              && Total(Shares(vset, pool), vset.members.Keys) <= U128_MAX
    ensures failed.None? ==> updated == Credited(validators, Shares(vset, pool), vset.members.Keys)
                             && distributed == Total(Shares(vset, pool), vset.members.Keys)
    ensures failed.Some? ==> StoppedAt(validators, vset, pool, failed.value, updated)
  {
    updated, distributed, failed := validators, 0, None;
    var rest := vset.members.Keys;
    ghost var done: set<Address> := {};
    while rest != {}
      invariant done !! rest && done + rest == vset.members.Keys
      invariant forall x, y :: x in done && y in rest ==> x < y
      invariant updated == Credited(validators, Shares(vset, pool), done)
      invariant distributed == Total(Shares(vset, pool), done) <= U128_MAX
      invariant AllFit(validators, vset, pool, done)
    {
      var a := First(rest);
      var ok, next, sum := PayMember(validators, vset, pool, a, updated, distributed, done);
      updated := next;
      if !ok {
        Stops(validators, vset, pool, a, done, updated);
        return updated, distributed, Some(a);
      }
      distributed, done, rest := sum, done + {a}, rest - {a};
    }
    assert done == vset.members.Keys;
  }

  /** Distribute `pool` over the committee in proportion to voting power.

      It succeeds exactly when the arithmetic fits and the shares do not exceed the pool;
      then every member in the map is credited its share and the rest is burned. */
  method DistributeRewards(validators: map<Address, Validator>, vset: ValidatorSet, pool: nat)
    returns (updated: map<Address, Validator>, r: Result<RewardOutcome, RewardError>)
    requires pool <= U128_MAX
    ensures Drips(vset.totalPower) == 0 ==> updated == validators && r == Ok(RewardOutcome(0, pool))
    ensures Drips(vset.totalPower) > 0 ==>
              var shares := Shares(vset, pool);
              && (r.Ok? <==> AllFit(validators, vset, pool, vset.members.Keys)
                             && Total(shares, vset.members.Keys) <= pool)
              && (r.Ok? ==> && PaidOut(validators, shares, updated)
                            && updated == Credited(validators, shares, vset.members.Keys)
                            && r.value.distributed == Total(shares, vset.members.Keys)
                            && r.value.distributed + r.value.burnedRemainder == pool)
              && (r == Err(RemainderUnderflow) ==> Total(shares, vset.members.Keys) > pool
                                                   && updated == Credited(validators, shares, vset.members.Keys))
              && (r.Err? && r.error.DistributionOverflow? ==>
                  StoppedAt(validators, vset, pool, r.error.address, updated))
    ensures r != Err(InflationOverflow)
  {
    updated := validators;
    if Drips(vset.totalPower) == 0 {
      return updated, Ok(RewardOutcome(0, pool));
    }
    var paid, distributed, failed := PayMembers(validators, vset, pool);
    updated := paid;
    if failed.Some? {
      return updated, Err(DistributionOverflow(failed.value));
    }
    var burned := CheckedSub(pool, distributed);
    if burned.None? {
      return updated, Err(RemainderUnderflow);
    }
    r := Ok(RewardOutcome(distributed, burned.value));
  }

  // ---- conservation ------------------------------------------------------------------

  function ActiveStakes(validators: map<Address, Validator>): map<Address, nat> {
    map a | a in validators :: validators[a].activeStake
  }

  ghost function TotalStake(validators: map<Address, Validator>): nat {
    Total(ActiveStakes(validators), validators.Keys)
  }

  /** Crediting raises the total active stake by exactly the shares of the members present in
      the map; a member missing from the map is paid out of the pool but to nobody. */
  lemma {:induction false} CreditConserves(validators: map<Address, Validator>, shares: map<Address, nat>,
                                           done: set<Address>)
    requires done <= shares.Keys
    ensures TotalStake(Credited(validators, shares, done))
            == TotalStake(validators) + Total(shares, done * validators.Keys)
  {
    if done == {} {
      assert Credited(validators, shares, done) == validators;
    } else {
      var a :| a in done;
      var less := done - {a};
      var before, after := Credited(validators, shares, less), Credited(validators, shares, done);
      CreditConserves(validators, shares, less);
      CreditOne(validators, shares, less, a);
      assert done == less + {a};
      if a in validators {
        StakeOfOne(before, after, a, shares[a]);
        TotalAdd(shares, less * validators.Keys, a);
        assert done * validators.Keys == less * validators.Keys + {a};
      } else {
        assert done * validators.Keys == less * validators.Keys;
      }
    }
  }

  lemma StakeOfOne(before: map<Address, Validator>, after: map<Address, Validator>, a: Address, share: nat)
    requires a in before && after == before[a := before[a].(activeStake := before[a].activeStake + share)]
    ensures TotalStake(after) == TotalStake(before) + share
  {
    TotalRemove(ActiveStakes(before), before.Keys, a);
    TotalRemove(ActiveStakes(after), before.Keys, a);
    TotalAgree(ActiveStakes(before), ActiveStakes(after), before.Keys - {a});
    assert after.Keys == before.Keys;
  }

  /** When the cached total covers the member powers, the shares never exceed the pool, so the
      remainder check cannot fail, and the burned amount is the whole-Drip dust plus what the
      pool had below one Drip. */
  lemma SharesWithinPool(vset: ValidatorSet, pool: nat)
    requires Drips(vset.totalPower) > 0 && Power(vset, vset.members.Keys) <= vset.totalPower
    ensures var d := Dust(PowerDrips(vset), Drips(pool), Drips(vset.totalPower));
            && DustWithin(d, Total(PowerDrips(vset), vset.members.Keys), Drips(pool), Drips(vset.totalPower),
                          |vset.members.Keys|)
            && pool - Total(Shares(vset, pool), vset.members.Keys) == d * DROPS_PER_DRIP + pool % DROPS_PER_DRIP
  {
    var power, members := PowerDrips(vset), vset.members.Keys;
    assert power.Keys == members;
    DripsOfSum(vset, members);
    QuotientMonotone(Power(vset, members), vset.totalPower, DROPS_PER_DRIP);
    DustBound(power, Drips(pool), Drips(vset.totalPower));
    SharesInDrops(vset, pool, members);
  }

  /** The documented bound, less than one Drip burned per member, holds for a well-formed
      committee whose powers are all whole numbers of Drips. */
  lemma BurnedBelowOneDripEach(vset: ValidatorSet, pool: nat)
    requires WellFormed(vset) && Drips(vset.totalPower) > 0 && |vset.members.Keys| > 0
    requires forall a :: a in vset.members ==> vset.members[a].power % DROPS_PER_DRIP == 0
    ensures 0 <= pool - Total(Shares(vset, pool), vset.members.Keys) < |vset.members.Keys| * DROPS_PER_DRIP
  {
    SharesWithinPool(vset, pool);
    DripsOfSum(vset, vset.members.Keys);
    SmallDust(Dust(PowerDrips(vset), Drips(pool), Drips(vset.totalPower)), Drips(pool), |vset.members.Keys|,
              Drips(vset.totalPower));
  }

  /** The inflation step of an epoch change: mint, then distribute. Nothing is created or lost
      beyond the minted amount, and the remainder check never fails. */
  method SettleInflation(validators: map<Address, Validator>, vset: ValidatorSet, supply: nat, epoch: nat)
    returns (updated: map<Address, Validator>, minted: nat, r: Result<RewardOutcome, RewardError>)
    requires Power(vset, vset.members.Keys) <= vset.totalPower && vset.members.Keys <= validators.Keys
    ensures r != Err(RemainderUnderflow)
    ensures r == Err(InflationOverflow) <==> supply * RateBps(epoch) > U128_MAX
    ensures r.Ok? ==> && minted == supply * RateBps(epoch) / 3_650_000 && 18_250 * minted <= supply
                      && r.value.distributed + r.value.burnedRemainder == minted
                      && TotalStake(updated) == TotalStake(validators) + r.value.distributed
  {
    updated, minted := validators, 0;
    InflationExact(supply, epoch, epoch);
    var inflation := EpochInflation(supply, epoch);
    if inflation.Err? {
      return updated, minted, Err(inflation.error);
    }
    minted := inflation.value;
    updated, r := DistributeRewards(validators, vset, minted);
    if Drips(vset.totalPower) > 0 {
      SharesWithinPool(vset, minted);
      CreditConserves(validators, Shares(vset, minted), vset.members.Keys);
      assert vset.members.Keys * validators.Keys == vset.members.Keys;
    }
  }
}
