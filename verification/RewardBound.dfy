/** The documented bound on the burned remainder of a reward distribution
    (`lemma-consensus/src/rewards.rs`): when it holds, and committees on which it does not. */
module RewardBound {
  import opened Primitives
  import opened Weights
  import opened Committee
  import opened Arithmetic
  import opened Rewards

  /** What is left of the pool after the shares; all of it when the total is below one Drip. */
  ghost function Burned(vset: ValidatorSet, pool: nat): int {
    if Drips(vset.totalPower) == 0 then pool else pool - Total(Shares(vset, pool), vset.members.Keys)
  }

  /** Neither the total nor the powers lose anything to rounding. */
  ghost predicate Lossless(vset: ValidatorSet) { Drips(vset.totalPower) > 0 && LostDrips(vset) == 0 }

  /** The rounded total less the rounded powers. */
  ghost function LostDrips(vset: ValidatorSet): int {
    Drips(vset.totalPower) - Total(PowerDrips(vset), vset.members.Keys)
  }

  /** No product of the distribution overflows. */
  ghost predicate Processable(vset: ValidatorSet, pool: nat) {
    pool <= U128_MAX && forall a :: a in vset.members ==> Drips(pool) * Drips(vset.members[a].power) <= U128_MAX
  }

  /** The members, none of them with any stake of its own. */
  function Unstaked(vset: ValidatorSet): map<Address, Validator> {
    map a | a in vset.members :: Validator(vset.members[a].key, Bonded, false, None, 0, vset.members[a].power)
  }

  /** These are exactly the pools that the distribution processes when no stake is in the way. */
  lemma ProcessableIff(vset: ValidatorSet, pool: nat)
    requires Drips(vset.totalPower) > 0 && Power(vset, vset.members.Keys) <= vset.totalPower && pool <= U128_MAX
    ensures Processable(vset, pool) <==> AllFit(Unstaked(vset), vset, pool, vset.members.Keys)
    ensures Total(Shares(vset, pool), vset.members.Keys) <= pool
  {
    SharesWithinPool(vset, pool);
    forall a | a in vset.members ensures Shares(vset, pool)[a] <= pool {
      TotalRemove(Shares(vset, pool), vset.members.Keys, a);
    }
  }

  /** A pool of at least one lost Drip per member, in proportion; one Drip per member when all is
      burned. */
  ghost function WitnessPool(vset: ValidatorSet): nat
    requires Drips(vset.totalPower) == 0 || LostDrips(vset) > 0
  {
    var n, total, lost := |vset.members.Keys|, Drips(vset.totalPower), LostDrips(vset);
    if total == 0 then n * DROPS_PER_DRIP else (n * total + lost - 1) / lost * DROPS_PER_DRIP
  }

  lemma WitnessBurns(vset: ValidatorSet)
    requires WellFormed(vset) && Drips(vset.totalPower) > 0 && LostDrips(vset) > 0
    ensures Burned(vset, WitnessPool(vset)) >= |vset.members.Keys| * DROPS_PER_DRIP
  {
    var n, total, lost := |vset.members.Keys|, Drips(vset.totalPower), LostDrips(vset);
    var q := (n * total + lost - 1) / lost;
    var power := PowerDrips(vset);
    assert power.Keys == vset.members.Keys;
    assert Drips(WitnessPool(vset)) == q;
    Floor(n * total + lost - 1, lost);
    SharesWithinPool(vset, WitnessPool(vset));
    LostPowerShows(power, q, total);
    AtLeast(Dust(power, q, total), n, total);
  }

  lemma AtLeast(d: int, n: nat, total: nat)
    requires total > 0 && total * d >= n * total
    ensures d >= n
  {
    assert total * (d - n) >= 0;
  }

  /** The documented bound, less than one Drip burned per member, holds for every pool the code can
      process if and only if the total is at least a Drip and the powers, each rounded down to whole
      Drips, still sum to the rounded total; unless the powers are so large that the pool that would
      show it overflows. */
  lemma BurnedBelowOneDripIff(vset: ValidatorSet)
    requires WellFormed(vset) && |vset.members.Keys| > 0
    requires Drips(vset.totalPower) == 0 || LostDrips(vset) > 0 ==> Processable(vset, WitnessPool(vset))
    ensures (forall pool: nat :: Processable(vset, pool) ==> Burned(vset, pool) < |vset.members.Keys| * DROPS_PER_DRIP)
            <==> Lossless(vset)
  {
    var n := |vset.members.Keys|;
    DripsOfSum(vset, vset.members.Keys);
    if Lossless(vset) {
      forall pool: nat ensures Burned(vset, pool) < n * DROPS_PER_DRIP {
        SharesWithinPool(vset, pool);
        SmallDust(Dust(PowerDrips(vset), Drips(pool), Drips(vset.totalPower)), Drips(pool), n, Drips(vset.totalPower));
      }
    } else if Drips(vset.totalPower) > 0 {
      WitnessBurns(vset);
    } else {
      assert Burned(vset, WitnessPool(vset)) == n * DROPS_PER_DRIP;
    }
  }

  /** One member of half a Drip: nothing is lost between the powers and the total, and yet the whole
      pool is burned. */
  method HalfDripBurnsAll(pool: nat) returns (r: Result<RewardOutcome, RewardError>)
    requires pool <= U128_MAX
    ensures r == Ok(RewardOutcome(0, pool))
  {
    var vset := ValidatorSet(0, map[0 := Member(NO_KEY, 500_000_000)], 500_000_000);
    var updated;
    updated, r := DistributeRewards(Unstaked(vset), vset, pool);
  }

  const NO_KEY := ConsensusKey([], [])

  /** Two members of one and a half Drips each. */
  const HALVES := ValidatorSet(
    0, map[0 := Member(NO_KEY, 1_500_000_000), 1 := Member(NO_KEY, 1_500_000_000)], 3_000_000_000)

  lemma HalvesShares()
    ensures WellFormed(HALVES) && HALVES.members.Keys == {0, 1} && Drips(HALVES.totalPower) == 3
    ensures var shares := Shares(HALVES, 6_000_000_000);
            shares[0] == shares[1] == 2_000_000_000 && Total(shares, HALVES.members.Keys) == 4_000_000_000
  {
    assert HALVES.members.Keys == {0, 1};
    PairTotal(Powers(HALVES.members));
    PairTotal(Shares(HALVES, 6_000_000_000));
  }

  /** A pool of six Drips over them: four are paid and two, one per member, are burned. */
  method HalvesBurnTwoDrips() returns (r: Result<RewardOutcome, RewardError>)
    ensures WellFormed(HALVES) && |HALVES.members| == 2
    ensures r == Ok(RewardOutcome(4 * DROPS_PER_DRIP, 2 * DROPS_PER_DRIP))
  {
    HalvesShares();
    var updated;
    updated, r := DistributeRewards(Unstaked(HALVES), HALVES, 6_000_000_000);
  }

  lemma PairTotal(w: map<Address, nat>)
    requires w.Keys == {0, 1}
    ensures Total(w, {0, 1}) == w[0] + w[1]
  {
    TotalRemove(w, {0, 1}, 0);
    assert {0, 1} - {0} == {1};
    TotalRemove(w, {1}, 1);
    assert {1} - {1} == {};
  }

  const HUGE: nat := 100_000_000_000_000_000_000_000_000_000

  /** Two members of half a Drip more than a huge number of Drips, less one for the second. */
  const GIANTS := ValidatorSet(
    0, map[0 := Member(NO_KEY, HUGE * DROPS_PER_DRIP + 500_000_000),
           1 := Member(NO_KEY, (HUGE - 1) * DROPS_PER_DRIP + 500_000_000)], 2 * HUGE * DROPS_PER_DRIP)

  lemma GiantPowers()
    ensures WellFormed(GIANTS) && GIANTS.members.Keys == {0, 1} && Drips(GIANTS.totalPower) == 2 * HUGE
    ensures PowerDrips(GIANTS) == map[0 := HUGE, 1 := HUGE - 1] && LostDrips(GIANTS) == 1
  {
    assert GIANTS.members.Keys == {0, 1};
    PairTotal(Powers(GIANTS.members));
    PairTotal(PowerDrips(GIANTS));
  }

  /** For such powers a Drip is lost to rounding and the bound holds all the same: the pools that
      would break it overflow. */
  lemma GiantsStayBelow(pool: nat)
    requires Processable(GIANTS, pool)
    ensures WellFormed(GIANTS) && LostDrips(GIANTS) == 1 && Drips(GIANTS.totalPower) > 0
    ensures Burned(GIANTS, pool) < 2 * DROPS_PER_DRIP
  {
    GiantPowers();
    SharesWithinPool(GIANTS, pool);
    assert Drips(pool) * HUGE <= U128_MAX by { assert 0 in GIANTS.members; }
    GiantDust(Drips(pool));
  }

  lemma GiantDust(p: nat)
    requires p * HUGE <= U128_MAX
    ensures Dust(map[0 := HUGE, 1 := HUGE - 1], p, 2 * HUGE) <= 1
  {
    var power: map<Address, nat> := map[0 := HUGE, 1 := HUGE - 1];
    assert power.Keys == {0, 1};
    PairTotal(ShareDrips(power, p, 2 * HUGE));
    GiantShares(p);
  }

  lemma GiantShares(p: nat)
    requires p * HUGE <= U128_MAX
    ensures p - p * HUGE / (2 * HUGE) - p * (HUGE - 1) / (2 * HUGE) <= 1
  {
  }
}
