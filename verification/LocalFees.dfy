/** The per-contract fee market: `lemma-mempool/src/local_fees.rs`. */
module LocalFees {
  import opened Primitives
  import opened Arithmetic

  const DECAY_NUM: nat := 7
  const DECAY_DEN: nat := 8
  const HIGH_DEMAND_THRESHOLD: nat := 800
  const SCALE_FACTOR: nat := 400
  const MAX_SURCHARGE_MULTIPLIER: nat := 10

  datatype Load = Load(ema: nat, count: nat)

  /** One step of the moving average, with the saturations the code performs. */
  function Decayed(ema: nat, count: nat): nat {
    var numerator := Min(SatMul128(ema, DECAY_NUM) + count, U128_MAX);
    Min(numerator / DECAY_DEN, U64_MAX)
  }

  function Ticked(l: Load): Load { Load(Decayed(l.ema, l.count), 0) }

  function Recorded(l: Load): Load { l.(count := SatAdd64(l.count, 1)) }

  /** The surcharged fee for a moving average, with the code's saturations. */
  function Fee(ema: nat, globalBase: nat): nat {
    var excess := Max(ema - HIGH_DEMAND_THRESHOLD, 0);
    var capped := Min(Min(SCALE_FACTOR + excess, U128_MAX), SatMul128(SCALE_FACTOR, MAX_SURCHARGE_MULTIPLIER));
    Min(SatMul128(globalBase, capped) / SCALE_FACTOR, U64_MAX)
  }

  type Loads = map<Address, Load>

  /** The load of a contract; an untracked contract has none. */
  function At(loads: Loads, a: Address): Load {
    if a in loads then loads[a] else Load(0, 0)
  }

  class LocalFeeMarket {
    var loads: Loads

    constructor ()
      ensures loads == map[]
    {
      loads := map[];
    }

    method Record(contract: Address)
      modifies this
      ensures loads == old(loads)[contract := Recorded(At(old(loads), contract))]
    {
      var load := if contract in loads then loads[contract] else Load(0, 0);
      loads := loads[contract := load.(count := SatAdd64(load.count, 1))];
    }

    method Tick()
      modifies this
      ensures loads == AllTicked(old(loads))
    {
      var rest := loads.Keys;
      ghost var before := loads;
      while rest != {}
        invariant rest <= loads.Keys == before.Keys
        invariant forall a :: a in loads ==> loads[a] == if a in rest then before[a] else Ticked(before[a])
      {
        var a :| a in rest;
        var numerator := Min(SatMul128(loads[a].ema, DECAY_NUM) + loads[a].count, U128_MAX);
        loads := loads[a := Load(Min(numerator / DECAY_DEN, U64_MAX), 0)];
        rest := rest - {a};
      }
      assert loads == AllTicked(before);
    }

    /** No contract's load changes, and no idle contract stays tracked. */
    method PruneIdle()
      modifies this
      ensures loads == IdlePruned(old(loads))
      ensures forall a :: At(loads, a) == At(old(loads), a)
      ensures forall a :: a in loads ==> loads[a] != Load(0, 0)
    {
      var rest := loads.Keys;
      ghost var before := loads;
      while rest != {}
        invariant rest <= loads.Keys <= before.Keys
        invariant forall a :: a in loads ==> loads[a] == before[a]
        invariant forall a :: a in before ==> (a in loads <==> a in rest || before[a].ema > 0 || before[a].count > 0)
      {
        var a :| a in rest;
        if !(loads[a].ema > 0 || loads[a].count > 0) {
          loads := loads - {a};
        }
        rest := rest - {a};
      }
      assert loads == IdlePruned(before);
    }

    /** Between the base and ten times the base, and exactly the base up to the threshold. */
    method LocalBaseFee(contract: Address, globalBase: nat) returns (fee: nat)
      ensures fee == Fee(At(loads, contract).ema, globalBase)
      ensures At(loads, contract).ema <= U64_MAX && globalBase <= U64_MAX ==>
                && globalBase <= fee <= Min(10 * globalBase, U64_MAX)
                && (At(loads, contract).ema <= HIGH_DEMAND_THRESHOLD ==> fee == globalBase)
    {
      var ema := if contract in loads then loads[contract].ema else 0;
      var excess := Max(ema - HIGH_DEMAND_THRESHOLD, 0);
      var capped := Min(Min(SCALE_FACTOR + excess, U128_MAX), SatMul128(SCALE_FACTOR, MAX_SURCHARGE_MULTIPLIER));
      fee := Min(SatMul128(globalBase, capped) / SCALE_FACTOR, U64_MAX);
      if ema <= U64_MAX && globalBase <= U64_MAX {
        FeeExact(ema, globalBase);
        FeeBand(ema, ema, globalBase);
      }
    }
  }

  function AllTicked(loads: Loads): Loads { map a | a in loads :: Ticked(loads[a]) }

  function IdlePruned(loads: Loads): Loads {
    map a | a in loads && (loads[a].ema > 0 || loads[a].count > 0) :: loads[a]
  }

  // ---- one contract ------------------------------------------------------------------

  /** On `u64` inputs no saturation fires and the new average lies between the old average
      and the block's count. */
  lemma EmaBetween(ema: nat, count: nat)
    requires ema <= U64_MAX && count <= U64_MAX
    ensures Decayed(ema, count) == (7 * ema + count) / 8
    ensures Min(ema, count) <= Decayed(ema, count) <= Max(ema, count)
  {
  }

  /** The average after a sequence of per-block counts. */
  function EmaAfter(start: nat, counts: seq<nat>): nat {
    if counts == [] then start else
      Decayed(EmaAfter(start, counts[..|counts| - 1]), counts[|counts| - 1])
  }

  /** A contract never called more than 800 times in a block always pays the global base. */
  lemma {:induction false} QuietContractPaysBase(counts: seq<nat>, globalBase: nat)
    requires forall i :: 0 <= i < |counts| ==> counts[i] <= HIGH_DEMAND_THRESHOLD
    requires globalBase <= U64_MAX
    ensures EmaAfter(0, counts) <= HIGH_DEMAND_THRESHOLD
    ensures Fee(EmaAfter(0, counts), globalBase) == globalBase
  {
    if counts != [] {
      QuietContractPaysBase(counts[..|counts| - 1], globalBase);
      EmaBetween(EmaAfter(0, counts[..|counts| - 1]), counts[|counts| - 1]);
    }
    QuotientExact(globalBase, 400);
  }

  function Repeat(x: nat, k: nat): seq<nat> { seq(k, _ => x) }

  lemma RepeatLast(x: nat, k: nat)
    requires k > 0
    ensures Repeat(x, k)[..k - 1] == Repeat(x, k - 1) && Repeat(x, k)[k - 1] == x
  {
  }

  /** A constant rate from empty rises monotonically, never above `max(0, x - 7)`, and gains
      at least one each block until it is there. */
  lemma {:induction false} ConstantRate(x: nat, k: nat)
    requires x <= U64_MAX
    ensures var limit := Max(0, x - 7);
            Min(k, limit) <= EmaAfter(0, Repeat(x, k)) <= limit
    ensures EmaAfter(0, Repeat(x, k)) <= EmaAfter(0, Repeat(x, k + 1))
  {
    var e := EmaAfter(0, Repeat(x, k));
    if k > 0 {
      RepeatLast(x, k);
      ConstantRate(x, k - 1);
      EmaBetween(EmaAfter(0, Repeat(x, k - 1)), x);
    }
    RepeatLast(x, k + 1);
    EmaBetween(e, x);
  }

  /** So it settles exactly at `max(0, x - 7)`, up to seven below the documented rate `x`. */
  lemma ConstantRateSettles(x: nat, k: nat)
    requires x <= U64_MAX && k >= x
    ensures EmaAfter(0, Repeat(x, k)) == Max(0, x - 7)
  {
    ConstantRate(x, k);
  }

  /** An idle contract loses at least one each block, so it reaches zero and stays there. */
  lemma {:induction false} IdleReachesZero(ema: nat, k: nat)
    requires ema <= U64_MAX
    ensures EmaAfter(ema, Repeat(0, k)) <= Max(0, ema - k)
  {
    if k > 0 {
      RepeatLast(0, k);
      IdleReachesZero(ema, k - 1);
      EmaBetween(EmaAfter(ema, Repeat(0, k - 1)), 0);
    }
  }

  /** On `u64` inputs the fee is the base times a multiplier between 1 and 10, and it never
      falls when the load rises. */
  lemma FeeBand(ema: nat, more: nat, globalBase: nat)
    requires ema <= more <= U64_MAX && globalBase <= U64_MAX
    ensures globalBase <= Fee(ema, globalBase) <= Min(10 * globalBase, U64_MAX)
    ensures Fee(ema, globalBase) <= Fee(more, globalBase)
    ensures more >= 4400 ==> Fee(more, globalBase) == Min(10 * globalBase, U64_MAX)
  {
    FeeExact(ema, globalBase);
    FeeExact(more, globalBase);
    var m, n := Min(400 + Max(ema - 800, 0), 4000), Min(400 + Max(more - 800, 0), 4000);
    MulMonotone(globalBase, 400, m);
    MulMonotone(globalBase, m, n);
    MulMonotone(globalBase, n, 4000);
  }

  /** No base fee is surcharged exactly when the load is at most the threshold. */
  lemma SurchargeIff(ema: nat)
    requires ema <= U64_MAX
    ensures (forall globalBase: nat :: globalBase <= U64_MAX ==> Fee(ema, globalBase) == globalBase)
            <==> ema <= HIGH_DEMAND_THRESHOLD
  {
    if ema <= HIGH_DEMAND_THRESHOLD {
      forall globalBase: nat | globalBase <= U64_MAX ensures Fee(ema, globalBase) == globalBase {
        FeeExact(ema, globalBase);
      }
    } else {
      FeeExact(ema, 400);
      assert Fee(ema, 400) != 400;
    }
  }

  lemma FeeExact(ema: nat, globalBase: nat)
    requires ema <= U64_MAX && globalBase <= U64_MAX
    ensures Fee(ema, globalBase) == Min(globalBase * Min(400 + Max(ema - 800, 0), 4000) / 400, U64_MAX)
  {
    var m := Min(400 + Max(ema - 800, 0), 4000);
    MulMonotone(globalBase, m, 4000);
  }

  // ---- pruning is invisible ----------------------------------------------------------

  datatype Event = Record(contract: Address) | Tick | Prune

  function After(loads: Loads, events: seq<Event>): Loads {
    if events == [] then loads else
      var before := After(loads, events[..|events| - 1]);
      match events[|events| - 1]
      case Record(a) => before[a := Recorded(At(before, a))]
      case Tick => AllTicked(before)
      case Prune => IdlePruned(before)
  }

  /** The market without a map: every contract has a load, and nothing is ever dropped. */
  function LoadAfter(events: seq<Event>, a: Address): Load {
    if events == [] then Load(0, 0) else
      var before := LoadAfter(events[..|events| - 1], a);
      match events[|events| - 1]
      case Record(b) => if a == b then Recorded(before) else before
      case Tick => Ticked(before)
      case Prune => before
  }

  /** The pruned map agrees with the unpruned total market on every contract after every run,
      so every later fee is the same. */
  lemma {:induction false} PruneInvisible(events: seq<Event>, a: Address, globalBase: nat)
    ensures At(After(map[], events), a) == LoadAfter(events, a)
    ensures Fee(At(After(map[], events), a).ema, globalBase) == Fee(LoadAfter(events, a).ema, globalBase)
  {
    if events != [] {
      PruneInvisible(events[..|events| - 1], a, globalBase);
      assert Ticked(Load(0, 0)) == Load(0, 0);
    }
  }

  /** The calls of `a` since the last tick. */
  ghost function SinceTick(events: seq<Event>, a: Address): set<nat> {
    set i: nat | i < |events| && events[i] == Record(a) && forall j :: i < j < |events| ==> !events[j].Tick?
  }

  /** After every run the count of a contract is the number of its calls since the last tick. */
  lemma {:induction false} CountIsCalls(events: seq<Event>, a: Address)
    ensures LoadAfter(events, a).count == Min(|SinceTick(events, a)|, 0xFFFF_FFFF_FFFF_FFFF)
    ensures At(After(map[], events), a).count == LoadAfter(events, a).count
  {
    PruneInvisible(events, a, 0);
    if events != [] {
      CountIsCalls(events[..|events| - 1], a);
      CallsNext(events, a);
    }
  }

  lemma CallsNext(events: seq<Event>, a: Address)
    requires events != []
    ensures var (front, last) := (events[..|events| - 1], events[|events| - 1]);
            |SinceTick(events, a)|
            == if last.Tick? then 0 else |SinceTick(front, a)| + (if last == Record(a) then 1 else 0)
  {
    var n := |events| - 1;
    var front, last := events[..n], events[n];
    if last.Tick? {
      assert SinceTick(events, a) == {};
    } else {
      CallsKept(events, a);
      assert n !in SinceTick(front, a);
    }
  }

  lemma CallsKept(events: seq<Event>, a: Address)
    requires events != [] && !events[|events| - 1].Tick?
    ensures var n := |events| - 1;
            SinceTick(events, a) == SinceTick(events[..n], a) + (if events[n] == Record(a) then {n} else {})
  {
    var n := |events| - 1;
    var front := events[..n];
    forall i: nat
      ensures i in SinceTick(events, a) <==> i in SinceTick(front, a) || (i == n && events[n] == Record(a))
    {
      if i < n {
        assert front[i] == events[i];
        assert (forall j :: i < j < |events| ==> !events[j].Tick?) <==> forall j :: i < j < n ==> !front[j].Tick?;
      }
    }
  }

  /** The average moves at a tick only, by an eighth of the way to the calls since the last one. */
  lemma AverageMovesAtTicks(events: seq<Event>, e: Event, a: Address)
    ensures var ema := At(After(map[], events), a).ema;
            At(After(map[], events + [e]), a).ema
            == if e.Tick? then (7 * ema + Min(|SinceTick(events, a)|, 0xFFFF_FFFF_FFFF_FFFF)) / 8 else ema
  {
    PruneInvisible(events, a, 0);
    PruneInvisible(events + [e], a, 0);
    CountIsCalls(events, a);
    LoadsStayInRange(events, a);
    assert (events + [e])[..|events|] == events;
    EmaBetween(LoadAfter(events, a).ema, LoadAfter(events, a).count);
  }

  /** Every stored number stays a `u64` along every run. */
  lemma {:induction false} LoadsStayInRange(events: seq<Event>, a: Address)
    ensures LoadAfter(events, a).ema <= U64_MAX && LoadAfter(events, a).count <= U64_MAX
  {
    if events != [] {
      LoadsStayInRange(events[..|events| - 1], a);
    }
  }
}
