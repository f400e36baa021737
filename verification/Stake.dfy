/** Stake-weighted threshold aggregation: `lemma-consensus/src/stake.rs`. */
module Stake {
  import opened Primitives
  import opened Weights

  datatype Threshold = Quorum | Validity

  datatype StakeError = StakeOverflow(author: Address)

  function Factor(t: Threshold): nat {
    match t
    case Quorum => 2
    case Validity => 1
  }

  /** The comparison the code makes, on saturating `u128` products. */
  predicate Exceeds(accumulated: nat, total: nat, t: Threshold) {
    SatMul128(accumulated, 3) > SatMul128(total, Factor(t))
  }

  /** Saturation never invents a quorum. */
  lemma ThresholdSound(accumulated: nat, total: nat, t: Threshold)
    requires Exceeds(accumulated, total, t)
    ensures 3 * accumulated > (if t.Quorum? then 2 * total else total)
  {
  }

  /** The comparison decides the true fraction, two thirds for a quorum and one third for validity,
      for every accumulated stake exactly when the scaled total stays below the largest `u128`; above
      that no stake is ever enough. */
  lemma ThresholdExactIff(total: nat, t: Threshold)
    requires total <= U128_MAX
    ensures (forall accumulated: nat :: accumulated <= U128_MAX ==>
                (Exceeds(accumulated, total, t) <==> 3 * accumulated > (if t.Quorum? then 2 * total else total)))
            <==> (if t.Quorum? then 2 * total else total) < U128_MAX
  {
    if U128_MAX <= Factor(t) * total {
      assert !Exceeds(U128_MAX, total, t);
    }
  }

  /** The fields of a `StakeAggregator` as one value. */
  datatype Tally = Tally(threshold: Threshold, total: nat, accumulated: nat, counted: set<Address>, reached: bool)

  function Fresh(threshold: Threshold, total: nat): Tally {
    Tally(threshold, total, 0, {}, false)
  }

  /** What `StakeAggregator::add` does to the fields and what it returns. */
  function Counted(t: Tally, author: Address, power: nat): (Tally, Result<bool, StakeError>) {
    if author in t.counted then (t, Ok(t.reached))
    else match CheckedAdd(t.accumulated, power)
      case None => (t, Err(StakeOverflow(author)))
      case Some(sum) =>
        var reached := t.reached || Exceeds(sum, t.total, t.threshold);
        (Tally(t.threshold, t.total, sum, t.counted + {author}, reached), Ok(reached))
  }

  function Cleared(t: Tally): Tally { Fresh(t.threshold, t.total) }

  class StakeAggregator {
    const threshold: Threshold
    const totalPower: nat
    var accumulated: nat
    var counted: set<Address>
    var reached: bool

    function Value(): Tally
      reads this
    {
      Tally(threshold, totalPower, accumulated, counted, reached)
    }

    constructor (threshold: Threshold, totalPower: nat)
      ensures Value() == Fresh(threshold, totalPower)
    {
      this.threshold, this.totalPower := threshold, totalPower;
      accumulated, counted, reached := 0, {}, false;
    }

    method Add(author: Address, power: nat) returns (r: Result<bool, StakeError>)
      modifies this
      ensures (Value(), r) == Counted(old(Value()), author, power)
    {
      if author in counted {
        return Ok(reached);
      }
      var sum := CheckedAdd(accumulated, power);
      if sum.None? {
        return Err(StakeOverflow(author));
      }
      accumulated := sum.value;
      counted := counted + {author};
      if !reached {
        reached := Exceeds(accumulated, totalPower, threshold);
      }
      r := Ok(reached);
    }

    method IsReached() returns (r: bool)
      ensures r == reached
    {
      r := reached;
    }

    method Clear()
      modifies this
      ensures Value() == Cleared(old(Value()))
    {
      accumulated := 0;
      counted := {};
      reached := false;
    }
  }

  // ---- every run of adds and clears --------------------------------------------------

  datatype Step = Add(author: Address, power: nat) | Clear

  function After(t: Tally, steps: seq<Step>): Tally {
    if steps == [] then t else
      var last := steps[|steps| - 1];
      var before := After(t, steps[..|steps| - 1]);
      match last
      case Add(a, p) => Counted(before, a, p).0
      case Clear => Cleared(before)
  }

  /** `credit` is the power each counted author was credited with. */
  ghost predicate Exact(t: Tally, steps: seq<Step>, credit: map<Address, nat>) {
    && credit.Keys == t.counted
    && t.accumulated == Total(credit, t.counted)
    && t.accumulated <= U128_MAX
    && t.reached == Exceeds(t.accumulated, t.total, t.threshold)
    && forall a :: a in credit ==> Standing(steps, a, credit[a])
  }

  /** The author was added with that power, and not cleared since. */
  ghost predicate Standing(steps: seq<Step>, a: Address, power: nat) {
    exists i :: 0 <= i < |steps| && steps[i] == Add(a, power) && forall j :: i < j < |steps| ==> !steps[j].Clear?
  }

  lemma StillStanding(steps: seq<Step>, last: Step, a: Address, power: nat)
    requires Standing(steps, a, power) && !last.Clear?
    ensures Standing(steps + [last], a, power)
  {
    var i :| 0 <= i < |steps| && steps[i] == Add(a, power) && forall j :: i < j < |steps| ==> !steps[j].Clear?;
    assert (steps + [last])[i] == Add(a, power);
  }

  /** After any run, the accumulated stake is the sum over the distinct counted authors of a
      power each was added with since the last clear, and the cached flag equals a fresh comparison. */
  lemma {:induction false} RunExact(threshold: Threshold, total: nat, steps: seq<Step>)
    returns (credit: map<Address, nat>)
    ensures Exact(After(Fresh(threshold, total), steps), steps, credit)
    ensures After(Fresh(threshold, total), steps).threshold == threshold
    ensures After(Fresh(threshold, total), steps).total == total
  {
    if steps == [] {
      credit := map[];
    } else {
      var front, last := steps[..|steps| - 1], steps[|steps| - 1];
      assert steps == front + [last];
      credit := RunExact(threshold, total, front);
      var t := After(Fresh(threshold, total), front);
      match last
      case Clear => credit := map[];
      case Add(a, p) =>
        forall b | b in credit ensures Standing(steps, b, credit[b]) { StillStanding(front, last, b, credit[b]); }
        assert steps[|steps| - 1] == last;
        if a !in t.counted && t.accumulated + p <= U128_MAX {
          var more := credit[a := p];
          TotalAgree(credit, more, t.counted);
          TotalAdd(more, t.counted, a);
          credit := more;
        }
    }
  }

  ghost predicate Adds(steps: seq<Step>, power: map<Address, nat>) {
    forall s :: s in steps ==> s.Add? && s.author in power && s.power == power[s.author]
  }

  ghost function Authors(steps: seq<Step>): set<Address> {
    set s | s in steps && s.Add? :: s.author
  }

  /** With one power per author and no overflow, the final tally is a function of the set of
      authors alone. */
  lemma {:induction false} RunOfAdds(threshold: Threshold, total: nat, steps: seq<Step>, power: map<Address, nat>)
    requires Adds(steps, power) && Authors(steps) <= power.Keys
    requires Total(power, Authors(steps)) <= U128_MAX
    ensures var sum := Total(power, Authors(steps));
            After(Fresh(threshold, total), steps)
              == Tally(threshold, total, sum, Authors(steps), Exceeds(sum, total, threshold))
  {
    if steps != [] {
      var front, last := steps[..|steps| - 1], steps[|steps| - 1];
      assert steps == front + [last];
      assert Authors(steps) == Authors(front) + {last.author};
      TotalMonotone(power, Authors(front), Authors(steps));
      RunOfAdds(threshold, total, front, power);
      if last.author !in Authors(front) {
        TotalAdd(power, Authors(front), last.author);
      } else {
        assert Authors(steps) == Authors(front);
      }
    }
  }

  /** Arrival order and repeats are invisible. */
  lemma OrderAndRepeatsInvisible(threshold: Threshold, total: nat, xs: seq<Step>, ys: seq<Step>,
                                 power: map<Address, nat>)
    requires Adds(xs, power) && Adds(ys, power)
    requires Authors(xs) == Authors(ys) <= power.Keys
    requires Total(power, Authors(xs)) <= U128_MAX
    ensures After(Fresh(threshold, total), xs) == After(Fresh(threshold, total), ys)
  {
    RunOfAdds(threshold, total, xs, power);
    RunOfAdds(threshold, total, ys, power);
  }

  /** A sequence of adds of exactly the authors in `authors`, each with its power. */
  ghost predicate Enumerates(steps: seq<Step>, authors: set<Address>, power: map<Address, nat>) {
    Adds(steps, power) && Authors(steps) == authors
  }

  lemma {:induction false} SomeEnumeration(authors: set<Address>, power: map<Address, nat>) returns (steps: seq<Step>)
    requires authors <= power.Keys
    ensures Enumerates(steps, authors, power)
  {
    if authors == {} {
      steps := [];
    } else {
      var a :| a in authors;
      steps := SomeEnumeration(authors - {a}, power);
      assert authors == (authors - {a}) + {a};
      AuthorsOfCons(Add(a, power[a]), steps);
      steps := [Add(a, power[a])] + steps;
    }
  }

  lemma AuthorsOfCons(first: Step, steps: seq<Step>)
    requires first.Add?
    ensures Authors([first] + steps) == {first.author} + Authors(steps)
  {
    assert first in [first] + steps;
    forall s | s in steps ensures s in [first] + steps {}
  }

  /** Under adds alone what is counted is never dropped and sums to a `u128`. */
  lemma {:induction false} AddsKeep(t: Tally, steps: seq<Step>, power: map<Address, nat>)
    requires Adds(steps, power) && t.counted <= power.Keys && t.accumulated == Total(power, t.counted) <= U128_MAX
    ensures var u := After(t, steps);
            t.counted <= u.counted <= power.Keys && u.accumulated == Total(power, u.counted) <= U128_MAX
    ensures After(t, steps).counted <= t.counted + Authors(steps)
  {
    if steps != [] {
      var front, last := steps[..|steps| - 1], steps[|steps| - 1];
      assert steps == front + [last] && last in steps;
      AddsKeep(t, front, power);
      var u := After(t, front);
      if last.author !in u.counted { TotalAdd(power, u.counted, last.author); }
    }
  }

  /** Whoever is added first is counted. */
  lemma {:induction false} FirstCounts(threshold: Threshold, total: nat, first: Step, steps: seq<Step>,
                                       power: map<Address, nat>)
    requires first.Add? && first.author in power && first.power == power[first.author] <= U128_MAX && Adds(steps, power)
    ensures first.author in After(Fresh(threshold, total), [first] + steps).counted
  {
    var all := [first] + steps;
    if steps == [] {
      assert all[..0] == [];
    } else {
      var front := steps[..|steps| - 1];
      assert all[..|all| - 1] == [first] + front && all[|all| - 1] == steps[|steps| - 1];
      assert steps[|steps| - 1] in steps;
      FirstCounts(threshold, total, first, front, power);
    }
  }

  /** When the powers of a set of authors overflow, two orders count different authors. */
  lemma OverflowShowsOrder(threshold: Threshold, total: nat, authors: set<Address>, power: map<Address, nat>)
    returns (xs: seq<Step>, ys: seq<Step>)
    requires authors <= power.Keys && (forall a :: a in authors ==> power[a] <= U128_MAX)
    requires Total(power, authors) > U128_MAX
    ensures Enumerates(xs, authors, power) && Enumerates(ys, authors, power)
    ensures After(Fresh(threshold, total), xs).counted != After(Fresh(threshold, total), ys).counted
  {
    xs := SomeEnumeration(authors, power);
    AddsKeep(Fresh(threshold, total), xs, power);
    var counted := After(Fresh(threshold, total), xs).counted;
    assert counted != authors;
    var x :| x in authors && x !in counted;
    ys := [Add(x, power[x])] + xs;
    AuthorsOfCons(Add(x, power[x]), xs);
    assert {x} + authors == authors;
    FirstCounts(threshold, total, Add(x, power[x]), xs, power);
  }

  /** The tally is the same for every order and repetition of a set of authors if and only if
      their powers sum to a `u128`. Otherwise the authors that come last are dropped. */
  lemma OrderInvisibleIff(threshold: Threshold, total: nat, authors: set<Address>, power: map<Address, nat>)
    requires authors <= power.Keys && forall a :: a in authors ==> power[a] <= U128_MAX
    ensures (forall xs: seq<Step>, ys: seq<Step> :: Enumerates(xs, authors, power) && Enumerates(ys, authors, power) ==>
               After(Fresh(threshold, total), xs) == After(Fresh(threshold, total), ys))
            <==> Total(power, authors) <= U128_MAX
  {
    if Total(power, authors) <= U128_MAX {
      forall xs: seq<Step>, ys: seq<Step> | Enumerates(xs, authors, power) && Enumerates(ys, authors, power)
        ensures After(Fresh(threshold, total), xs) == After(Fresh(threshold, total), ys)
      {
        OrderAndRepeatsInvisible(threshold, total, xs, ys, power);
      }
    } else {
      var xs, ys := OverflowShowsOrder(threshold, total, authors, power);
    }
  }
}
