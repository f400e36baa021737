/** Per-account token buckets: `lemma-mempool/src/rate_limit.rs`. Token counts and instants
    are exact reals (seconds) instead of `f64`. */
module RateLimit {
  import opened Primitives

  function MinReal(x: real, y: real): real { if x <= y then x else y }

  function MaxReal(x: real, y: real): real { if x <= y then y else x }

  function Ceiling(x: real): int { -((-x).Floor) }

  datatype Bucket = Bucket(tokens: real, lastRefill: real)

  /** The limits after the clamping in `RateLimiter::new`. */
  datatype Limits = Limits(capacity: real, refill: real)

  function Clamped(capacity: real, refill: real): Limits {
    Limits(MaxReal(capacity, 1.0), MaxReal(refill, 1.0))
  }

  predicate LimitsOk(c: Limits) { c.capacity >= 1.0 && c.refill >= 1.0 }

  /** What is refilled between `s` and `u`. */
  function Inflow(c: Limits, s: real, u: real): real { (u - s) * c.refill }

  /** Refill for the time elapsed; a clock that went backwards adds nothing. */
  function Refilled(b: Bucket, c: Limits, now: real): Bucket {
    var inflow := if b.lastRefill <= now then Inflow(c, b.lastRefill, now) else 0.0;
    Bucket(MinReal(b.tokens + inflow, c.capacity), now)
  }

  function RetryMs(tokens: real, c: Limits): nat
    requires LimitsOk(c) && tokens < 1.0
  {
    var wait := (1.0 - tokens) / c.refill;
    var ms := Ceiling(wait * 1000.0);
    if ms < 0 then 0 else Min(ms, U64_MAX)
  }

  /** `TokenBucket::try_consume`. */
  function Consumed(b: Bucket, c: Limits, now: real): (Bucket, Result<(), nat>)
    requires LimitsOk(c)
  {
    var full := Refilled(b, c, now);
    if full.tokens >= 1.0 then (full.(tokens := full.tokens - 1.0), Ok(()))
    else (full, Err(RetryMs(full.tokens, c)))
  }

  type Buckets = map<Address, Bucket>

  /** `RateLimiter::try_acquire`: an unknown account starts with a full bucket. */
  function Acquired(buckets: Buckets, c: Limits, a: Address, now: real): (Buckets, Result<(), nat>)
    requires LimitsOk(c)
  {
    var b := if a in buckets then buckets[a] else Bucket(c.capacity, now);
    var (after, answer) := Consumed(b, c, now);
    (buckets[a := after], answer)
  }

  /** `RateLimiter::prune_full`: refill everything and drop the buckets that are full. */
  function Pruned(buckets: Buckets, c: Limits, now: real): Buckets {
    map a | a in buckets && !(Refilled(buckets[a], c, now).tokens >= c.capacity) :: Refilled(buckets[a], c, now)
  }

  class RateLimiter {
    const limits: Limits
    var buckets: Buckets

    ghost predicate Valid() { LimitsOk(limits) }

    constructor (capacity: real, refill: real)
      ensures Valid() && limits == Clamped(capacity, refill) && buckets == map[]
      ensures capacity >= 1.0 ==> limits.capacity == capacity
      ensures refill >= 1.0 ==> limits.refill == refill
      ensures capacity < 1.0 ==> limits.capacity == 1.0
      ensures refill < 1.0 ==> limits.refill == 1.0
    {
      limits := Clamped(capacity, refill);
      buckets := map[];
    }

    method TryAcquire(a: Address, now: real) returns (answer: Result<(), nat>)
      requires Valid()
      modifies this
      ensures (buckets, answer) == Acquired(old(buckets), limits, a, now)
    {
      if a !in buckets {
        buckets := buckets[a := Bucket(limits.capacity, now)];
      }
      var full := Refilled(buckets[a], limits, now);
      if full.tokens >= 1.0 {
        buckets := buckets[a := full.(tokens := full.tokens - 1.0)];
        answer := Ok(());
      } else {
        buckets := buckets[a := full];
        answer := Err(RetryMs(full.tokens, limits));
      }
      assert buckets == Acquired(old(buckets), limits, a, now).0;
    }

    method PruneFull(now: real)
      modifies this
      ensures buckets == Pruned(old(buckets), limits, now)
    {
      var rest := buckets.Keys;
      ghost var before, done: set<Address> := buckets, {};
      while rest != {}
        invariant done !! rest && done + rest == before.Keys
        invariant forall a :: a in rest ==> a in buckets && buckets[a] == before[a]
        invariant forall a :: a in buckets <==> a in rest || (a in done && a in Pruned(before, limits, now))
        invariant forall a :: a in done && a in buckets ==> buckets[a] == Refilled(before[a], limits, now)
      {
        var a :| a in rest;
        var full := Refilled(buckets[a], limits, now);
        if full.tokens >= limits.capacity {
          buckets := buckets - {a};
        } else {
          buckets := buckets[a := full];
        }
        done, rest := done + {a}, rest - {a};
      }
      assert buckets == Pruned(before, limits, now);
    }
  }

  // ---- runs --------------------------------------------------------------------------

  /** The tokens an account would find at `now`; an untracked account finds a full bucket. */
  function Level(buckets: Buckets, c: Limits, a: Address, now: real): real {
    if a in buckets then Refilled(buckets[a], c, now).tokens else c.capacity
  }

  ghost predicate Sane(buckets: Buckets, c: Limits, now: real) {
    && LimitsOk(c)
    && forall a :: a in buckets ==> 0.0 <= buckets[a].tokens <= c.capacity && buckets[a].lastRefill <= now
  }

  lemma InflowAdds(c: Limits, s: real, u: real, v: real)
    requires LimitsOk(c)
    ensures Inflow(c, s, v) == Inflow(c, s, u) + Inflow(c, u, v)
    ensures s <= u ==> Inflow(c, s, u) >= 0.0
    ensures u <= v ==> Inflow(c, u, v) >= 0.0
  {
  }

  lemma MulNonneg(x: real, y: real)
    requires x >= 0.0 && y >= 0.0
    ensures x * y >= 0.0
  {
  }

  /** Between events a level rises at the refill rate up to the capacity. */
  lemma LevelLater(buckets: Buckets, c: Limits, a: Address, t: real, u: real)
    requires Sane(buckets, c, t) && t <= u
    ensures Level(buckets, c, a, u) == MinReal(Level(buckets, c, a, t) + (u - t) * c.refill, c.capacity)
  {
    LevelByInflow(buckets, c, a, t, u);
  }

  lemma LevelByInflow(buckets: Buckets, c: Limits, a: Address, t: real, u: real)
    requires Sane(buckets, c, t) && t <= u
    ensures 0.0 <= Level(buckets, c, a, t) <= c.capacity
    ensures Level(buckets, c, a, u) == MinReal(Level(buckets, c, a, t) + Inflow(c, t, u), c.capacity)
    ensures Sane(buckets, c, u)
  {
    MulNonneg(u - t, c.refill);
    if a in buckets {
      var b := buckets[a];
      MulNonneg(t - b.lastRefill, c.refill);
      InflowAdds(c, b.lastRefill, t, u);
      CapTwice(b.tokens, Inflow(c, b.lastRefill, t), Inflow(c, t, u), c.capacity);
    }
  }

  lemma CapTwice(x: real, y: real, z: real, cap: real)
    requires z >= 0.0
    ensures MinReal(x + y + z, cap) == MinReal(MinReal(x + y, cap) + z, cap)
  {
  }

  /** An acquire answers by the level alone, takes one token exactly when it is granted, and
      touches no other account. */
  lemma AcquireByLevel(buckets: Buckets, c: Limits, a: Address, now: real, other: Address)
    requires Sane(buckets, c, now)
    ensures var (after, answer) := Acquired(buckets, c, a, now);
            && Sane(after, c, now)
            && (answer.Ok? <==> Level(buckets, c, a, now) >= 1.0)
            && (answer.Err? ==>
                  Level(buckets, c, a, now) < 1.0 && answer.error == RetryMs(Level(buckets, c, a, now), c))
            && Level(after, c, a, now) == Level(buckets, c, a, now) - (if answer.Ok? then 1.0 else 0.0)
            && (other != a ==> Level(after, c, other, now) == Level(buckets, c, other, now))
  {
    LevelByInflow(buckets, c, a, now, now);
    var b := if a in buckets then buckets[a] else Bucket(c.capacity, now);
    assert Refilled(b, c, now).tokens == Level(buckets, c, a, now);
    assert Refilled(b, c, now).tokens + 0.0 * c.refill == Refilled(b, c, now).tokens;
  }

  /** Pruning forgets exactly the full buckets, and so changes no level. */
  lemma PruneByLevel(buckets: Buckets, c: Limits, now: real, a: Address)
    requires Sane(buckets, c, now)
    ensures a in Pruned(buckets, c, now) <==> a in buckets && Level(buckets, c, a, now) < c.capacity
    ensures Sane(Pruned(buckets, c, now), c, now)
    ensures Level(Pruned(buckets, c, now), c, a, now) == Level(buckets, c, a, now)
  {
    forall x | x in buckets ensures 0.0 <= Refilled(buckets[x], c, now).tokens <= c.capacity {
      LevelByInflow(buckets, c, x, now, now);
    }
  }

  datatype Event = Acquire(account: Address, at: real) | Prune(at: real)

  ghost predicate ClockForward(events: seq<Event>) {
    forall i, j :: 0 <= i <= j < |events| ==> events[i].at <= events[j].at
  }

  function After(buckets: Buckets, c: Limits, events: seq<Event>): Buckets
    requires LimitsOk(c)
  {
    if events == [] then buckets else
      var before := After(buckets, c, events[..|events| - 1]);
      match events[|events| - 1]
      case Acquire(a, now) => Acquired(before, c, a, now).0
      case Prune(now) => Pruned(before, c, now)
  }

  /** The answers given to the acquires of a run, in order. */
  function Answers(buckets: Buckets, c: Limits, events: seq<Event>): seq<Result<(), nat>>
    requires LimitsOk(c)
  {
    if events == [] then [] else
      var front := events[..|events| - 1];
      match events[|events| - 1]
      case Acquire(a, now) => Answers(buckets, c, front) + [Acquired(After(buckets, c, front), c, a, now).1]
      case Prune(_) => Answers(buckets, c, front)
  }

  /** How many acquires of `a` were granted between `s` and `t`. */
  function Granted(c: Limits, events: seq<Event>, a: Address, s: real, t: real): nat
    requires LimitsOk(c)
  {
    if events == [] then 0 else
      var front, last := events[..|events| - 1], events[|events| - 1];
      Granted(c, front, a, s, t)
      + (if last.Acquire? && last.account == a && s <= last.at <= t
            && Acquired(After(map[], c, front), c, a, last.at).1.Ok? then 1 else 0)
  }

  /** One event keeps buckets sane, and moves a level only by its own grant. */
  lemma EventStep(buckets: Buckets, c: Limits, e: Event, a: Address)
    requires Sane(buckets, c, e.at)
    ensures var after := After(buckets, c, [e]);
            && Sane(after, c, e.at)
            && Level(after, c, a, e.at)
               == Level(buckets, c, a, e.at)
                  - (if e.Acquire? && e.account == a && Acquired(buckets, c, a, e.at).1.Ok? then 1.0 else 0.0)
  {
    assert [e][..0] == [];
    match e
    case Acquire(b, now) => AcquireByLevel(buckets, c, b, now, a);
    case Prune(now) => PruneByLevel(buckets, c, now, a);
  }

  lemma AfterLast(buckets: Buckets, c: Limits, events: seq<Event>)
    requires LimitsOk(c) && events != []
    ensures After(buckets, c, events) == After(After(buckets, c, events[..|events| - 1]), c, [events[|events| - 1]])
  {
    assert [events[|events| - 1]][..0] == [];
  }

  /** Buckets stay sane along every run with a forward clock. */
  lemma {:induction false} RunSane(buckets: Buckets, c: Limits, events: seq<Event>, start: real)
    requires Sane(buckets, c, start) && ClockForward(events) && (events != [] ==> start <= events[0].at)
    ensures Sane(After(buckets, c, events), c, if events == [] then start else events[|events| - 1].at)
  {
    if events != [] {
      var front, last := events[..|events| - 1], events[|events| - 1];
      RunSane(buckets, c, front, start);
      var now := if front == [] then start else front[|front| - 1].at;
      assert now <= last.at;
      LevelByInflow(After(buckets, c, front), c, 0, now, last.at);
      EventStep(After(buckets, c, front), c, last, 0);
      AfterLast(buckets, c, events);
    }
  }

  /** Potential argument: grants so far in the window plus what is left in the bucket never
      exceed the capacity plus what was refilled since the window opened. */
  ghost predicate WithinPotential(granted: nat, left: real, c: Limits, s: real, t: real, now: real) {
    && left >= 0.0
    && (now < s ==> granted == 0)
    && (s <= now <= t ==> granted as real + left <= c.capacity + Inflow(c, s, now))
    && granted as real <= c.capacity + Inflow(c, s, t)
  }

  /** Time passes and one event happens. */
  lemma PotentialStep(granted: nat, left: real, c: Limits, s: real, t: real, prev: real, now: real, level: real,
                      grant: nat, spent: real)
    requires LimitsOk(c) && s <= t && prev <= now
    requires WithinPotential(granted, left, c, s, t, prev)
    requires level <= c.capacity && level <= left + Inflow(c, prev, now)
    requires 0.0 <= spent <= level && grant == (if s <= now <= t && spent == 1.0 then 1 else 0) && spent in {0.0, 1.0}
    ensures WithinPotential(granted + grant, level - spent, c, s, t, now)
  {
    InflowAdds(c, s, prev, now);
    InflowAdds(c, s, now, t);
    InflowAdds(c, s, s, t);
    assert (granted + grant) as real == granted as real + grant as real;
  }

  /** The effect of the last event of a run on one account: its level first rises with time
      and then drops by one exactly when the event is a grant. */
  lemma LastEvent(c: Limits, events: seq<Event>, a: Address, s: real, t: real)
    returns (prev: real, left: real, level: real, spent: real)
    requires LimitsOk(c) && ClockForward(events) && events != []
    ensures var front, last := events[..|events| - 1], events[|events| - 1];
            && prev <= last.at
            && (front != [] ==> prev == front[|front| - 1].at && left == Level(After(map[], c, front), c, a, prev))
            && (front == [] ==> prev == last.at && left == c.capacity)
            && level <= c.capacity && level <= left + Inflow(c, prev, last.at)
            && spent in {0.0, 1.0} && 0.0 <= spent <= level
            && Level(After(map[], c, events), c, a, last.at) == level - spent
            && Granted(c, events, a, s, t)
               == Granted(c, front, a, s, t) + (if s <= last.at <= t && spent == 1.0 then 1 else 0)
  {
    var front, last := events[..|events| - 1], events[|events| - 1];
    var before := After(map[], c, front);
    RunSane(map[], c, front, events[0].at);
    prev := if front == [] then last.at else front[|front| - 1].at;
    LevelByInflow(before, c, a, prev, last.at);
    EventStep(before, c, last, a);
    AfterLast(map[], c, events);
    left, level := Level(before, c, a, prev), Level(before, c, a, last.at);
    spent := if last.Acquire? && last.account == a && Acquired(before, c, a, last.at).1.Ok? then 1.0 else 0.0;
    LevelByInflow(After(map[], c, events), c, a, last.at, last.at);
  }

  lemma {:induction false} GrantPotential(c: Limits, events: seq<Event>, a: Address, s: real, t: real)
    requires LimitsOk(c) && ClockForward(events) && s <= t && events != []
    ensures var now := events[|events| - 1].at;
            WithinPotential(Granted(c, events, a, s, t), Level(After(map[], c, events), c, a, now), c, s, t, now)
  {
    var front, now := events[..|events| - 1], events[|events| - 1].at;
    var prev, left, level, spent := LastEvent(c, events, a, s, t);
    if front != [] {
      GrantPotential(c, front, a, s, t);
    } else {
      InflowAdds(c, s, s, t);
      InflowAdds(c, s, prev, t);
    }
    PotentialStep(Granted(c, front, a, s, t), left, c, s, t, prev, now, level,
                  if s <= now <= t && spent == 1.0 then 1 else 0, spent);
  }

  lemma WindowPotential(c: Limits, events: seq<Event>, a: Address, s: real, t: real)
    requires LimitsOk(c) && ClockForward(events) && s <= t
    ensures Granted(c, events, a, s, t) as real <= c.capacity + Inflow(c, s, t)
  {
    InflowAdds(c, s, s, t);
    if events != [] {
      GrantPotential(c, events, a, s, t);
    }
  }

  /** In every window no account is granted more than the burst plus the sustained rate,
      whatever other accounts and pruning do in between. */
  lemma WindowBound(c: Limits, events: seq<Event>, a: Address, s: real, t: real)
    requires LimitsOk(c) && ClockForward(events) && s <= t
    ensures Granted(c, events, a, s, t) as real <= c.capacity + (t - s) * c.refill
  {
    WindowPotential(c, events, a, s, t);
    InflowIsRate(c, s, t);
  }

  lemma InflowIsRate(c: Limits, s: real, t: real)
    ensures Inflow(c, s, t) == (t - s) * c.refill
  {
  }

  function Calls(events: seq<Event>, a: Address): nat {
    if events == [] then 0 else
      var last := events[|events| - 1];
      Calls(events[..|events| - 1], a) + (if last.Acquire? && last.account == a then 1 else 0)
  }

  lemma {:induction false} BurstLeft(c: Limits, events: seq<Event>, a: Address, now: real)
    requires LimitsOk(c) && ClockForward(events) && (events != [] ==> events[|events| - 1].at <= now)
    ensures Sane(After(map[], c, events), c, now)
    ensures Level(After(map[], c, events), c, a, now) >= c.capacity - Calls(events, a) as real
  {
    if events != [] {
      var front, last := events[..|events| - 1], events[|events| - 1];
      BurstLeft(c, front, a, last.at);
      EventStep(After(map[], c, front), c, last, a);
      AfterLast(map[], c, events);
      LevelByInflow(After(map[], c, events), c, a, last.at, now);
      InflowAdds(c, last.at, last.at, now);
    }
  }

  /** The first `capacity` calls of an account are always granted. */
  lemma BurstGranted(c: Limits, events: seq<Event>, a: Address, now: real)
    requires LimitsOk(c) && ClockForward(events) && (events != [] ==> events[|events| - 1].at <= now)
    requires (Calls(events, a) + 1) as real <= c.capacity
    ensures Acquired(After(map[], c, events), c, a, now).1.Ok?
  {
    BurstLeft(c, events, a, now);
    AcquireByLevel(After(map[], c, events), c, a, now, a);
  }

  // ---- the retry hint ----------------------------------------------------------------

  /** The hint is between 1 and 1000 milliseconds, long enough to refill what is missing, and no
      whole millisecond less would do. */
  lemma RetryHint(tokens: real, c: Limits, t: real, u: real)
    requires LimitsOk(c) && 0.0 <= tokens < 1.0
    ensures 1 <= RetryMs(tokens, c) <= 1000
    ensures u >= t + RetryMs(tokens, c) as real / 1000.0 ==> tokens + (u - t) * c.refill >= 1.0
    ensures u <= t + (RetryMs(tokens, c) - 1) as real / 1000.0 ==> tokens + (u - t) * c.refill < 1.0
  {
    var wait, r := (1.0 - tokens) / c.refill, RetryMs(tokens, c);
    assert wait * c.refill == 1.0 - tokens;
    assert 0.0 < wait <= 1.0 by {
      if wait > 1.0 { MulNonneg(wait - 1.0, c.refill - 1.0); }
      if wait <= 0.0 { MulNonneg(-wait, c.refill); }
    }
    assert r as real >= wait * 1000.0;
    if u >= t + r as real / 1000.0 {
      MulNonneg(u - t - wait, c.refill);
      assert (u - t) * c.refill == (u - t - wait) * c.refill + wait * c.refill;
    }
    if u <= t + (r - 1) as real / 1000.0 {
      assert (r - 1) as real < wait * 1000.0;
      MulPositive(wait - (u - t), c.refill);
      assert (wait - (u - t)) * c.refill == wait * c.refill - (u - t) * c.refill;
    }
  }

  lemma MulPositive(x: real, y: real)
    requires x > 0.0 && y > 0.0
    ensures x * y > 0.0
  {
  }

  ghost predicate NoneGranted(buckets: Buckets, c: Limits, events: seq<Event>, a: Address)
    requires LimitsOk(c)
  {
    forall i :: 0 <= i < |events| && events[i] == Acquire(a, events[i].at) ==>
      Acquired(After(buckets, c, events[..i]), c, a, events[i].at).1.Err?
  }

  /** With no grant in between, a level depends only on the time elapsed. */
  lemma {:induction false} LevelCarried(buckets: Buckets, c: Limits, events: seq<Event>, a: Address,
                                              start: real, u: real)
    requires Sane(buckets, c, start) && ClockForward(events) && (events != [] ==> start <= events[0].at)
    requires NoneGranted(buckets, c, events, a)
    requires start <= u && (events != [] ==> events[|events| - 1].at <= u)
    ensures Sane(After(buckets, c, events), c, u)
    ensures Level(After(buckets, c, events), c, a, u)
            == MinReal(Level(buckets, c, a, start) + Inflow(c, start, u), c.capacity)
  {
    if events == [] {
      LevelByInflow(buckets, c, a, start, u);
    } else {
      var front, last := events[..|events| - 1], events[|events| - 1];
      assert forall i :: 0 <= i < |front| ==> front[..i] == events[..i];
      LevelCarried(buckets, c, front, a, start, last.at);
      EventStep(After(buckets, c, front), c, last, a);
      AfterLast(buckets, c, events);
      LevelByInflow(After(buckets, c, events), c, a, last.at, u);
      InflowAdds(c, start, last.at, u);
    }
  }

  lemma LevelWithoutGrants(buckets: Buckets, c: Limits, events: seq<Event>, a: Address, start: real, u: real)
    requires Sane(buckets, c, start) && ClockForward(events) && (events != [] ==> start <= events[0].at)
    requires NoneGranted(buckets, c, events, a)
    requires start <= u && (events != [] ==> events[|events| - 1].at <= u)
    ensures Level(After(buckets, c, events), c, a, u)
            == MinReal(Level(buckets, c, a, start) + (u - start) * c.refill, c.capacity)
  {
    LevelCarried(buckets, c, events, a, start, u);
    InflowIsRate(c, start, u);
  }

  /** After a rejection that left `tokens`, with nothing granted in between, a call succeeds if and
      only if the refill since then makes up for what was missing. */
  lemma RetryExactIff(buckets: Buckets, c: Limits, a: Address, t: real, events: seq<Event>, u: real)
    requires Sane(buckets, c, t) && Acquired(buckets, c, a, t).1.Err? && t <= u
    requires ClockForward(events) && (events != [] ==> t <= events[0].at && events[|events| - 1].at <= u)
    requires NoneGranted(Acquired(buckets, c, a, t).0, c, events, a)
    ensures var (after, tokens) := (Acquired(buckets, c, a, t).0, Acquired(buckets, c, a, t).0[a].tokens);
            Acquired(After(after, c, events), c, a, u).1.Ok? <==> (u - t) * c.refill >= 1.0 - tokens
  {
    GrantLater(buckets, c, a, t, events, u);
    InflowIsRate(c, t, u);
  }

  lemma GrantLater(buckets: Buckets, c: Limits, a: Address, t: real, events: seq<Event>, u: real)
    requires Sane(buckets, c, t) && Acquired(buckets, c, a, t).1.Err? && t <= u
    requires ClockForward(events) && (events != [] ==> t <= events[0].at && events[|events| - 1].at <= u)
    requires NoneGranted(Acquired(buckets, c, a, t).0, c, events, a)
    ensures var (after, tokens) := (Acquired(buckets, c, a, t).0, Acquired(buckets, c, a, t).0[a].tokens);
            && 0.0 <= tokens < 1.0 && Acquired(buckets, c, a, t).1.error == RetryMs(tokens, c)
            && (Acquired(After(after, c, events), c, a, u).1.Ok? <==> tokens + Inflow(c, t, u) >= 1.0)
  {
    AcquireByLevel(buckets, c, a, t, a);
    var after := Acquired(buckets, c, a, t).0;
    LevelNow(after, c, a, t);
    LevelCarried(after, c, events, a, t, u);
    AcquireByLevel(After(after, c, events), c, a, u, a);
  }

  lemma LevelNow(buckets: Buckets, c: Limits, a: Address, t: real)
    requires Sane(buckets, c, t) && a in buckets && buckets[a].lastRefill == t
    ensures 0.0 <= Level(buckets, c, a, t) == buckets[a].tokens
  {
    assert (t - t) * c.refill == 0.0;
  }

  /** After a rejection with hint `r`, a call at least `r` milliseconds later succeeds if the
      account was granted nothing in between. */
  lemma RetryHonoured(buckets: Buckets, c: Limits, a: Address, t: real, events: seq<Event>, u: real)
    requires Sane(buckets, c, t) && Acquired(buckets, c, a, t).1.Err?
    requires ClockForward(events) && (events != [] ==> t <= events[0].at && events[|events| - 1].at <= u)
    requires NoneGranted(Acquired(buckets, c, a, t).0, c, events, a)
    requires u >= t + Acquired(buckets, c, a, t).1.error as real / 1000.0
    ensures 1 <= Acquired(buckets, c, a, t).1.error <= 1000
    ensures Acquired(After(Acquired(buckets, c, a, t).0, c, events), c, a, u).1.Ok?
  {
    LevelByInflow(buckets, c, a, t, t);
    GrantLater(buckets, c, a, t, events, u);
    RetryHint(Acquired(buckets, c, a, t).0[a].tokens, c, t, u);
    InflowIsRate(c, t, u);
  }

  /** A call with a clock before the last refill finds what was left then; nothing is added. */
  lemma BackwardAddsNothing(buckets: Buckets, c: Limits, a: Address, now: real)
    requires LimitsOk(c) && a in buckets && now < buckets[a].lastRefill && buckets[a].tokens <= c.capacity
    ensures var (after, answer) := Acquired(buckets, c, a, now);
            && (answer.Ok? <==> buckets[a].tokens >= 1.0)
            && after == buckets[a := Bucket(buckets[a].tokens - (if answer.Ok? then 1.0 else 0.0), now)]
  {
  }

  /** But the time it went back is refilled again: the window bound does need a forward clock. */
  lemma BackwardClockRefillsTwice()
    ensures var c, events := Limits(1.0, 1.0), [Acquire(0, 2.0), Acquire(0, 1.0), Acquire(0, 2.0)];
            Granted(c, events, 0, 2.0, 2.0) == 2
  {
    var c, e := Limits(1.0, 1.0), [Acquire(0, 2.0), Acquire(0, 1.0), Acquire(0, 2.0)];
    var x, y := e[..1], e[..2];
    assert x[..0] == [] && y[..1] == x && e[..|e| - 1] == y;
    assert After(map[], c, []) == map[];
    assert After(map[], c, x) == map[0 := Bucket(0.0, 2.0)];
    assert After(map[], c, y) == map[0 := Bucket(0.0, 1.0)];
    assert Granted(c, x, 0, 2.0, 2.0) == 1 && Granted(c, y, 0, 2.0, 2.0) == 1;
  }

  // ---- pruning is invisible ----------------------------------------------------------

  function WithoutPrunes(events: seq<Event>): seq<Event> {
    if events == [] then [] else
      var last := events[|events| - 1];
      WithoutPrunes(events[..|events| - 1]) + (if last.Prune? then [] else [last])
  }

  ghost predicate SameLevels(x: Buckets, y: Buckets, c: Limits, now: real) {
    Sane(x, c, now) && Sane(y, c, now) && forall a :: Level(x, c, a, now) == Level(y, c, a, now)
  }

  lemma SameLevelsLater(x: Buckets, y: Buckets, c: Limits, t: real, u: real)
    requires SameLevels(x, y, c, t) && t <= u
    ensures SameLevels(x, y, c, u)
  {
    forall a ensures Level(x, c, a, u) == Level(y, c, a, u) {
      LevelByInflow(x, c, a, t, u);
      LevelByInflow(y, c, a, t, u);
    }
    LevelByInflow(x, c, 0, t, u);
    LevelByInflow(y, c, 0, t, u);
  }

  /** Equal levels give equal answers and equal levels afterwards. */
  lemma SameLevelsStep(x: Buckets, y: Buckets, c: Limits, e: Event)
    requires SameLevels(x, y, c, e.at)
    ensures e.Acquire? ==> Acquired(x, c, e.account, e.at).1 == Acquired(y, c, e.account, e.at).1
    ensures e.Acquire? ==> SameLevels(After(x, c, [e]), After(y, c, [e]), c, e.at)
    ensures e.Prune? ==> SameLevels(After(x, c, [e]), y, c, e.at)
  {
    EventStep(x, c, e, 0);
    EventStep(y, c, e, 0);
    if e.Acquire? {
      AcquireByLevel(x, c, e.account, e.at, 0);
      AcquireByLevel(y, c, e.account, e.at, 0);
    }
    forall a
      ensures Level(After(x, c, [e]), c, a, e.at) == Level(if e.Prune? then y else After(y, c, [e]), c, a, e.at)
    {
      EventStep(x, c, e, a);
      EventStep(y, c, e, a);
    }
  }

  lemma {:induction false} PruneSimulates(c: Limits, events: seq<Event>, now: real)
    requires LimitsOk(c) && ClockForward(events) && (events != [] ==> events[|events| - 1].at <= now)
    ensures SameLevels(After(map[], c, events), After(map[], c, WithoutPrunes(events)), c, now)
    ensures Answers(map[], c, events) == Answers(map[], c, WithoutPrunes(events))
  {
    if events != [] {
      var front, last := events[..|events| - 1], events[|events| - 1];
      PruneSimulates(c, front, last.at);
      PruneStep(c, events, WithoutPrunes(front));
      SameLevelsLater(After(map[], c, events), After(map[], c, WithoutPrunes(events)), c, last.at, now);
    }
  }

  /** One more event on a run and on its pruneless twin. */
  lemma PruneStep(c: Limits, events: seq<Event>, twin: seq<Event>)
    requires LimitsOk(c) && events != [] && twin == WithoutPrunes(events[..|events| - 1])
    requires SameLevels(After(map[], c, events[..|events| - 1]), After(map[], c, twin), c, events[|events| - 1].at)
    requires Answers(map[], c, events[..|events| - 1]) == Answers(map[], c, twin)
    ensures SameLevels(After(map[], c, events), After(map[], c, WithoutPrunes(events)), c, events[|events| - 1].at)
    ensures Answers(map[], c, events) == Answers(map[], c, WithoutPrunes(events))
  {
    var last, kept := events[|events| - 1], WithoutPrunes(events);
    SameLevelsStep(After(map[], c, events[..|events| - 1]), After(map[], c, twin), c, last);
    AfterLast(map[], c, events);
    if last.Acquire? {
      assert kept[..|kept| - 1] == twin;
      AfterLast(map[], c, kept);
    } else {
      assert kept == twin;
    }
  }

  /** Dropping every prune from a run changes no answer. */
  lemma PruneInvisible(c: Limits, events: seq<Event>)
    requires LimitsOk(c) && ClockForward(events)
    ensures Answers(map[], c, events) == Answers(map[], c, WithoutPrunes(events))
  {
    PruneSimulates(c, events, if events == [] then 0.0 else events[|events| - 1].at);
  }
}
