/** What `Mempool::admit` answers, and what it does to the pool, in terms of the transaction, the
    account, the load and the entry it meets: `lemma-mempool/src/pool.rs` and `validation.rs`. */
module Admission {
  import opened Primitives
  import opened Breaker
  import opened Fees
  import opened PoolIndex
  import opened Pool

  // ---- ingress validation ------------------------------------------------------------

  function AccountOf(call: Call): Account {
    if call.ingress.account.Some? then call.ingress.account.value else Account(0, 0)
  }

  function Cost(tx: Tx): nat { tx.gasPrice * tx.gasLimit + tx.value }

  /** The checks in their order, each with the error it reports. */
  function Checks(call: Call): seq<(bool, PoolError)> {
    var tx, ing, acct := call.tx, call.ingress, AccountOf(call);
    [(tx.gasLimit > 0, ZeroGasLimit),
     (tx.chainId == call.chainId, ChainIdMismatch),
     (ing.sizeBytes <= 131_072, TransactionTooLarge),
     (ing.keyMatches && !ing.signature.SigInvalid?, InvalidSignature),
     (!ing.signature.CryptoFault?, CryptoError),
     (acct.nonce <= tx.nonce, Rejected(NonceTooLow(tx.nonce, acct.nonce))),
     (tx.nonce <= acct.nonce + 64, Rejected(NonceGapTooLarge(tx.nonce, acct.nonce, 64))),
     (Cost(tx) <= acct.balance, Rejected(InsufficientBalance(Min(Cost(tx), U128_MAX), acct.balance))),
     (call.baseFee <= tx.gasPrice, Rejected(GasPriceTooLow(tx.gasPrice, call.baseFee)))]
  }

  ghost predicate AllPass(checks: seq<(bool, PoolError)>) { forall i :: 0 <= i < |checks| ==> checks[i].0 }

  ghost predicate FirstFailure(checks: seq<(bool, PoolError)>, e: PoolError) {
    exists i :: 0 <= i < |checks| && !checks[i].0 && checks[i].1 == e && forall j :: 0 <= j < i ==> checks[j].0
  }

  /** Balances are `u128`. */
  predicate RealBalance(call: Call) { AccountOf(call).balance <= U128_MAX }

  /** Validation passes exactly when every check passes and reports the first one that does not. */
  lemma ValidateIff(call: Call)
    requires RealBalance(call)
    ensures Validate(call).Ok? <==> AllPass(Checks(call))
    ensures Validate(call).Err? ==> FirstFailure(Checks(call), Validate(call).error)
  {
    var checks, v := Checks(call), Validate(call);
    BalanceCheckExact(call.tx.gasLimit, call.tx.gasPrice, call.tx.value, AccountOf(call).balance);
    if v.Err? {
      var i := Failing(v.error);
      assert !checks[i].0 && checks[i].1 == v.error;
    }
  }

  /** The place of an error in the order of the checks. */
  function Failing(e: PoolError): (i: nat)
    ensures i < 9
  {
    match e
    case ZeroGasLimit => 0
    case ChainIdMismatch => 1
    case TransactionTooLarge => 2
    case InvalidSignature => 3
    case CryptoError => 4
    case Rejected(NonceTooLow(_, _)) => 5
    case Rejected(NonceGapTooLarge(_, _, _)) => 6
    case Rejected(InsufficientBalance(_, _)) => 7
    case _ => 8
  }

  // ---- the gates -----------------------------------------------------------------------

  /** The buckets are those of a run with a forward clock, and the balance is a `u128`. */
  ghost predicate Askable(p: State, call: Call) { RL.Sane(p.buckets, p.limits, call.now) && RealBalance(call) }

  predicate LoadAdmits(p: State, call: Call) { AdmittedAt(call.tx.txType, |p.index.entries|, p.index.capacity) }

  predicate HasToken(p: State, call: Call) { RL.Level(p.buckets, p.limits, call.tx.sender, call.now) >= 1.0 }

  /** Validation, load and rate limit let the transaction through to the indexes. */
  ghost predicate PassesGates(p: State, call: Call) {
    AllPass(Checks(call)) && LoadAdmits(p, call) && HasToken(p, call)
  }

  /** The first gate that does not open answers and nothing changes, except that a rate-limited
      sender's bucket is refilled. */
  lemma GatesDecide(p: State, call: Call)
    requires Askable(p, call) && !PassesGates(p, call)
    ensures var (after, r) := Admitted(p, call);
            && r.Err? && after == p.(buckets := after.buckets)
            && (!AllPass(Checks(call)) ==> FirstFailure(Checks(call), r.error) && after == p)
            && (AllPass(Checks(call)) ==>
                  if !LoadAdmits(p, call) then r.error.CircuitBreakerRejected? && after == p
                  else r.error.RateLimited? && 1 <= r.error.retryAfterMs <= 1000)
  {
    ValidateIff(call);
    AdmittedAtIff(call.tx.txType, |p.index.entries|, p.index.capacity);
    RL.AcquireByLevel(p.buckets, p.limits, call.tx.sender, call.now, call.tx.sender);
    RL.LevelByInflow(p.buckets, p.limits, call.tx.sender, call.now, call.now);
    if !HasToken(p, call) {
      RL.RetryHint(RL.Level(p.buckets, p.limits, call.tx.sender, call.now), p.limits, call.now, call.now);
    }
  }

  /** Past the gates one token is spent and the indexes decide. */
  lemma PastGates(p: State, call: Call, priority: nat)
    requires Askable(p, call) && PassesGates(p, call) && priority == Score(call)
    ensures var (after, r) := Admitted(p, call);
            && (after.index, r) == Placed(p.index, call.tx, priority, call.express)
            && RL.Level(after.buckets, p.limits, call.tx.sender, call.now)
               == RL.Level(p.buckets, p.limits, call.tx.sender, call.now) - 1.0
            && after.loads == if r.Ok? then FeesRecorded(p.loads, call.tx) else p.loads
  {
    ValidateIff(call);
    AdmittedAtIff(call.tx.txType, |p.index.entries|, p.index.capacity);
    RL.AcquireByLevel(p.buckets, p.limits, call.tx.sender, call.now, call.tx.sender);
    PriorityExact(call.tx.gasPrice, call.stake);
  }

  /** The price plus one point per whole token staked, at most a million, within `u64`. */
  function Score(call: Call): nat {
    Min(call.tx.gasPrice + Min(call.stake / 1_000_000_000_000_000_000, 1_000_000), 0xFFFF_FFFF_FFFF_FFFF)
  }

  // ---- past the gates ------------------------------------------------------------------

  function Newcomer(p: State, call: Call): Entry { Entry(call.tx, Score(call), p.index.nextSeq, call.express) }

  predicate Meets(e: Entry, tx: Tx) { e.tx.sender == tx.sender && e.tx.nonce == tx.nonce }

  /** A tenth more, rounded down, or the largest `u128` where the product overflows. */
  function Bumped(price: nat): nat {
    if price * 11_000 <= 0xFFFF_FFFF_FFFF_FFFF_FFFF_FFFF_FFFF_FFFF then price + price / 10
    else 0xFFFF_FFFF_FFFF_FFFF_FFFF_FFFF_FFFF_FFFF
  }

  /** A transaction that meets an entry of its sender and nonce replaces it if and only if it pays a
      tenth more; then nothing else moves. Otherwise the indexes stay as they are. */
  lemma ReplacesIff(p: State, call: Call, id: Hash -> (Address, nat), prior: Hash)
    requires Askable(p, call) && PassesGates(p, call) && Consistent(p.index, id)
    requires prior in p.index.entries && Meets(p.index.entries[prior], call.tx)
    requires p.index.entries[prior].tx.gasPrice <= U128_MAX
    ensures var (after, r) := Admitted(p, call);
            var price := p.index.entries[prior].tx.gasPrice;
            if call.tx.gasPrice >= Bumped(price)
            then && r == Ok(Replaced(prior))
                 && after.index.entries == (p.index.entries - {prior})[call.tx.hash := Newcomer(p, call)]
            else r == Err(ReplacementUnderpriced(price, call.tx.gasPrice)) && after.index == p.index
  {
    PastGates(p, call, Score(call));
    PlacedOver(p.index, id, call.tx, Score(call), call.express, prior);
  }

  lemma PlacedOver(ix: Index, id: Hash -> (Address, nat), tx: Tx, priority: nat, express: bool, prior: Hash)
    requires Consistent(ix, id) && prior in ix.entries && Meets(ix.entries[prior], tx)
    requires ix.entries[prior].tx.gasPrice <= U128_MAX
    ensures var (after, r) := Placed(ix, tx, priority, express);
            var price := ix.entries[prior].tx.gasPrice;
            if tx.gasPrice >= Bumped(price)
            then && r == Ok(Replaced(prior))
                 && after.entries == (ix.entries - {prior})[tx.hash := Entry(tx, priority, ix.nextSeq, express)]
            else r == Err(ReplacementUnderpriced(price, tx.gasPrice)) && after == ix
  {
    RbfBump(ix.entries[prior].tx.gasPrice);
    assert Lookup(ix.bySender, tx.sender, tx.nonce) == Some(prior);
  }

  /** One that meets none is added while there is room; in a full pool it takes the place of the lowest
      entry if it has a higher priority, and is refused otherwise. */
  lemma NewcomerOutcome(p: State, call: Call, id: Hash -> (Address, nat))
    requires Askable(p, call) && PassesGates(p, call) && Consistent(p.index, id)
    requires forall h :: h in p.index.entries ==> !Meets(p.index.entries[h], call.tx)
    ensures var (after, r) := Admitted(p, call);
            PlacedNewly(p.index.entries, p.index.capacity, after.index.entries, r, Newcomer(p, call))
  {
    PastGates(p, call, Score(call));
    PlacedNewEffect(p.index, id, call.tx, Score(call), call.express);
  }

  /** An admitted call or deployment counts once towards its target; nothing else counts. */
  lemma LoadsCounted(p: State, call: Call, a: Address)
    requires RL.LimitsOk(p.limits)
    ensures var (after, r) := Admitted(p, call);
            LF.At(after.loads, a)
            == var l := LF.At(p.loads, a);
               if r.Ok? && call.tx.to == Some(a) && (call.tx.txType.ContractCall? || call.tx.txType.ContractDeploy?)
               then LF.Load(l.ema, Min(l.count + 1, 0xFFFF_FFFF_FFFF_FFFF)) else l
  {
  }

  /** A block tick moves no entry, ages every load by one block and changes no token level. */
  lemma TickEffect(p: State, now: real, a: Address)
    requires RL.Sane(p.buckets, p.limits, now)
    requires LF.At(p.loads, a).ema <= U64_MAX && LF.At(p.loads, a).count <= U64_MAX
    ensures var after, l := NewBlock(p, now), LF.At(p.loads, a);
            && after.index == p.index && after.limits == p.limits
            && LF.At(after.loads, a) == LF.Load((7 * l.ema + l.count) / 8, 0)
            && RL.Level(after.buckets, p.limits, a, now) == RL.Level(p.buckets, p.limits, a, now)
  {
    LF.EmaBetween(LF.At(p.loads, a).ema, LF.At(p.loads, a).count);
    RL.PruneByLevel(p.buckets, p.limits, now, a);
  }
}
