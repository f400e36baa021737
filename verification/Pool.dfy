/** The admission pipeline over the pool indexes, and what every run of it keeps:
    `lemma-mempool/src/pool.rs`, with `mempool_post_commit` of `lemma-node/src/block_exec.rs`. */
module Pool {
  import opened Primitives
  import opened Breaker
  import opened Fees
  import opened PoolIndex
  import RL = RateLimit
  import LF = LocalFees

  const MAX_TX_SIZE: nat := 128 * 1024
  const MIN_REPLACE_BUMP_BPS: nat := 1_000

  datatype SigVerdict = SigValid | SigInvalid | CryptoFault

  datatype Account = Account(nonce: nat, balance: nat)

  /** What the node looks up or verifies for the pool: encoded size, key derivation, signature
      and the sender's account, if it has one. */
  datatype Ingress = Ingress(sizeBytes: nat, keyMatches: bool, signature: SigVerdict, account: Option<Account>)

  /** One `admit` call. */
  datatype Call = Call(tx: Tx, stake: nat, express: bool, ingress: Ingress, chainId: nat, baseFee: nat, now: real)

  datatype PoolError =
    | ZeroGasLimit
    | ChainIdMismatch
    | TransactionTooLarge
    | InvalidSignature
    | CryptoError
    | Rejected(reason: AdmissionError)
    | CircuitBreakerRejected(tier: NetworkTier)
    | RateLimited(retryAfterMs: nat)
    | ReplacementUnderpriced(oldPrice: nat, newPrice: nat)
    | PoolFull(capacity: nat)

  datatype AdmitOutcome = AsNew | Replaced(replacedHash: Hash)

  /** Ingress validation, first failure wins. */
  function Validate(call: Call): Result<(), PoolError> {
    var tx, ing := call.tx, call.ingress;
    if tx.gasLimit == 0 then Err(ZeroGasLimit)
    else if tx.chainId != call.chainId then Err(ChainIdMismatch)
    else if ing.sizeBytes > MAX_TX_SIZE then Err(TransactionTooLarge)
    else if !ing.keyMatches || ing.signature.SigInvalid? then Err(InvalidSignature)
    else if ing.signature.CryptoFault? then Err(CryptoError)
    else
      var account := if ing.account.Some? then ing.account.value else Account(0, 0);
      var nonceCheck := ValidateNonce(tx.nonce, account.nonce);
      var balanceCheck := ValidateBalance(tx.gasLimit, tx.gasPrice, tx.value, account.balance);
      var priceCheck := ValidateGasPrice(tx.gasPrice, call.baseFee);
      if nonceCheck.Err? then Err(Rejected(nonceCheck.error))
      else if balanceCheck.Err? then Err(Rejected(balanceCheck.error))
      else if priceCheck.Err? then Err(Rejected(priceCheck.error))
      else Ok(())
  }

  /** The price a replacement must reach. */
  function RbfMinPrice(oldPrice: nat): nat {
    match CheckedMul(oldPrice, 10_000 + MIN_REPLACE_BUMP_BPS)
    case None => U128_MAX
    case Some(v) => v / 10_000
  }

  /** A replacement must raise the price by a tenth rounded down, so a strict raise is demanded
      exactly from ten Drops up; on overflow only the largest price can replace. */
  lemma RbfBump(oldPrice: nat)
    requires oldPrice <= U128_MAX
    ensures oldPrice * 11_000 <= U128_MAX ==> RbfMinPrice(oldPrice) == oldPrice + oldPrice / 10
    ensures oldPrice * 11_000 <= U128_MAX ==> (RbfMinPrice(oldPrice) > oldPrice <==> oldPrice >= 10)
    ensures oldPrice * 11_000 > U128_MAX ==> RbfMinPrice(oldPrice) == U128_MAX
  {
  }

  // ---- placing a transaction into the indexes ----------------------------------------

  /** Capacity and insertion, for a transaction that replaces nothing. */
  function PlacedAsNew(ix: Index, tx: Tx, priority: nat, express: bool): (Index, Result<AdmitOutcome, PoolError>) {
    match RoomFor(ix, priority)
    case None => (ix, Err(PoolFull(ix.capacity)))
    case Some(room) => (Inserted(room, tx, priority, express), Ok(AsNew))
  }

  /** Replace-by-fee, capacity and insertion. A sender index that points at a missing entry is
      cleaned up and the transaction is treated as new. */
  function Placed(ix: Index, tx: Tx, priority: nat, express: bool): (Index, Result<AdmitOutcome, PoolError>) {
    match Lookup(ix.bySender, tx.sender, tx.nonce)
    case None => PlacedAsNew(ix, tx, priority, express)
    case Some(prior) =>
      if prior !in ix.entries then
        PlacedAsNew(ix.(bySender := DropNonce(ix.bySender, tx.sender, tx.nonce)), tx, priority, express)
      else if tx.gasPrice < RbfMinPrice(ix.entries[prior].tx.gasPrice) then
        (ix, Err(ReplacementUnderpriced(ix.entries[prior].tx.gasPrice, tx.gasPrice)))
      else
        (Inserted(Removed(ix, prior, KeyOf(ix.entries[prior])), tx, priority, express), Ok(Replaced(prior)))
  }

  /** Swapping one entry for a newcomer keeps the indexes consistent, if the newcomer's sender
      and nonce were free or were those of the entry that goes. */
  lemma SwapKeeps(ix: Index, id: Hash -> (Address, nat), out: Hash, tx: Tx, priority: nat, express: bool)
    requires Consistent(ix, id) && id(tx.hash) == (tx.sender, tx.nonce) && ix.nextSeq < U64_MAX
    requires out in ix.entries && Lookup(ix.bySender, tx.sender, tx.nonce) in {None, Some(out)}
    ensures var after := Inserted(Removed(ix, out, KeyOf(ix.entries[out])), tx, priority, express);
            Consistent(after, id) && |after.entries| == |ix.entries|
  {
    RemoveKeeps(ix, id, out);
    FreedSlot(ix.entries, ix.bySender, out, tx.sender, tx.nonce);
    InsertKeeps(Removed(ix, out, KeyOf(ix.entries[out])), id, tx, priority, express);
  }

  lemma FreedSlot(entries: Entries, bySender: SenderIndex, out: Hash, sender: Address, nonce: nat)
    requires SenderOk(entries, bySender) && out in entries && Lookup(bySender, sender, nonce) in {None, Some(out)}
    ensures Lookup(DropNonce(bySender, entries[out].tx.sender, entries[out].tx.nonce), sender, nonce).None?
  {
    SenderIndexLaws(bySender, entries[out].tx.sender, entries[out].tx.nonce, out);
  }

  /** The index effect common to all outcomes of placing. */
  ghost predicate PlacedWell(ix: Index, after: Index, failed: bool) {
    && after.capacity == ix.capacity && after.nextSeq <= ix.nextSeq + 1
    && |ix.entries| <= |after.entries|
    && (failed ==> after == ix)
  }

  lemma PlacedNewKeeps(ix: Index, id: Hash -> (Address, nat), tx: Tx, priority: nat, express: bool)
    requires Consistent(ix, id) && id(tx.hash) == (tx.sender, tx.nonce) && ix.nextSeq < U64_MAX
    requires Lookup(ix.bySender, tx.sender, tx.nonce).None?
    ensures var (after, r) := Placed(ix, tx, priority, express);
            Consistent(after, id) && PlacedWell(ix, after, r.Err?)
  {
    if |ix.entries| < ix.capacity {
      InsertKeeps(ix, id, tx, priority, express);
    } else {
      var low := RoomWhenFull(ix, id, priority);
      if RoomFor(ix, priority).Some? {
        SwapKeeps(ix, id, low, tx, priority, express);
      }
    }
  }

  /** Placing keeps the indexes consistent, and a refused transaction changes none of them: the
      clean-up of a dangling sender index is never reached. */
  lemma PlacedKeeps(ix: Index, id: Hash -> (Address, nat), tx: Tx, priority: nat, express: bool)
    requires Consistent(ix, id) && id(tx.hash) == (tx.sender, tx.nonce) && ix.nextSeq < U64_MAX
    ensures var (after, r) := Placed(ix, tx, priority, express);
            Consistent(after, id) && PlacedWell(ix, after, r.Err?)
    ensures Lookup(ix.bySender, tx.sender, tx.nonce).Some? ==>
        Lookup(ix.bySender, tx.sender, tx.nonce).value in ix.entries
  {
    match Lookup(ix.bySender, tx.sender, tx.nonce)
    case None => PlacedNewKeeps(ix, id, tx, priority, express);
    case Some(prior) =>
      if tx.gasPrice >= RbfMinPrice(ix.entries[prior].tx.gasPrice) {
        SwapKeeps(ix, id, prior, tx, priority, express);
      }
  }

  /** A newcomer in a full pool takes the place of the lowest entry. */
  ghost predicate TookPlaceOfLowest(before: Entries, after: Entries, low: Hash, newcomer: Hash, priority: nat) {
    && low in before && before[low].priority < priority
    && (forall h :: h in before && h != low ==> Outranks(before[h], before[low]))
    && after.Keys == before.Keys - {low} + {newcomer}
    && (forall h :: h in after && h != newcomer ==> after[h] == before[h])
    && after[newcomer].priority == priority
  }

  /** The entries after placing a transaction whose sender and nonce are new: it is added while
      there is room; in a full pool it is refused or takes the place of the lowest entry. */
  ghost predicate PlacedNewly(before: Entries, capacity: nat, after: Entries, r: Result<AdmitOutcome, PoolError>,
                              e: Entry) {
    if |before| < capacity then r == Ok(AsNew) && after == before[e.tx.hash := e]
    else if r.Err? then
      r == Err(PoolFull(capacity)) && after == before && forall h :: h in before ==> e.priority <= before[h].priority
    else
      && r == Ok(AsNew) && e.tx.hash in after && after[e.tx.hash] == e
      && exists low :: TookPlaceOfLowest(before, after, low, e.tx.hash, e.priority)
  }

  lemma PlacedNewEffect(ix: Index, id: Hash -> (Address, nat), tx: Tx, priority: nat, express: bool)
    requires Consistent(ix, id) && Lookup(ix.bySender, tx.sender, tx.nonce).None?
    ensures var (after, r) := Placed(ix, tx, priority, express);
            PlacedNewly(ix.entries, ix.capacity, after.entries, r, Entry(tx, priority, ix.nextSeq, express))
  {
    if |ix.entries| == ix.capacity {
      var low := RoomWhenFull(ix, id, priority);
      if RoomFor(ix, priority).Some? {
        var after := Placed(ix, tx, priority, express).0;
        assert after.entries == (ix.entries - {low})[tx.hash := Entry(tx, priority, ix.nextSeq, express)];
        assert TookPlaceOfLowest(ix.entries, after.entries, low, tx.hash, priority);
      }
    }
  }

  // ---- the whole pool ----------------------------------------------------------------

  /** The fields of a `Mempool` as one value. */
  datatype State = State(index: Index, limits: RL.Limits, buckets: RL.Buckets, loads: LF.Loads)

  function Empty(capacity: nat, limits: RL.Limits): State {
    State(Index(map[], map[], map[], 0, capacity), limits, map[], map[])
  }

  /** Calls and deployments with a target count towards the target's local fee. */
  function FeesRecorded(loads: LF.Loads, tx: Tx): LF.Loads {
    if tx.to.Some? && (tx.txType.ContractCall? || tx.txType.ContractDeploy?)
    then loads[tx.to.value := LF.Recorded(LF.At(loads, tx.to.value))]
    else loads
  }

  /** The admission pipeline. */
  function Admitted(p: State, call: Call): (State, Result<AdmitOutcome, PoolError>)
    requires RL.LimitsOk(p.limits)
  {
    var valid := Validate(call);
    if valid.Err? then (p, Err(valid.error)) else
    var tier := FromLoad(|p.index.entries|, p.index.capacity);
    if !Admits(tier, call.tx.txType) then (p, Err(CircuitBreakerRejected(tier))) else
    var (buckets, answer) := RL.Acquired(p.buckets, p.limits, call.tx.sender, call.now);
    if answer.Err? then (p.(buckets := buckets), Err(RateLimited(answer.error))) else
    var (index, r) := Placed(p.index, call.tx, PriorityScore(call.tx.gasPrice, call.stake), call.express);
    (p.(buckets := buckets, index := index, loads := if r.Ok? then FeesRecorded(p.loads, call.tx) else p.loads), r)
  }

  function RemovedTx(p: State, hash: Hash): (State, Option<Entry>) {
    if hash !in p.index.entries then (p, None) else
      var e := p.index.entries[hash];
      (p.(index := Removed(p.index, hash, KeyOf(e))), Some(e))
  }

  function NewBlock(p: State, now: real): State {
    p.(buckets := RL.Pruned(p.buckets, p.limits, now), loads := LF.IdlePruned(LF.AllTicked(p.loads)))
  }

  /** An admission either stops before the indexes or is decided by placing. */
  lemma AdmittedCases(p: State, call: Call)
    requires RL.LimitsOk(p.limits)
    ensures var (after, r) := Admitted(p, call);
            var placed := Placed(p.index, call.tx, PriorityScore(call.tx.gasPrice, call.stake), call.express);
            && after.limits == p.limits
            && ((after.index == p.index && after.loads == p.loads && r.Err? && !r.error.PoolFull?)
                || (after.index == placed.0 && r == placed.1
                    && Admits(FromLoad(|p.index.entries|, p.index.capacity), call.tx.txType)))
  {
  }

  /** The pool after one admission, given the indexes were consistent. */
  lemma AdmittedKeeps(p: State, call: Call, id: Hash -> (Address, nat))
    requires RL.LimitsOk(p.limits) && Consistent(p.index, id)
    requires id(call.tx.hash) == (call.tx.sender, call.tx.nonce) && p.index.nextSeq < U64_MAX
    ensures Consistent(Admitted(p, call).0.index, id)
    ensures PlacedWell(p.index, Admitted(p, call).0.index, Admitted(p, call).1.Err?)
  {
    AdmittedCases(p, call);
    PlacedKeeps(p.index, id, call.tx, PriorityScore(call.tx.gasPrice, call.stake), call.express);
  }

  /** A failed admission leaves everything as it was, except perhaps the sender's bucket. */
  lemma FailedAdmissionInvisible(p: State, call: Call, id: Hash -> (Address, nat))
    requires RL.LimitsOk(p.limits) && Consistent(p.index, id)
    requires id(call.tx.hash) == (call.tx.sender, call.tx.nonce) && p.index.nextSeq < U64_MAX
    requires Admitted(p, call).1.Err?
    ensures var after := Admitted(p, call).0;
            && after == p.(buckets := after.buckets)
            && (forall a :: a != call.tx.sender ==> (a in after.buckets <==> a in p.buckets))
            && (forall a :: a != call.tx.sender && a in p.buckets ==> after.buckets[a] == p.buckets[a])
  {
    AdmittedKeeps(p, call, id);
  }

  // ---- every run ---------------------------------------------------------------------

  datatype Op = Admit(call: Call) | Remove(hash: Hash) | Tick(now: real)

  function Step(p: State, op: Op): State
    requires RL.LimitsOk(p.limits)
  {
    match op
    case Admit(call) => Admitted(p, call).0
    case Remove(hash) => RemovedTx(p, hash).0
    case Tick(now) => NewBlock(p, now)
  }

  function After(capacity: nat, limits: RL.Limits, ops: seq<Op>): (p: State)
    requires RL.LimitsOk(limits)
    ensures p.limits == limits && p.index.capacity == capacity
  {
    if ops == [] then Empty(capacity, limits) else
      var before := After(capacity, limits, ops[..|ops| - 1]);
      AdmittedShape(before, ops[|ops| - 1]);
      Step(before, ops[|ops| - 1])
  }

  lemma AdmittedShape(p: State, op: Op)
    requires RL.LimitsOk(p.limits)
    ensures Step(p, op).limits == p.limits && Step(p, op).index.capacity == p.index.capacity
  {
  }

  /** The transaction hash determines sender and nonce. */
  ghost predicate Named(ops: seq<Op>, id: Hash -> (Address, nat)) {
    forall i :: 0 <= i < |ops| && ops[i].Admit? ==>
        id(ops[i].call.tx.hash) == (ops[i].call.tx.sender, ops[i].call.tx.nonce)
  }

  /** Whatever the mix of admissions, removals and block ticks, the three indexes describe the
      same set of at most `capacity` transactions. */
  lemma {:induction false} RunConsistent(capacity: nat, limits: RL.Limits, ops: seq<Op>, id: Hash -> (Address, nat))
    requires RL.LimitsOk(limits) && Named(ops, id) && |ops| < U64_MAX
    ensures Consistent(After(capacity, limits, ops).index, id)
    ensures After(capacity, limits, ops).index.nextSeq <= |ops|
  {
    if ops != [] {
      var front, last := ops[..|ops| - 1], ops[|ops| - 1];
      RunConsistent(capacity, limits, front, id);
      StepConsistent(After(capacity, limits, front), last, id);
    }
  }

  lemma StepConsistent(p: State, op: Op, id: Hash -> (Address, nat))
    requires RL.LimitsOk(p.limits) && Consistent(p.index, id) && p.index.nextSeq < U64_MAX
    requires op.Admit? ==> id(op.call.tx.hash) == (op.call.tx.sender, op.call.tx.nonce)
    ensures Consistent(Step(p, op).index, id) && Step(p, op).index.nextSeq <= p.index.nextSeq + 1
  {
    match op
    case Admit(call) => AdmittedKeeps(p, call, id);
    case Remove(hash) => if hash in p.index.entries { RemoveKeeps(p.index, id, hash); }
    case Tick(_) =>
  }

  /** After every run, retrieval returns exactly the highest entries in descending order. */
  lemma RunPendingExact(capacity: nat, limits: RL.Limits, ops: seq<Op>, id: Hash -> (Address, nat), limit: nat)
    requires RL.LimitsOk(limits) && Named(ops, id) && |ops| < U64_MAX
    ensures var ix := After(capacity, limits, ops).index;
            TopEntries(ix.entries, limit, Pending(ix, limit)) && |ix.entries| <= capacity
  {
    RunConsistent(capacity, limits, ops, id);
    PendingExact(After(capacity, limits, ops).index, id, limit);
  }

  // ---- streaming selection -----------------------------------------------------------

  /** Only admissions and ticks, and no sender and nonce twice. */
  ghost predicate FreshAdmissions(ops: seq<Op>) {
    && (forall i :: 0 <= i < |ops| ==> !ops[i].Remove?)
    && (forall i, j :: 0 <= i < j < |ops| && ops[i].Admit? && ops[j].Admit? ==>
          (ops[i].call.tx.sender, ops[i].call.tx.nonce) != (ops[j].call.tx.sender, ops[j].call.tx.nonce))
  }

  /** The priorities lost by one step: a newcomer refused because the pool is full, or an entry
      that was there before and is not there after. */
  ghost function LostAt(p: State, op: Op): set<nat>
    requires RL.LimitsOk(p.limits)
  {
    var evicted := Evicted(p.index.entries, Step(p, op).index.entries);
    if op.Admit? && Admitted(p, op.call).1 == Err(PoolFull(p.index.capacity))
    then evicted + {PriorityScore(op.call.tx.gasPrice, op.call.stake)} else evicted
  }

  ghost function Evicted(before: Entries, after: Entries): set<nat> {
    set h | h in before && h !in after :: before[h].priority
  }

  lemma NobodyEvicted(before: Entries, after: Entries)
    requires before.Keys <= after.Keys
    ensures Evicted(before, after) == {}
  {
  }

  lemma OneEvicted(before: Entries, after: Entries, low: Hash, newcomer: Hash, priority: nat)
    requires TookPlaceOfLowest(before, after, low, newcomer, priority)
    ensures Evicted(before, after) <= {before[low].priority}
  {
  }

  ghost function Lost(capacity: nat, limits: RL.Limits, ops: seq<Op>): set<nat>
    requires RL.LimitsOk(limits)
  {
    if ops == [] then {} else
      var front := ops[..|ops| - 1];
      Lost(capacity, limits, front) + LostAt(After(capacity, limits, front), ops[|ops| - 1])
  }

  /** Every pooled transaction was submitted by some earlier operation. */
  ghost predicate FromRun(entries: Entries, ops: seq<Op>) {
    forall h :: h in entries ==> exists i :: 0 <= i < |ops| && ops[i].Admit? && ops[i].call.tx == entries[h].tx
  }

  ghost predicate TopK(entries: Entries, capacity: nat, lost: set<nat>) {
    && (lost != {} ==> |entries| == capacity)
    && (forall l, h :: l in lost && h in entries ==> l <= entries[h].priority)
  }

  /** The effect of one admission on the entries, seen from the selection. */
  datatype Effect = Nothing | Grew(e: Entry) | Refused(priority: nat) | Swapped(low: Hash, priority: nat)

  ghost predicate Selects(before: Entries, after: Entries, capacity: nat, tx: Tx, lostNow: set<nat>, effect: Effect) {
    match effect
    case Nothing => after == before && lostNow == {}
    case Grew(e) => |before| < capacity && lostNow == {} && e.tx == tx && after == before[tx.hash := e]
    case Refused(priority) =>
      && after == before && |before| == capacity && lostNow == {priority}
      && forall h :: h in before ==> priority <= before[h].priority
    case Swapped(low, priority) =>
      && |before| == |after| == capacity && TookPlaceOfLowest(before, after, low, tx.hash, priority)
      && after[tx.hash].tx == tx && lostNow <= {before[low].priority}
  }

  lemma SelectionKeepsTopK(before: Entries, after: Entries, capacity: nat, tx: Tx, lost: set<nat>, lostNow: set<nat>,
                           effect: Effect)
    requires TopK(before, capacity, lost) && Selects(before, after, capacity, tx, lostNow, effect)
    ensures TopK(after, capacity, lost + lostNow)
    ensures forall h :: h in after ==> (h in before && after[h] == before[h]) || after[h].tx == tx
  {
    match effect
    case Nothing =>
    case Grew(_) =>
    case Refused(_) =>
    case Swapped(low, priority) =>
      forall l, h | l in lost + lostNow && h in after ensures l <= after[h].priority {
        assert l <= before[low].priority;
        if h != tx.hash { assert h in before; }
      }
  }

  lemma AdmissionIsSelection(p: State, call: Call, id: Hash -> (Address, nat)) returns (effect: Effect)
    requires RL.LimitsOk(p.limits) && Consistent(p.index, id) && p.index.nextSeq < U64_MAX
    requires id(call.tx.hash) == (call.tx.sender, call.tx.nonce)
    requires Lookup(p.index.bySender, call.tx.sender, call.tx.nonce).None?
    ensures Selects(p.index.entries, Admitted(p, call).0.index.entries, p.index.capacity, call.tx,
                    LostAt(p, Admit(call)), effect)
  {
    var e := Entry(call.tx, PriorityScore(call.tx.gasPrice, call.stake), p.index.nextSeq, call.express);
    var (after, r) := Admitted(p, call);
    AdmittedCases(p, call);
    AdmittedKeeps(p, call, id);
    PlacedNewEffect(p.index, id, call.tx, e.priority, call.express);
    effect := SelectionOf(p.index.entries, p.index.capacity, after.index.entries, r, e, LostAt(p, Admit(call)));
  }

  lemma SelectionOf(before: Entries, capacity: nat, after: Entries, r: Result<AdmitOutcome, PoolError>, e: Entry,
                    lost: set<nat>)
    returns (effect: Effect)
    requires |before| <= |after| <= capacity
    requires (after == before && r.Err? && !r.error.PoolFull?) || PlacedNewly(before, capacity, after, r, e)
    requires lost == if r == Err(PoolFull(capacity)) then Evicted(before, after) + {e.priority}
                     else Evicted(before, after)
    ensures Selects(before, after, capacity, e.tx, lost, effect)
  {
    if r.Err? && r.error.PoolFull? {
      SelectsRefusal(before, capacity, e);
      effect := Refused(e.priority);
    } else if r.Err? {
      NobodyEvicted(before, before);
      effect := Nothing;
    } else if |before| < capacity {
      NobodyEvicted(before, after);
      effect := Grew(e);
    } else {
      var low :| TookPlaceOfLowest(before, after, low, e.tx.hash, e.priority);
      SelectsSwap(before, capacity, after, e, low);
      effect := Swapped(low, e.priority);
    }
  }

  lemma SelectsRefusal(before: Entries, capacity: nat, e: Entry)
    requires |before| == capacity && forall h :: h in before ==> e.priority <= before[h].priority
    ensures Selects(before, before, capacity, e.tx, Evicted(before, before) + {e.priority}, Refused(e.priority))
  {
    NobodyEvicted(before, before);
  }

  lemma SelectsSwap(before: Entries, capacity: nat, after: Entries, e: Entry, low: Hash)
    requires |before| == |after| == capacity && TookPlaceOfLowest(before, after, low, e.tx.hash, e.priority)
        && after[e.tx.hash] == e
    ensures Selects(before, after, capacity, e.tx, Evicted(before, after), Swapped(low, e.priority))
  {
    OneEvicted(before, after, low, e.tx.hash, e.priority);
  }

  /** Streaming selection: over any run of admissions with new sender and nonce, every priority
      lost so far is at most that of every transaction now pooled, and nothing is lost before
      the pool is full. Since every prefix is a run, this holds from each loss on. */
  lemma {:induction false} RunTopK(capacity: nat, limits: RL.Limits, ops: seq<Op>, id: Hash -> (Address, nat))
    requires RL.LimitsOk(limits) && Named(ops, id) && FreshAdmissions(ops) && |ops| < U64_MAX
    ensures TopK(After(capacity, limits, ops).index.entries, capacity, Lost(capacity, limits, ops))
    ensures FromRun(After(capacity, limits, ops).index.entries, ops)
  {
    if ops != [] {
      var front, last := ops[..|ops| - 1], ops[|ops| - 1];
      RunTopK(capacity, limits, front, id);
      RunConsistent(capacity, limits, front, id);
      var p := After(capacity, limits, front);
      if last.Admit? {
        NonceIsNew(p.index, id, ops);
        var effect := AdmissionIsSelection(p, last.call, id);
        SelectionKeepsTopK(p.index.entries, Step(p, last).index.entries, capacity, last.call.tx,
                           Lost(capacity, limits, front), LostAt(p, last), effect);
      } else {
        assert LostAt(p, last) == {};
      }
      FromRunExtends(p.index.entries, Step(p, last).index.entries, ops);
    }
  }

  lemma FromRunExtends(before: Entries, after: Entries, ops: seq<Op>)
    requires ops != [] && FromRun(before, ops[..|ops| - 1])
    requires forall h :: h in after ==>
               || (h in before && after[h] == before[h])
               || (ops[|ops| - 1].Admit? && after[h].tx == ops[|ops| - 1].call.tx)
    ensures FromRun(after, ops)
  {
    var front := ops[..|ops| - 1];
    forall h | h in after ensures exists i :: 0 <= i < |ops| && ops[i].Admit? && ops[i].call.tx == after[h].tx {
      if h in before && after[h] == before[h] {
        var i :| 0 <= i < |front| && front[i].Admit? && front[i].call.tx == before[h].tx;
        assert ops[i] == front[i];
      }
    }
  }

  lemma NonceIsNew(ix: Index, id: Hash -> (Address, nat), ops: seq<Op>)
    requires ops != [] && ops[|ops| - 1].Admit? && FreshAdmissions(ops)
    requires Consistent(ix, id) && FromRun(ix.entries, ops[..|ops| - 1])
    ensures Lookup(ix.bySender, ops[|ops| - 1].call.tx.sender, ops[|ops| - 1].call.tx.nonce).None?
  {
    var tx, front := ops[|ops| - 1].call.tx, ops[..|ops| - 1];
    forall h | h in ix.entries ensures (ix.entries[h].tx.sender, ix.entries[h].tx.nonce) != (tx.sender, tx.nonce) {
      var i :| 0 <= i < |front| && front[i].Admit? && front[i].call.tx == ix.entries[h].tx;
      assert ops[i] == front[i];
    }
  }

  /** While percentages do not saturate, a full pool is in the Emergency tier, so only staking
      transactions can ever evict an entry of another sender or nonce. */
  lemma OnlyStakingEvicts(p: State, call: Call, id: Hash -> (Address, nat), h: Hash)
    requires RL.LimitsOk(p.limits) && Consistent(p.index, id) && 100 * p.index.capacity <= U64_MAX
    requires id(call.tx.hash) == (call.tx.sender, call.tx.nonce)
    requires h in p.index.entries && h !in Admitted(p, call).0.index.entries
    requires id(h) != (call.tx.sender, call.tx.nonce)
    ensures |p.index.entries| == p.index.capacity
    ensures call.tx.txType.Stake? || call.tx.txType.Unstake?
  {
    EmergencyIsFullIff(p.index.capacity);
    AdmittedCases(p, call);
    PlacedLoses(p.index, id, call.tx, PriorityScore(call.tx.gasPrice, call.stake), call.express, h);
  }

  lemma PlacedLoses(ix: Index, id: Hash -> (Address, nat), tx: Tx, priority: nat, express: bool, h: Hash)
    requires Consistent(ix, id) && h in ix.entries && id(h) != (tx.sender, tx.nonce)
    ensures h !in Placed(ix, tx, priority, express).0.entries ==> |ix.entries| == ix.capacity
  {
    match Lookup(ix.bySender, tx.sender, tx.nonce)
    case None => PlacedNewEffect(ix, id, tx, priority, express);
    case Some(_) =>
  }

  // ---- after a commit ----------------------------------------------------------------

  function AllRemoved(p: State, hashes: seq<Hash>): State {
    if hashes == [] then p else RemovedTx(AllRemoved(p, hashes[..|hashes| - 1]), hashes[|hashes| - 1]).0
  }

  function WithoutHashes(txs: seq<Tx>, hashes: seq<Hash>): seq<Tx> {
    if hashes == [] then txs else WithoutHash(WithoutHashes(txs, hashes[..|hashes| - 1]), hashes[|hashes| - 1])
  }

  lemma {:induction false} AbsentHash(txs: seq<Tx>, h: Hash)
    requires forall tx :: tx in txs ==> tx.hash != h
    ensures WithoutHash(txs, h) == txs
  {
    if txs != [] {
      assert txs[0] in txs;
      AbsentHash(txs[1..], h);
    }
  }

  lemma {:induction false} PendingArePooled(ix: Index, keys: seq<Key>)
    requires EntriesHashed(ix.entries)
    ensures forall tx :: tx in TxsOf(ix, keys) ==> tx.hash in ix.entries
  {
    if keys != [] {
      PendingArePooled(ix, keys[1..]);
    }
  }

  lemma {:induction false} CommitKeeps(p: State, hashes: seq<Hash>, id: Hash -> (Address, nat))
    requires Consistent(p.index, id)
    ensures Consistent(AllRemoved(p, hashes).index, id)
  {
    if hashes != [] {
      CommitKeeps(p, hashes[..|hashes| - 1], id);
      var q := AllRemoved(p, hashes[..|hashes| - 1]);
      if hashes[|hashes| - 1] in q.index.entries {
        RemoveKeeps(q.index, id, hashes[|hashes| - 1]);
      }
    }
  }

  function HashSet(hashes: seq<Hash>): set<Hash> { set h | h in hashes }

  lemma {:induction false} CommitEntries(p: State, hashes: seq<Hash>)
    ensures AllRemoved(p, hashes).index.entries == p.index.entries - HashSet(hashes)
  {
    if hashes != [] {
      var front, last := hashes[..|hashes| - 1], hashes[|hashes| - 1];
      CommitEntries(p, front);
      SetOfLast(hashes);
      RemovedEntries(AllRemoved(p, front), last);
      MapMinus(p.index.entries, HashSet(front), last);
    }
  }

  lemma RemovedEntries(p: State, h: Hash)
    ensures RemovedTx(p, h).0.index.entries == p.index.entries - {h}
  {
    if h !in p.index.entries { assert p.index.entries - {h} == p.index.entries; }
  }

  lemma SetOfLast(hashes: seq<Hash>)
    requires hashes != []
    ensures HashSet(hashes) == HashSet(hashes[..|hashes| - 1]) + {hashes[|hashes| - 1]}
  {
    assert hashes == hashes[..|hashes| - 1] + [hashes[|hashes| - 1]];
  }

  lemma MapMinus(entries: Entries, s: set<Hash>, h: Hash)
    ensures entries - s - {h} == entries - (s + {h})
  {
  }

  /** Removing committed hashes leaves none of them and keeps the order of all the others. */
  lemma {:induction false} CommitRemovesExactly(p: State, hashes: seq<Hash>, id: Hash -> (Address, nat))
    requires Consistent(p.index, id)
    ensures forall h :: h in hashes ==> h !in AllRemoved(p, hashes).index.entries
    ensures AllPending(AllRemoved(p, hashes).index) == WithoutHashes(AllPending(p.index), hashes)
  {
    CommitEntries(p, hashes);
    if hashes != [] {
      var front, last := hashes[..|hashes| - 1], hashes[|hashes| - 1];
      CommitRemovesExactly(p, front, id);
      CommitKeeps(p, front, id);
      RemoveOneKeepsOrder(AllRemoved(p, front), last, id);
    }
  }

  lemma RemoveOneKeepsOrder(p: State, h: Hash, id: Hash -> (Address, nat))
    requires Consistent(p.index, id)
    ensures AllPending(RemovedTx(p, h).0.index) == WithoutHash(AllPending(p.index), h)
  {
    if h in p.index.entries {
      RemoveKeepsOrder(p.index, id, h);
    } else {
      PendingArePooled(p.index, Descending(p.index.byPriority));
      AbsentHash(AllPending(p.index), h);
    }
  }

  // ---- the object --------------------------------------------------------------------

  class Mempool {
    var entries: Entries
    var byPriority: map<Key, Hash>
    var bySender: SenderIndex
    var nextSeq: nat
    const capacity: nat
    const limiter: RL.RateLimiter
    const fees: LF.LocalFeeMarket

    ghost predicate Valid() { limiter.Valid() }

    function TheIndex(): Index
      reads this
    {
      Index(entries, byPriority, bySender, nextSeq, capacity)
    }

    function Value(): State
      reads this, limiter, fees
    {
      State(TheIndex(), limiter.limits, limiter.buckets, fees.loads)
    }

    constructor (capacity: nat, limiter: RL.RateLimiter)
      requires limiter.Valid() && limiter.buckets == map[]
      ensures Valid() && Value() == Empty(capacity, limiter.limits) && this.limiter == limiter && fresh(fees)
    {
      entries, byPriority, bySender, nextSeq := map[], map[], map[], 0;
      this.capacity, this.limiter := capacity, limiter;
      fees := new LF.LocalFeeMarket();
    }

    method RemoveInternal(hash: Hash, key: Key) returns (e: Option<Entry>)
      modifies this
      ensures TheIndex() == Removed(old(TheIndex()), hash, key)
      ensures e == if hash in old(entries) then Some(old(entries)[hash]) else None
    {
      e := if hash in entries then Some(entries[hash]) else None;
      entries := entries - {hash};
      byPriority := byPriority - {key};
      if e.Some? {
        var sender, nonce := e.value.tx.sender, e.value.tx.nonce;
        if sender in bySender {
          var left := bySender[sender] - {nonce};
          if left == map[] {
            bySender := bySender - {sender};
          } else {
            bySender := bySender[sender := left];
          }
        }
      }
    }

    /** Steps 5b to 8 of the pipeline: make room, record the fee load, insert. */
    method AdmitAsNew(tx: Tx, priority: nat, express: bool) returns (r: Result<AdmitOutcome, PoolError>)
      modifies this, fees
      ensures (TheIndex(), r) == PlacedAsNew(old(TheIndex()), tx, priority, express)
      ensures fees.loads == if r.Ok? then FeesRecorded(old(fees.loads), tx) else old(fees.loads)
    {
      if |entries| >= capacity {
        if byPriority == map[] {
          return Err(PoolFull(capacity));
        }
        var low := Lowest(TheIndex());
        if priority <= low.priority {
          return Err(PoolFull(capacity));
        }
        var _ := RemoveInternal(byPriority[low], low);
      }
      RecordAndInsert(tx, priority, express);
      r := Ok(AsNew);
    }

    method RecordAndInsert(tx: Tx, priority: nat, express: bool)
      modifies this, fees
      ensures TheIndex() == Inserted(old(TheIndex()), tx, priority, express)
      ensures fees.loads == FeesRecorded(old(fees.loads), tx)
    {
      if tx.to.Some? && (tx.txType.ContractCall? || tx.txType.ContractDeploy?) {
        fees.Record(tx.to.value);
      }
      var seqNo := nextSeq;
      nextSeq := SatAdd64(nextSeq, 1);
      entries := entries[tx.hash := Entry(tx, priority, seqNo, express)];
      byPriority := byPriority[Key(priority, seqNo) := tx.hash];
      var nonces: map<nat, Hash> := if tx.sender in bySender then bySender[tx.sender] else map[];
      bySender := bySender[tx.sender := nonces[tx.nonce := tx.hash]];
    }

    method Admit(call: Call) returns (r: Result<AdmitOutcome, PoolError>)
      requires Valid()
      modifies this, limiter, fees
      ensures (Value(), r) == Admitted(old(Value()), call)
    {
      var tx := call.tx;
      var valid := Validate(call);
      if valid.Err? {
        return Err(valid.error);
      }
      var tier := FromLoad(|entries|, capacity);
      if !Admits(tier, tx.txType) {
        return Err(CircuitBreakerRejected(tier));
      }
      var answer := limiter.TryAcquire(tx.sender, call.now);
      if answer.Err? {
        return Err(RateLimited(answer.error));
      }
      var priority := PriorityScore(tx.gasPrice, call.stake);
      var existing := Lookup(bySender, tx.sender, tx.nonce);
      if existing.None? {
        r := AdmitAsNew(tx, priority, call.express);
      } else if existing.value !in entries {
        bySender := DropNonce(bySender, tx.sender, tx.nonce);
        r := AdmitAsNew(tx, priority, call.express);
      } else {
        var prior := entries[existing.value];
        if tx.gasPrice < RbfMinPrice(prior.tx.gasPrice) {
          return Err(ReplacementUnderpriced(prior.tx.gasPrice, tx.gasPrice));
        }
        var _ := RemoveInternal(existing.value, KeyOf(prior));
        RecordAndInsert(tx, priority, call.express);
        r := Ok(Replaced(existing.value));
      }
    }

    method Remove(hash: Hash) returns (e: Option<Entry>)
      modifies this
      ensures (Value(), e) == RemovedTx(old(Value()), hash)
      ensures entries == old(entries) - {hash}
      ensures e == if hash in old(entries) then Some(old(entries)[hash]) else None
    {
      RemovedEntries(Value(), hash);
      if hash !in entries {
        return None;
      }
      e := RemoveInternal(hash, KeyOf(entries[hash]));
    }

    /** On consistent indexes, exactly the `limit` highest entries, highest first. */
    method PendingByPriority(limit: nat) returns (txs: seq<Tx>)
      ensures txs == Pending(TheIndex(), limit)
      ensures forall id: Hash -> (Address, nat) :: Consistent(TheIndex(), id) ==> TopEntries(entries, limit, txs)
    {
      var keys := Descending(byPriority);
      txs := TakeEntries(TheIndex(), keys, Min(limit, |keys|));
      forall id: Hash -> (Address, nat) | Consistent(TheIndex(), id) ensures TopEntries(entries, limit, txs) {
        PendingExact(TheIndex(), id, limit);
      }
    }

    method OnNewBlock(now: real)
      modifies limiter, fees
      ensures Value() == NewBlock(old(Value()), now)
    {
      limiter.PruneFull(now);
      fees.Tick();
      fees.PruneIdle();
    }
  }

  /** Remove what was committed, then run the per-block maintenance. */
  method MempoolPostCommit(pool: Mempool, committed: seq<Hash>, now: real)
    modifies pool, pool.limiter, pool.fees
    ensures pool.Value() == NewBlock(AllRemoved(old(pool.Value()), committed), now)
    ensures pool.entries == old(pool.entries) - set h | h in committed
  {
    CommitEntries(pool.Value(), committed);
    for i := 0 to |committed|
      invariant pool.Value() == AllRemoved(old(pool.Value()), committed[..i])
    {
      var _ := pool.Remove(committed[i]);
      assert committed[..i + 1][..i] == committed[..i];
    }
    assert committed[..|committed|] == committed;
    pool.OnNewBlock(now);
  }
}
