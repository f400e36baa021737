/** Flux, the optimistic parallel executor of `lemma-vm/src/parallel`: any number of workers
    speculate on the transactions of a block over a multi-version store and one of them at a
    time validates, re-executes and commits strictly in block order.

    A transaction is a deterministic program: given the answers it got so far it reads another
    key, asks a cache that the executor shares between all workers, or finishes with its writes
    and receipt. Reads of its own buffered writes are part of the program. Every access to shared
    state is one step; steps of different workers interleave arbitrarily. The store is held
    transaction-major, one slot per transaction, instead of key-major. */
module Flux {
  import opened Primitives
  import BlockExec

  type Key = BlockExec.StateKey
  type Value = BlockExec.StateValue

  datatype Receipt = Receipt(success: bool, gasUsed: nat)

  /** What the executor shares between workers and incarnations outside the store: the set of warm
      code of the block, and the safety manifests cached by contract address. */
  datatype Resource = WarmCode(code: Hash) | ManifestOf(addr: Address)

  /** A call touches its code and is charged when it is the first; it recalls the contract's
      manifest, which is cached as parsed from the code at hand when there is none; a deployment
      notes the manifest of the new contract. */
  datatype Query = Touch(code: Hash) | Recall(addr: Address, parsed: nat) | Note(addr: Address, parsed: nat)

  type Shared = map<Resource, nat>

  function ResourceOf(q: Query): Resource { if q.Touch? then WarmCode(q.code) else ManifestOf(q.addr) }

  function Held(sh: Shared, r: Resource): Option<nat> { if r in sh then Some(sh[r]) else None }

  /** What a query answers and leaves behind, given what its resource holds. */
  function Reply(held: Option<nat>, q: Query): nat {
    match q
    case Touch(_) => if held.None? then 1 else 0
    case Recall(_, parsed) => if held.Some? then held.value else parsed
    case Note(_, _) => 0
  }

  function Leaves(held: Option<nat>, q: Query): nat {
    match q
    case Touch(_) => 0
    case Recall(_, parsed) => if held.Some? then held.value else parsed
    case Note(_, parsed) => parsed
  }

  function Served(sh: Shared, q: Query): Shared { sh[ResourceOf(q) := Leaves(Held(sh, ResourceOf(q)), q)] }

  /** A read that bypasses the view's capture set has `tracked` false. */
  datatype Action =
    | Read(key: Key, tracked: bool)
    | Ask(query: Query)
    | Finish(writes: map<Key, Value>, receipt: Receipt)

  /** What a read returned, `None` standing for the committed base state below the block, or the
      reply to a query. */
  datatype Answer = Got(value: Option<Value>) | Told(reply: nat)

  type History = seq<Answer>

  type Block = (nat, History) -> Action

  /** Gas metering: no transaction reads or asks more than `gas` times. */
  ghost predicate Metered(P: Block, gas: nat) { forall i, h :: |h| >= gas ==> P(i, h).Finish? }

  /** No transaction below `i` writes `key`, whatever it is answered. */
  ghost predicate NeverBelow(P: Block, i: nat, key: Key) {
    forall j: nat, g: History :: j < i && P(j, g).Finish? ==> key !in P(j, g).writes
  }

  /** Transaction `i` may ask for `r`. */
  ghost predicate Asks(P: Block, i: nat, r: Resource) {
    exists h :: P(i, h).Ask? && ResourceOf(P(i, h).query) == r
  }

  ghost predicate AsksNothing(P: Block, i: nat) { forall h :: !P(i, h).Ask? }

  /** No lower transaction can write what `i` reads, so its first run is never rejected. */
  ghost predicate Settled(P: Block, i: nat) { forall h :: P(i, h).Read? ==> NeverBelow(P, i, P(i, h).key) }

  ghost predicate Private(P: Block, i: nat, r: Resource) { forall j: nat :: j != i ==> !Asks(P, j, r) }

  /** Nothing that others can change escapes validation: a read outside the capture set is of a key
      that no lower transaction can write, and what is asked of the shared caches is asked by a
      settled transaction and by no other. */
  ghost predicate Confined(P: Block) { forall i, h :: Harmless(P, i, P(i, h)) }

  ghost predicate Harmless(P: Block, i: nat, a: Action) {
    && (a.Read? && !a.tracked ==> NeverBelow(P, i, a.key))
    && (a.Ask? ==> Private(P, i, ResourceOf(a.query)) && Settled(P, i))
  }

  // ---- the sequential reference ------------------------------------------------------

  datatype Outcome = Outcome(writes: map<Key, Value>, receipt: Receipt, shared: Shared)

  function Lookup(mem: map<Key, Value>, k: Key): Option<Value> { if k in mem then Some(mem[k]) else None }

  /** Transaction `i` run to its end over the block's writes and the caches so far. */
  function SeqRun(P: Block, gas: nat, i: nat, h: History, mem: map<Key, Value>, sh: Shared): Outcome
    requires Metered(P, gas)
    decreases gas - |h|
  {
    match P(i, h)
    case Finish(writes, receipt) => Outcome(writes, receipt, sh)
    case Read(k, _) => SeqRun(P, gas, i, h + [Got(Lookup(mem, k))], mem, sh)
    case Ask(q) => SeqRun(P, gas, i, h + [Told(Reply(Held(sh, ResourceOf(q)), q))], mem, Served(sh, q))
  }

  /** The block's writes and the caches before some transaction. */
  datatype Prefix = Prefix(mem: map<Key, Value>, shared: Shared)

  function Before(P: Block, gas: nat, i: nat): Prefix
    requires Metered(P, gas)
  {
    if i == 0 then Prefix(map[], map[]) else
      var p := Before(P, gas, i - 1);
      var out := SeqRun(P, gas, i - 1, [], p.mem, p.shared);
      Prefix(p.mem + out.writes, out.shared)
  }

  function Mem(P: Block, gas: nat, i: nat): map<Key, Value>
    requires Metered(P, gas)
  {
    Before(P, gas, i).mem
  }

  function Out(P: Block, gas: nat, i: nat): Outcome
    requires Metered(P, gas)
  {
    SeqRun(P, gas, i, [], Before(P, gas, i).mem, Before(P, gas, i).shared)
  }

  // ---- the multi-version store and the scheduler ---------------------------------------

  datatype Entry = Entry(incarnation: nat, value: Value, estimate: bool)

  datatype Observed = Versioned(txn: nat, incarnation: nat, value: Value) | BaseFallthrough

  /** One entry of what an incarnation did. Only captured reads are kept and validated by the
      code; the other entries are logged here so that the history can be recovered. */
  datatype Logged = ReadOf(key: Key, observed: Observed, tracked: bool) | AskOf(query: Query, reply: nat)

  type Log = seq<Logged>

  datatype TxnState = TxnState(
    incarnation: nat, executed: bool, writeKeys: set<Key>, seen: Log, receipt: Option<Receipt>)

  /** A worker's execution of the transaction, if one is under way. */
  datatype Work =
    | NoWork
    | Executing(incarnation: nat, history: History, captured: Log)
    | Publishing(version: nat, writes: map<Key, Value>, left: set<Key>, got: Log, result: Receipt)

  datatype Cell = Cell(slot: map<Key, Entry>, txn: TxnState, work: Work)

  /** Where the worker holding the commit claim is. */
  datatype Phase =
    | Unclaimed
    | Checking(checked: nat)
    | Marking(keys: set<Key>, unmarked: set<Key>)
    | Removing(left: set<Key>)
    | Reexecuting
    | Ready

  datatype State = State(cells: seq<Cell>, next: nat, commit: nat, phase: Phase, shared: Shared)

  const FRESH := Cell(map[], TxnState(0, false, {}, [], None), NoWork)

  function Initial(n: nat): State { State(seq(n, i => FRESH), 0, 0, Unclaimed, map[]) }

  datatype MvRead = Found(txn: nat, incarnation: nat, value: Value) | Estimated(blocking: nat) | NotFound

  /** `MvState::read`: the highest write strictly below `idx`. */
  function Resolve(cells: seq<Cell>, key: Key, idx: nat): MvRead
    requires idx <= |cells|
  {
    if idx == 0 then NotFound
    else if key in cells[idx - 1].slot then
      var e := cells[idx - 1].slot[key];
      if e.estimate then Estimated(idx - 1) else Found(idx - 1, e.incarnation, e.value)
    else Resolve(cells, key, idx - 1)
  }

  /** What the view records: an estimate is treated as a fall-through to base. */
  function Observe(r: MvRead): Observed {
    if r.Found? then Versioned(r.txn, r.incarnation, r.value) else BaseFallthrough
  }

  function ValueOf(o: Observed): Option<Value> { if o.Versioned? then Some(o.value) else None }

  /** `read_still_matches`. */
  predicate StillMatches(r: MvRead, o: Observed) {
    (r.Found? && o == Versioned(r.txn, r.incarnation, r.value)) || (r.NotFound? && o.BaseFallthrough?)
  }

  /** Validation passes over what was not captured. */
  predicate Passes(cells: seq<Cell>, e: Logged, idx: nat)
    requires idx <= |cells|
  {
    e.ReadOf? && e.tracked ==> StillMatches(Resolve(cells, e.key, idx), e.observed)
  }

  datatype Step =
    | Dispatch
    | Advance(i: nat)
    | Publish(i: nat, key: Key)
    | Record(i: nat)
    | Claim
    | Check
    | Mark(key: Key)
    | Unlink
    | Remove(key: Key)
    | Restart
    | Commit

  function Active(cells: seq<Cell>): nat {
    if cells == [] then 0 else Active(cells[1..]) + (if cells[0].work.NoWork? then 0 else 1)
  }

  /** Workers not looking for a task. */
  function Busy(s: State): nat { Active(s.cells) + (if s.phase.Unclaimed? || s.phase.Reexecuting? then 0 else 1) }

  predicate Possible(s: State, st: Step) {
    var n := |s.cells|;
    match st
    case Dispatch => s.commit < n && s.next < n
    case Advance(i) => i < n && s.cells[i].work.Executing?
    case Publish(i, key) =>
      i < n && s.cells[i].work.Publishing? && key in s.cells[i].work.left && key in s.cells[i].work.writes
    case Record(i) => i < n && s.cells[i].work.Publishing? && s.cells[i].work.left == {}
    case Claim => s.next == n && s.commit < n && s.phase.Unclaimed? && s.cells[s.commit].txn.executed
    case Check => s.commit < n && s.phase.Checking?
    case Mark(key) => s.commit < n && s.phase.Marking? && key in s.phase.unmarked
    case Unlink => s.phase.Marking? && s.phase.unmarked == {}
    case Remove(key) => s.commit < n && s.phase.Removing? && key in s.phase.left
    case Restart => s.commit < n && s.phase.Removing? && s.phase.left == {}
    case Commit => s.commit < n && s.phase.Ready?
  }

  /** A new task needs a worker that has none. */
  predicate Enabled(workers: nat, s: State, st: Step) {
    Possible(s, st) && (st.Dispatch? || st.Claim? ==> Busy(s) < workers)
  }

  function SetCell(s: State, i: nat, c: Cell): State
    requires i < |s.cells|
  {
    s.(cells := s.cells[i := c])
  }

  /** What the program is told about its next action, short of finishing. */
  function Observation(s: State, i: nat, a: Action): Logged
    requires i <= |s.cells| && !a.Finish?
  {
    match a
    case Read(key, tracked) => ReadOf(key, Observe(Resolve(s.cells, key, i)), tracked)
    case Ask(q) => AskOf(q, Reply(Held(s.shared, ResourceOf(q)), q))
  }

  /** A worker executing transaction `i` reads one key, asks one cache or ends. */
  function Advanced(P: Block, s: State, i: nat): Cell
    requires i < |s.cells| && s.cells[i].work.Executing?
  {
    var c, w := s.cells[i], s.cells[i].work;
    match P(i, w.history)
    case Finish(writes, receipt) =>
      c.(work := Publishing(w.incarnation, writes, writes.Keys, w.captured, receipt))
    case a =>
      var o := Observation(s, i, a);
      c.(work := Executing(w.incarnation, w.history + [AnswerOf(o)], w.captured + [o]))
  }

  function CachesAfter(P: Block, s: State, i: nat): Shared
    requires i < |s.cells| && s.cells[i].work.Executing?
  {
    var a := P(i, s.cells[i].work.history);
    if a.Ask? then Served(s.shared, a.query) else s.shared
  }

  function AnswerOf(o: Logged): Answer { if o.ReadOf? then Got(ValueOf(o.observed)) else Told(o.reply) }

  function Published(c: Cell, key: Key): Cell
    requires c.work.Publishing? && key in c.work.writes
  {
    c.(slot := c.slot[key := Entry(c.work.version, c.work.writes[key], false)],
       work := c.work.(left := c.work.left - {key}))
  }

  /** `record_execution`. */
  function Recorded(c: Cell): Cell
    requires c.work.Publishing?
  {
    c.(txn := TxnState(c.txn.incarnation, true, c.work.writes.Keys, c.work.got, Some(c.work.result)), work := NoWork)
  }

  /** `abort`. */
  function Aborted(c: Cell): Cell {
    c.(txn := c.txn.(incarnation := c.txn.incarnation + 1, executed := false, writeKeys := {}))
  }

  function After(P: Block, s: State, st: Step): State
    requires Possible(s, st)
  {
    match st
    case Dispatch =>
      var c := s.cells[s.next];
      SetCell(s, s.next, c.(work := Executing(c.txn.incarnation, [], []))).(next := s.next + 1)
    case Advance(i) => SetCell(s, i, Advanced(P, s, i)).(shared := CachesAfter(P, s, i))
    case Publish(i, key) => SetCell(s, i, Published(s.cells[i], key))
    case Record(i) =>
      SetCell(s, i, Recorded(s.cells[i])).(phase := if i == s.commit && s.phase.Reexecuting? then Ready else s.phase)
    case Claim => s.(phase := Checking(0))
    case Check =>
      var c, k := s.cells[s.commit], s.phase.checked;
      if k >= |c.txn.seen| then s.(phase := Ready)
      else if Passes(s.cells, c.txn.seen[k], s.commit) then s.(phase := Checking(k + 1))
      else SetCell(s, s.commit, Aborted(c)).(phase := Marking(c.txn.writeKeys, c.txn.writeKeys))
    case Mark(key) =>
      var c := s.cells[s.commit];
      SetCell(s, s.commit, if key in c.slot then c.(slot := c.slot[key := c.slot[key].(estimate := true)]) else c)
        .(phase := Marking(s.phase.keys, s.phase.unmarked - {key}))
    case Unlink => s.(phase := Removing(s.phase.keys))
    case Remove(key) =>
      var c := s.cells[s.commit];
      SetCell(s, s.commit, c.(slot := c.slot - {key})).(phase := Removing(s.phase.left - {key}))
    case Restart =>
      var c := s.cells[s.commit];
      SetCell(s, s.commit, c.(work := Executing(c.txn.incarnation, [], []))).(phase := Reexecuting)
    case Commit => s.(commit := s.commit + 1, phase := Unclaimed)
  }

  // ---- the invariant -------------------------------------------------------------------

  function Values(seen: Log): (h: History)
    ensures |h| == |seen|
  {
    seq(|seen|, k requires 0 <= k < |seen| => AnswerOf(seen[k]))
  }

  /** The caches after the queries of a log. */
  function Replay(sh: Shared, log: Log): Shared {
    if log == [] then sh else
      var before, last := Replay(sh, log[..|log| - 1]), log[|log| - 1];
      if last.AskOf? then Served(before, last.query) else before
  }

  /** The log is of what the program does on its answers. */
  ghost predicate Trace(P: Block, i: nat, seen: Log) {
    forall k :: 0 <= k < |seen| ==> Explained(P, i, seen[..k], seen[k])
  }

  /** A key that no lower transaction can write was not found; a cache replied as if the transaction
      were alone with it. */
  ghost predicate Explained(P: Block, i: nat, before: Log, e: Logged) {
    match e
    case ReadOf(key, observed, tracked) =>
      P(i, Values(before)) == Read(key, tracked) && (NeverBelow(P, i, key) ==> observed.BaseFallthrough?)
    case AskOf(q, reply) =>
      P(i, Values(before)) == Ask(q) && reply == Reply(Held(Replay(map[], before), ResourceOf(q)), q)
  }

  ghost predicate SlotIs(slot: map<Key, Entry>, writes: map<Key, Value>) {
    slot.Keys == writes.Keys && forall k :: k in slot ==> !slot[k].estimate && slot[k].value == writes[k]
  }

  /** The cell holds exactly what the sequential execution produces. */
  ghost predicate Final(c: Cell, out: Outcome) {
    c.work.NoWork? && c.txn.executed && SlotIs(c.slot, out.writes) && c.txn.receipt == Some(out.receipt)
  }

  ghost predicate Untouched(c: Cell) { c.work.NoWork? && !c.txn.executed && c.slot == map[] && c.txn.seen == [] }

  /** A recorded speculative result: a complete run on the recorded reads. */
  ghost predicate Speculative(P: Block, i: nat, c: Cell) {
    && c.work.NoWork? && c.txn.executed && Trace(P, i, c.txn.seen)
    && var a := P(i, Values(c.txn.seen));
       a.Finish? && SlotIs(c.slot, a.writes) && c.txn.writeKeys == a.writes.Keys && c.txn.receipt == Some(a.receipt)
  }

  ghost predicate Working(P: Block, i: nat, c: Cell) {
    match c.work
    case NoWork => false
    case Executing(_, history, captured) =>
      !c.txn.executed && c.slot == map[] && Trace(P, i, captured) && history == Values(captured)
    case Publishing(_, writes, left, got, result) =>
      && !c.txn.executed && Trace(P, i, got) && P(i, Values(got)) == Finish(writes, result)
      && left <= writes.Keys && c.slot.Keys == writes.Keys - left
      && forall k :: k in c.slot ==> !c.slot[k].estimate && c.slot[k].value == writes[k]
  }

  /** Each read has the value the sequential execution would read. */
  ghost predicate Agree(seen: Log, mem: map<Key, Value>) {
    forall k :: 0 <= k < |seen| && seen[k].ReadOf? ==> ValueOf(seen[k].observed) == Lookup(mem, seen[k].key)
  }

  function Gathered(w: Work): Log {
    match w
    case NoWork => []
    case Executing(_, _, captured) => captured
    case Publishing(_, _, _, got, _) => got
  }

  /** The cell of the transaction being committed, by phase. */
  ghost predicate CurrentOk(P: Block, i: nat, c: Cell, phase: Phase, out: Outcome, mem: map<Key, Value>) {
    match phase
    case Unclaimed => Working(P, i, c) || Speculative(P, i, c)
    case Checking(k) => Speculative(P, i, c) && k <= |c.txn.seen| && Agree(c.txn.seen[..k], mem)
    case Marking(keys, unmarked) =>
      c.work.NoWork? && !c.txn.executed && c.slot.Keys <= keys && unmarked <= keys && AsksNothing(P, i)
    case Removing(left) => c.work.NoWork? && !c.txn.executed && c.slot.Keys <= left && AsksNothing(P, i)
    case Reexecuting => Working(P, i, c) && Agree(Gathered(c.work), mem)
    case Ready => Final(c, out)
  }

  ghost predicate CellOk(P: Block, gas: nat, s: State, i: nat)
    requires Metered(P, gas) && i < |s.cells|
  {
    var c := s.cells[i];
    if i < s.commit then Final(c, Out(P, gas, i))
    else if i >= s.next then Untouched(c)
    else if i == s.commit then CurrentOk(P, i, c, s.phase, Out(P, gas, i), Mem(P, gas, i))
    else Working(P, i, c) || Speculative(P, i, c)
  }

  ghost predicate Inv(P: Block, gas: nat, s: State)
    requires Metered(P, gas)
  {
    && s.commit <= s.next <= |s.cells|
    && (s.commit == s.next ==> s.phase.Unclaimed?)
    && (forall i :: 0 <= i < |s.cells| ==> CellOk(P, gas, s, i))
    && SlotsWritable(P, s.cells)
    && SharedOk(P, s)
  }

  /** What the current or last incarnation did. */
  function LogOf(c: Cell): Log { if c.work.NoWork? then c.txn.seen else Gathered(c.work) }

  /** Each cache holds what its one asker left there. */
  ghost predicate SharedOk(P: Block, s: State) {
    forall i, r :: 0 <= i < |s.cells| && Asks(P, i, r) ==> Alone(s.shared, LogOf(s.cells[i]), r)
  }

  ghost predicate Alone(sh: Shared, log: Log, r: Resource) { Held(sh, r) == Held(Replay(map[], log), r) }

  /** Transaction `j` can write `key`. */
  ghost predicate Writable(P: Block, j: nat, key: Key) {
    exists g :: P(j, g).Finish? && key in P(j, g).writes
  }

  ghost predicate SlotsWritable(P: Block, cells: seq<Cell>) {
    forall j, key :: 0 <= j < |cells| && key in cells[j].slot ==> Writable(P, j, key)
  }

  // ---- sequential facts ----------------------------------------------------------------

  /** Over a committed prefix, a resolved read is the sequential read. */
  lemma {:induction false} ResolvePrefix(P: Block, gas: nat, cells: seq<Cell>, key: Key, idx: nat)
    requires Metered(P, gas) && idx <= |cells|
    requires forall j :: 0 <= j < idx ==> Final(cells[j], Out(P, gas, j))
    ensures var r := Resolve(cells, key, idx);
            !r.Estimated? && ValueOf(Observe(r)) == Lookup(Mem(P, gas, idx), key)
  {
    if idx > 0 {
      assert Final(cells[idx - 1], Out(P, gas, idx - 1));
      if key !in cells[idx - 1].slot { ResolvePrefix(P, gas, cells, key, idx - 1); }
    }
  }

  /** What a log leaves in a cache it found empty depends on the log alone. */
  lemma {:induction false} ReplayHeld(sh: Shared, log: Log, r: Resource)
    requires r !in sh
    ensures Held(Replay(sh, log), r) == Held(Replay(map[], log), r)
  {
    if log != [] { ReplayHeld(sh, log[..|log| - 1], r); }
  }

  lemma ReplayNext(sh: Shared, log: Log, k: nat)
    requires k < |log|
    ensures Replay(sh, log[..k + 1])
            == if log[k].AskOf? then Served(Replay(sh, log[..k]), log[k].query) else Replay(sh, log[..k])
  {
    assert log[..k + 1][..k] == log[..k];
  }

  lemma ValuesNext(log: Log, k: nat)
    requires k < |log|
    ensures Values(log[..k + 1]) == Values(log[..k]) + [AnswerOf(log[k])]
  {
  }

  /** A trace that read sequential values is a prefix of the sequential run. */
  lemma {:induction false} TraceIsSequential(P: Block, gas: nat, i: nat, seen: Log, k: nat, mem: map<Key, Value>,
                                             sh: Shared)
    requires Metered(P, gas) && Trace(P, i, seen) && Agree(seen, mem) && k <= |seen|
    requires forall r :: Asks(P, i, r) ==> r !in sh
    ensures SeqRun(P, gas, i, [], mem, sh) == SeqRun(P, gas, i, Values(seen[..k]), mem, Replay(sh, seen[..k]))
  {
    if k > 0 {
      TraceIsSequential(P, gas, i, seen, k - 1, mem, sh);
      var before, e := seen[..k - 1], seen[k - 1];
      assert Explained(P, i, before, e);
      ValuesNext(seen, k - 1);
      ReplayNext(sh, seen, k - 1);
      if e.AskOf? {
        assert Asks(P, i, ResourceOf(e.query));
        ReplayHeld(sh, before, ResourceOf(e.query));
      }
    } else {
      assert Values(seen[..0]) == [];
    }
  }

  /** A transaction leaves alone the caches it never asks. */
  lemma {:induction false} RunLeaves(P: Block, gas: nat, i: nat, h: History, mem: map<Key, Value>, sh: Shared,
                                     r: Resource)
    requires Metered(P, gas) && !Asks(P, i, r) && r !in sh
    ensures r !in SeqRun(P, gas, i, h, mem, sh).shared
    decreases gas - |h|
  {
    match P(i, h)
    case Finish(_, _) =>
    case Read(k, _) => RunLeaves(P, gas, i, h + [Got(Lookup(mem, k))], mem, sh, r);
    case Ask(q) =>
      assert ResourceOf(q) != r;
      RunLeaves(P, gas, i, h + [Told(Reply(Held(sh, ResourceOf(q)), q))], mem, Served(sh, q), r);
  }

  /** So a private cache is empty before its asker. */
  lemma {:induction false} PrivateBefore(P: Block, gas: nat, i: nat, j: nat, r: Resource)
    requires Metered(P, gas) && Private(P, i, r) && j <= i
    ensures r !in Before(P, gas, j).shared
  {
    if j > 0 {
      PrivateBefore(P, gas, i, j - 1, r);
      RunLeaves(P, gas, j - 1, [], Before(P, gas, j - 1).mem, Before(P, gas, j - 1).shared, r);
    }
  }

  lemma AskedIsPrivate(P: Block, i: nat, r: Resource)
    requires Confined(P) && Asks(P, i, r)
    ensures Private(P, i, r) && Settled(P, i)
  {
    var h :| P(i, h).Ask? && ResourceOf(P(i, h).query) == r;
    assert Harmless(P, i, P(i, h));
  }

  lemma CompleteIsSequential(P: Block, gas: nat, i: nat, seen: Log, writes: map<Key, Value>, receipt: Receipt)
    requires Metered(P, gas) && Confined(P) && Trace(P, i, seen) && Agree(seen, Mem(P, gas, i))
    requires P(i, Values(seen)) == Finish(writes, receipt)
    ensures Out(P, gas, i).writes == writes && Out(P, gas, i).receipt == receipt
  {
    var sh := Before(P, gas, i).shared;
    forall r | Asks(P, i, r) ensures r !in sh {
      AskedIsPrivate(P, i, r);
      PrivateBefore(P, gas, i, i, r);
    }
    TraceIsSequential(P, gas, i, seen, |seen|, Mem(P, gas, i), sh);
    assert seen[..|seen|] == seen;
  }

  lemma TraceGrows(P: Block, i: nat, seen: Log, o: Logged)
    requires Trace(P, i, seen) && Explained(P, i, seen, o)
    ensures Trace(P, i, seen + [o]) && Values(seen + [o]) == Values(seen) + [AnswerOf(o)]
  {
    var more := seen + [o];
    forall k | 0 <= k < |more| ensures Explained(P, i, more[..k], more[k]) {
      assert more[..k] == seen[..k];
      if k == |seen| { assert seen[..k] == seen; }
    }
  }

  /** A sequential run ends in one of the program's endings. */
  lemma {:induction false} RunEnds(P: Block, gas: nat, i: nat, h: History, mem: map<Key, Value>, sh: Shared)
    returns (g: History)
    requires Metered(P, gas)
    ensures var out := SeqRun(P, gas, i, h, mem, sh); P(i, g) == Finish(out.writes, out.receipt)
    decreases gas - |h|
  {
    match P(i, h)
    case Finish(_, _) => g := h;
    case Read(k, _) => g := RunEnds(P, gas, i, h + [Got(Lookup(mem, k))], mem, sh);
    case Ask(q) => g := RunEnds(P, gas, i, h + [Told(Reply(Held(sh, ResourceOf(q)), q))], mem, Served(sh, q));
  }

  /** What no lower transaction can write is not in the block's writes. */
  lemma {:induction false} NeverBelowMeansAbsent(P: Block, gas: nat, i: nat, key: Key, n: nat)
    requires Metered(P, gas) && NeverBelow(P, n, key) && i <= n
    ensures key !in Mem(P, gas, i)
  {
    if i > 0 {
      NeverBelowMeansAbsent(P, gas, i - 1, key, n);
      var g := RunEnds(P, gas, i - 1, [], Before(P, gas, i - 1).mem, Before(P, gas, i - 1).shared);
    }
  }

  /** Nor is it found in any slot below. */
  lemma {:induction false} NeverBelowNotFound(P: Block, cells: seq<Cell>, key: Key, i: nat, n: nat)
    requires SlotsWritable(P, cells) && i <= |cells| && NeverBelow(P, n, key) && i <= n
    ensures Resolve(cells, key, i).NotFound?
  {
    if i > 0 {
      assert key in cells[i - 1].slot ==> Writable(P, i - 1, key);
      NeverBelowNotFound(P, cells, key, i - 1, n);
    }
  }

  // ---- one step keeps the invariant ------------------------------------------------------

  /** A step on one cell leaves the others as they were. */
  lemma OthersKept(P: Block, gas: nat, s: State, t: State, i: nat)
    requires Metered(P, gas) && Inv(P, gas, s) && i < |s.cells|
    requires |t.cells| == |s.cells| && t.next == s.next && t.commit == s.commit
    requires forall j :: 0 <= j < |s.cells| && j != i ==> t.cells[j] == s.cells[j]
    requires t.phase == s.phase || (i == s.commit && s.commit < s.next)
    requires CellOk(P, gas, t, i)
    requires forall key :: key in t.cells[i].slot ==> key in s.cells[i].slot || Writable(P, i, key)
    requires SharedOk(P, t)
    ensures Inv(P, gas, t)
  {
    forall j | 0 <= j < |t.cells| ensures CellOk(P, gas, t, j) {
      if j != i { assert CellOk(P, gas, s, j); }
    }
  }

  /** Nothing asked, and the logs as they were, except of a transaction that asks nothing. */
  lemma SharedKept(P: Block, s: State, t: State, i: nat)
    requires SharedOk(P, s) && t.shared == s.shared && |t.cells| == |s.cells| && i < |s.cells|
    requires forall j :: 0 <= j < |s.cells| && j != i ==> t.cells[j] == s.cells[j]
    requires LogOf(t.cells[i]) == LogOf(s.cells[i]) || AsksNothing(P, i)
    ensures SharedOk(P, t)
  {
    forall j, r | 0 <= j < |t.cells| && Asks(P, j, r) ensures Alone(t.shared, LogOf(t.cells[j]), r) {
      assert Alone(s.shared, LogOf(s.cells[j]), r);
    }
  }

  /** A query answers its one asker as if it were alone, and changes no other cache. */
  lemma SharedAsked(P: Block, s: State, t: State, i: nat, q: Query, o: Logged)
    requires SharedOk(P, s) && |t.cells| == |s.cells| && i < |s.cells| && o.AskOf? && o.query == q
    requires t.shared == Served(s.shared, q) && Asks(P, i, ResourceOf(q)) && Private(P, i, ResourceOf(q))
    requires forall j :: 0 <= j < |s.cells| && j != i ==> t.cells[j] == s.cells[j]
    requires LogOf(t.cells[i]) == LogOf(s.cells[i]) + [o]
    ensures Alone(s.shared, LogOf(s.cells[i]), ResourceOf(q))
    ensures SharedOk(P, t)
  {
    var log := LogOf(s.cells[i]);
    assert (log + [o])[..|log|] == log;
    forall j, r | 0 <= j < |t.cells| && Asks(P, j, r) ensures Alone(t.shared, LogOf(t.cells[j]), r) {
      assert Alone(s.shared, LogOf(s.cells[j]), r);
      assert Alone(s.shared, log, ResourceOf(q));
      if j != i { assert r != ResourceOf(q); }
    }
  }

  lemma AdvanceShared(P: Block, s: State, i: nat)
    requires Confined(P) && SharedOk(P, s) && Possible(s, Advance(i))
    ensures SharedOk(P, After(P, s, Advance(i)))
    ensures var a := P(i, s.cells[i].work.history);
            a.Ask? ==> Alone(s.shared, s.cells[i].work.captured, ResourceOf(a.query))
  {
    var a, t := P(i, s.cells[i].work.history), After(P, s, Advance(i));
    if a.Ask? {
      assert Harmless(P, i, a) && Asks(P, i, ResourceOf(a.query));
      SharedAsked(P, s, t, i, a.query, Observation(s, i, a));
    } else if a.Read? {
      ReadsDoNotAsk(LogOf(s.cells[i]), Observation(s, i, a));
      forall j, r | 0 <= j < |t.cells| && Asks(P, j, r) ensures Alone(t.shared, LogOf(t.cells[j]), r) {
        assert Alone(s.shared, LogOf(s.cells[j]), r);
      }
    } else {
      SharedKept(P, s, t, i);
    }
  }

  lemma ReadsDoNotAsk(log: Log, o: Logged)
    requires o.ReadOf?
    ensures Replay(map[], log + [o]) == Replay(map[], log)
  {
    assert (log + [o])[..|log|] == log;
  }

  lemma CellAdvances(P: Block, s: State, i: nat)
    requires Confined(P) && i < |s.cells| && s.cells[i].work.Executing? && Working(P, i, s.cells[i])
    requires SlotsWritable(P, s.cells)
    requires var a := P(i, s.cells[i].work.history);
             a.Ask? ==> Alone(s.shared, s.cells[i].work.captured, ResourceOf(a.query))
    ensures Working(P, i, Advanced(P, s, i))
    ensures var w, a := s.cells[i].work, P(i, s.cells[i].work.history);
            Gathered(Advanced(P, s, i).work) == if a.Finish? then w.captured else w.captured + [Observation(s, i, a)]
  {
    var w := s.cells[i].work;
    var a := P(i, w.history);
    if !a.Finish? {
      if a.Read? && NeverBelow(P, i, a.key) { NeverBelowNotFound(P, s.cells, a.key, i, i); }
      assert Explained(P, i, w.captured, Observation(s, i, a));
      TraceGrows(P, i, w.captured, Observation(s, i, a));
    }
  }

  lemma AdvanceKeeps(P: Block, gas: nat, s: State, i: nat)
    requires Metered(P, gas) && Confined(P) && Inv(P, gas, s) && Possible(s, Advance(i))
    ensures Inv(P, gas, After(P, s, Advance(i)))
  {
    assert CellOk(P, gas, s, i);
    AdvanceShared(P, s, i);
    CellAdvances(P, s, i);
    var t := After(P, s, Advance(i));
    if i == s.commit && s.phase.Reexecuting? {
      var w := s.cells[i].work;
      if P(i, w.history).Read? {
        forall j | 0 <= j < i ensures Final(s.cells[j], Out(P, gas, j)) { assert CellOk(P, gas, s, j); }
        ResolvePrefix(P, gas, s.cells, P(i, w.history).key, i);
      }
      assert Agree(Gathered(t.cells[i].work), Mem(P, gas, i));
    }
    assert CellOk(P, gas, t, i);
    OthersKept(P, gas, s, t, i);
  }

  lemma PublishKeeps(P: Block, gas: nat, s: State, i: nat, key: Key)
    requires Metered(P, gas) && Inv(P, gas, s) && Possible(s, Publish(i, key))
    ensures Inv(P, gas, After(P, s, Publish(i, key)))
  {
    assert CellOk(P, gas, s, i);
    var t := After(P, s, Publish(i, key));
    assert Working(P, i, t.cells[i]);
    assert Writable(P, i, key);
    SharedKept(P, s, t, i);
    OthersKept(P, gas, s, t, i);
  }

  lemma RecordKeeps(P: Block, gas: nat, s: State, i: nat)
    requires Metered(P, gas) && Confined(P) && Inv(P, gas, s) && Possible(s, Record(i))
    ensures Inv(P, gas, After(P, s, Record(i)))
  {
    assert CellOk(P, gas, s, i);
    var w := s.cells[i].work;
    var t := After(P, s, Record(i));
    assert Speculative(P, i, t.cells[i]);
    if i == s.commit && s.phase.Reexecuting? {
      CompleteIsSequential(P, gas, i, w.got, w.writes, w.result);
      assert Final(t.cells[i], Out(P, gas, i));
    }
    SharedKept(P, s, t, i);
    OthersKept(P, gas, s, t, i);
  }

  /** An entry that passes validation over a committed prefix has the sequential value. */
  lemma PassedAgrees(P: Block, gas: nat, s: State, k: nat)
    requires Metered(P, gas) && Confined(P) && Inv(P, gas, s) && s.commit < |s.cells|
    requires Speculative(P, s.commit, s.cells[s.commit]) && k < |s.cells[s.commit].txn.seen|
    requires Passes(s.cells, s.cells[s.commit].txn.seen[k], s.commit)
    ensures var e := s.cells[s.commit].txn.seen[k];
            e.ReadOf? ==> ValueOf(e.observed) == Lookup(Mem(P, gas, s.commit), e.key)
  {
    var i, seen := s.commit, s.cells[s.commit].txn.seen;
    assert Explained(P, i, seen[..k], seen[k]);
    if seen[k].ReadOf? && seen[k].tracked {
      forall j | 0 <= j < i ensures Final(s.cells[j], Out(P, gas, j)) { assert CellOk(P, gas, s, j); }
      ResolvePrefix(P, gas, s.cells, seen[k].key, i);
    } else if seen[k].ReadOf? {
      assert Harmless(P, i, P(i, Values(seen[..k])));
      NeverBelowMeansAbsent(P, gas, i, seen[k].key, i);
    }
  }

  /** A settled transaction is never rejected, so one that is asks nothing. */
  lemma RejectedAsksNothing(P: Block, s: State, k: nat)
    requires Confined(P) && SlotsWritable(P, s.cells) && s.commit < |s.cells|
    requires Trace(P, s.commit, s.cells[s.commit].txn.seen) && k < |s.cells[s.commit].txn.seen|
    requires !Passes(s.cells, s.cells[s.commit].txn.seen[k], s.commit)
    ensures AsksNothing(P, s.commit)
  {
    var i, seen := s.commit, s.cells[s.commit].txn.seen;
    assert Explained(P, i, seen[..k], seen[k]);
    if NeverBelow(P, i, seen[k].key) { NeverBelowNotFound(P, s.cells, seen[k].key, i, i); }
    assert !Settled(P, i) by { assert P(i, Values(seen[..k])).Read?; }
    forall h ensures !P(i, h).Ask? { assert Harmless(P, i, P(i, h)); }
  }

  lemma CheckKeeps(P: Block, gas: nat, s: State)
    requires Metered(P, gas) && Confined(P) && Inv(P, gas, s) && Possible(s, Check)
    ensures Inv(P, gas, After(P, s, Check))
  {
    var i, k := s.commit, s.phase.checked;
    assert CellOk(P, gas, s, i);
    var c := s.cells[i];
    if k >= |c.txn.seen| {
      assert c.txn.seen[..k] == c.txn.seen;
      var a := P(i, Values(c.txn.seen));
      CompleteIsSequential(P, gas, i, c.txn.seen, a.writes, a.receipt);
      PhaseKeeps(P, gas, s, Ready);
    } else if Passes(s.cells, c.txn.seen[k], i) {
      PassedAgrees(P, gas, s, k);
      AgreeNext(c.txn.seen, k, Mem(P, gas, i));
      PhaseKeeps(P, gas, s, Checking(k + 1));
    } else {
      RejectedAsksNothing(P, s, k);
      RejectKeeps(P, gas, s);
    }
  }

  lemma AgreeNext(seen: Log, k: nat, mem: map<Key, Value>)
    requires k < |seen| && Agree(seen[..k], mem)
    requires seen[k].ReadOf? ==> ValueOf(seen[k].observed) == Lookup(mem, seen[k].key)
    ensures Agree(seen[..k + 1], mem)
  {
    assert forall j :: 0 <= j < k ==> seen[..k + 1][j] == seen[..k][j];
  }

  lemma PhaseKeeps(P: Block, gas: nat, s: State, phase: Phase)
    requires Metered(P, gas) && Inv(P, gas, s) && s.commit < s.next
    requires CellOk(P, gas, s.(phase := phase), s.commit)
    ensures Inv(P, gas, s.(phase := phase))
  {
    SharedKept(P, s, s.(phase := phase), s.commit);
    OthersKept(P, gas, s, s.(phase := phase), s.commit);
  }

  lemma RejectKeeps(P: Block, gas: nat, s: State)
    requires Metered(P, gas) && Inv(P, gas, s) && s.phase.Checking? && s.commit < s.next && AsksNothing(P, s.commit)
    ensures var c := s.cells[s.commit];
            Inv(P, gas, SetCell(s, s.commit, Aborted(c)).(phase := Marking(c.txn.writeKeys, c.txn.writeKeys)))
  {
    var c := s.cells[s.commit];
    assert CellOk(P, gas, s, s.commit);
    var t := SetCell(s, s.commit, Aborted(c)).(phase := Marking(c.txn.writeKeys, c.txn.writeKeys));
    SharedKept(P, s, t, s.commit);
    OthersKept(P, gas, s, t, s.commit);
  }

  predicate IsCleanup(st: Step) { st.Mark? || st.Unlink? || st.Remove? || st.Restart? }

  lemma CleanupKeeps(P: Block, gas: nat, s: State, st: Step)
    requires Metered(P, gas) && Inv(P, gas, s) && Possible(s, st) && IsCleanup(st)
    ensures Inv(P, gas, After(P, s, st))
  {
    assert CellOk(P, gas, s, s.commit);
    SharedKept(P, s, After(P, s, st), s.commit);
    OthersKept(P, gas, s, After(P, s, st), s.commit);
  }

  lemma DispatchKeeps(P: Block, gas: nat, s: State)
    requires Metered(P, gas) && Inv(P, gas, s) && Possible(s, Dispatch)
    ensures Inv(P, gas, After(P, s, Dispatch))
  {
    var t := After(P, s, Dispatch);
    forall i | 0 <= i < |t.cells| ensures CellOk(P, gas, t, i) {
      assert CellOk(P, gas, s, i);
      if i == s.next { assert Working(P, i, t.cells[i]); }
    }
    assert CellOk(P, gas, s, s.next);
    SharedKept(P, s, t, s.next);
  }

  lemma CommitKeeps(P: Block, gas: nat, s: State)
    requires Metered(P, gas) && Inv(P, gas, s) && Possible(s, Commit)
    ensures Inv(P, gas, After(P, s, Commit))
  {
    var t := After(P, s, Commit);
    forall i | 0 <= i < |t.cells| ensures CellOk(P, gas, t, i) {
      assert CellOk(P, gas, s, i);
    }
    SharedKept(P, s, t, s.commit);
  }

  lemma ClaimKeeps(P: Block, gas: nat, s: State)
    requires Metered(P, gas) && Inv(P, gas, s) && Possible(s, Claim)
    ensures Inv(P, gas, After(P, s, Claim))
  {
    assert CellOk(P, gas, s, s.commit);
    SharedKept(P, s, After(P, s, Claim), s.commit);
    OthersKept(P, gas, s, After(P, s, Claim), s.commit);
  }

  lemma StepKeeps(P: Block, gas: nat, s: State, st: Step)
    requires Metered(P, gas) && Confined(P) && Inv(P, gas, s) && Possible(s, st)
    ensures Inv(P, gas, After(P, s, st))
  {
    match st
    case Dispatch => DispatchKeeps(P, gas, s);
    case Advance(i) => AdvanceKeeps(P, gas, s, i);
    case Publish(i, key) => PublishKeeps(P, gas, s, i, key);
    case Record(i) => RecordKeeps(P, gas, s, i);
    case Claim => ClaimKeeps(P, gas, s);
    case Check => CheckKeeps(P, gas, s);
    case Commit => CommitKeeps(P, gas, s);
    case _ => CleanupKeeps(P, gas, s, st);
  }

  // ---- whole runs ------------------------------------------------------------------------

  /** A run of the block's `n` transactions on a pool of workers, in any interleaving. */
  ghost predicate IsRun(P: Block, workers: nat, n: nat, states: seq<State>, steps: seq<Step>) {
    && |states| == |steps| + 1 && states[0] == Initial(n)
    && forall k :: 0 <= k < |steps| ==>
         Enabled(workers, states[k], steps[k]) && states[k + 1] == After(P, states[k], steps[k])
  }

  lemma {:induction false} RunKeeps(P: Block, gas: nat, workers: nat, n: nat, states: seq<State>, steps: seq<Step>,
                                    k: nat)
    requires Metered(P, gas) && Confined(P) && IsRun(P, workers, n, states, steps) && k < |states|
    ensures Inv(P, gas, states[k]) && |states[k].cells| == n
  {
    if k > 0 {
      RunKeeps(P, gas, workers, n, states, steps, k - 1);
      StepKeeps(P, gas, states[k - 1], steps[k - 1]);
    } else {
      assert states[0] == Initial(n);
      forall i | 0 <= i < n ensures CellOk(P, gas, states[0], i) {}
      assert Replay(map[], []) == map[];
    }
  }

  /** The highest write of each key: `snapshot_committed_into_btreemap`. */
  function Snapshot(cells: seq<Cell>): map<Key, Value> {
    map key | key in AllKeys(cells) && Highest(cells, key, |cells|).Some? :: Highest(cells, key, |cells|).value
  }

  function AllKeys(cells: seq<Cell>): set<Key> { if cells == [] then {} else cells[0].slot.Keys + AllKeys(cells[1..]) }

  function Highest(cells: seq<Cell>, key: Key, idx: nat): Option<Value>
    requires idx <= |cells|
  {
    if idx == 0 then None
    else if key in cells[idx - 1].slot then Some(cells[idx - 1].slot[key].value)
    else Highest(cells, key, idx - 1)
  }

  lemma {:induction false} HighestIsSequential(P: Block, gas: nat, cells: seq<Cell>, key: Key, idx: nat)
    requires Metered(P, gas) && idx <= |cells| && forall j :: 0 <= j < idx ==> Final(cells[j], Out(P, gas, j))
    ensures Highest(cells, key, idx) == Lookup(Mem(P, gas, idx), key)
  {
    if idx > 0 {
      assert Final(cells[idx - 1], Out(P, gas, idx - 1));
      HighestIsSequential(P, gas, cells, key, idx - 1);
    }
  }

  lemma {:induction false} HighestIsSomeKey(cells: seq<Cell>, key: Key, idx: nat)
    requires idx <= |cells| && Highest(cells, key, idx).Some?
    ensures key in AllKeys(cells)
  {
    if key in cells[idx - 1].slot { KeyOfCell(cells, key, idx - 1); } else { HighestIsSomeKey(cells, key, idx - 1); }
  }

  lemma {:induction false} KeyOfCell(cells: seq<Cell>, key: Key, i: nat)
    requires i < |cells| && key in cells[i].slot
    ensures key in AllKeys(cells)
  {
    if i > 0 { KeyOfCell(cells[1..], key, i - 1); }
  }

  /** The receipts and the final writes are those of the sequential execution. */
  ghost predicate Sequential(P: Block, gas: nat, cells: seq<Cell>)
    requires Metered(P, gas)
  {
    && (forall i :: 0 <= i < |cells| ==> cells[i].txn.receipt == Some(Out(P, gas, i).receipt))
    && Snapshot(cells) == Mem(P, gas, |cells|)
  }

  /** Whatever the interleaving, when the block is done its output is the sequential one. */
  lemma ParallelEqualsSequential(P: Block, gas: nat, workers: nat, n: nat, states: seq<State>, steps: seq<Step>)
    requires Metered(P, gas) && Confined(P) && IsRun(P, workers, n, states, steps)
    requires states[|steps|].commit >= n
    ensures |states[|steps|].cells| == n && Sequential(P, gas, states[|steps|].cells)
  {
    RunKeeps(P, gas, workers, n, states, steps, |steps|);
    var s := states[|steps|];
    forall i | 0 <= i < n ensures Final(s.cells[i], Out(P, gas, i)) { assert CellOk(P, gas, s, i); }
    SnapshotIsSequential(P, gas, s.cells);
  }

  lemma SnapshotIsSequential(P: Block, gas: nat, cells: seq<Cell>)
    requires Metered(P, gas) && forall j :: 0 <= j < |cells| ==> Final(cells[j], Out(P, gas, j))
    ensures Snapshot(cells) == Mem(P, gas, |cells|)
  {
    var shot, mem := Snapshot(cells), Mem(P, gas, |cells|);
    forall key ensures (key in shot <==> key in mem) && (key in shot ==> shot[key] == mem[key]) {
      HighestIsSequential(P, gas, cells, key, |cells|);
      if key in mem { HighestIsSomeKey(cells, key, |cells|); }
    }
  }

  /** One incarnation over a committed prefix, as the sequential scheduler runs it. */
  method RunIncarnation(P: Block, gas: nat, cells: seq<Cell>, idx: nat, shared: Shared)
    returns (writes: map<Key, Value>, receipt: Receipt, after: Shared)
    requires Metered(P, gas) && idx < |cells| && forall j :: 0 <= j < idx ==> Final(cells[j], Out(P, gas, j))
    requires shared == Before(P, gas, idx).shared
    ensures Outcome(writes, receipt, after) == Out(P, gas, idx)
  {
    ghost var mem := Mem(P, gas, idx);
    var history: History := [];
    var action := P(idx, history);
    after := shared;
    while !action.Finish?
      invariant action == P(idx, history)
      invariant SeqRun(P, gas, idx, [], mem, shared) == SeqRun(P, gas, idx, history, mem, after)
      decreases gas - |history|
    {
      if action.Read? {
        ResolvePrefix(P, gas, cells, action.key, idx);
        history := history + [Got(ValueOf(Observe(Resolve(cells, action.key, idx))))];
      } else {
        history := history + [Told(Reply(Held(after, ResourceOf(action.query)), action.query))];
        after := Served(after, action.query);
      }
      action := P(idx, history);
    }
    writes, receipt := action.writes, action.receipt;
  }

  /** `SequentialScheduler::execute_block`, over the same multi-version store. */
  method ExecuteSequentially(P: Block, gas: nat, n: nat) returns (receipts: seq<Receipt>, writes: map<Key, Value>)
    requires Metered(P, gas)
    ensures |receipts| == n && forall i :: 0 <= i < n ==> receipts[i] == Out(P, gas, i).receipt
    ensures writes == Mem(P, gas, n)
  {
    var cells := Initial(n).cells;
    var shared: Shared := map[];
    receipts := [];
    for idx := 0 to n
      invariant |cells| == n && |receipts| == idx && shared == Before(P, gas, idx).shared
      invariant forall j :: 0 <= j < idx ==> Final(cells[j], Out(P, gas, j)) && receipts[j] == Out(P, gas, j).receipt
    {
      var ws, receipt, after := RunIncarnation(P, gas, cells, idx, shared);
      var slot := map k | k in ws :: Entry(0, ws[k], false);
      cells := cells[idx := Cell(slot, TxnState(0, true, ws.Keys, [], Some(receipt)), NoWork)];
      assert Final(cells[idx], Out(P, gas, idx));
      receipts, shared := receipts + [receipt], after;
    }
    SnapshotIsSequential(P, gas, cells);
    writes := Snapshot(cells);
  }
}
