/** What escapes validation in Flux: two blocks on which a complete parallel run is not the
    sequential execution, and the exact statement of what has to be captured. */
module FluxLeaks {
  import opened Primitives
  import opened Flux
  import FluxSolo
  import opened FluxProgress

  /** Outside the capture set the block reads only keys of `U` and asks only caches of `W`. */
  ghost predicate Within(P: Block, U: iset<Key>, W: iset<Resource>) { forall i, h :: Stays(P(i, h), U, W) }

  predicate Stays(a: Action, U: iset<Key>, W: iset<Resource>) {
    (a.Read? && !a.tracked ==> a.key in U) && (a.Ask? ==> ResourceOf(a.query) in W)
  }

  // ---- building runs -----------------------------------------------------------------------

  /** A run of two transactions on two workers that ends in `end`. */
  ghost predicate Reaches(P: Block, states: seq<State>, steps: seq<Step>, end: State) {
    IsRun(P, 2, 2, states, steps) && states[|steps|] == end
  }

  lemma Extend(P: Block, states: seq<State>, steps: seq<Step>, s: State, st: Step, t: State)
    returns (more: seq<State>, log: seq<Step>)
    requires Reaches(P, states, steps, s) && Enabled(2, s, st) && t == After(P, s, st)
    ensures Reaches(P, more, log, t)
  {
    more, log := states + [t], steps + [st];
  }

  lemma TwoCells(a: Cell, b: Cell)
    ensures Active([a, b]) == (if a.work.NoWork? then 0 else 1) + (if b.work.NoWork? then 0 else 1)
  {
    assert [a, b][1..] == [b];
    assert [b][1..] == [];
    assert Active([]) == 0;
  }

  lemma NothingBefore(a: Answer, o: Logged)
    ensures [] + [a] == [a] && [] + [o] == [o]
  {
  }

  const STARTED := FRESH.(work := Executing(0, [], []))

  lemma BothDispatched(P: Block) returns (states: seq<State>, steps: seq<Step>)
    ensures Reaches(P, states, steps, State([STARTED, STARTED], 2, 0, Unclaimed, map[]))
  {
    states, steps := [Initial(2)], [];
    assert Initial(2).cells == [FRESH, FRESH];
    TwoCells(FRESH, FRESH);
    var s1 := State([STARTED, FRESH], 1, 0, Unclaimed, map[]);
    states, steps := Extend(P, states, steps, Initial(2), Dispatch, s1);
    TwoCells(STARTED, FRESH);
    states, steps := Extend(P, states, steps, s1, Dispatch, State([STARTED, STARTED], 2, 0, Unclaimed, map[]));
  }

  /** Nothing in the log is validated. */
  predicate Unvalidated(log: Log) { forall k :: 0 <= k < |log| ==> !(log[k].ReadOf? && log[k].tracked) }

  /** A transaction with nothing to validate is accepted. */
  lemma {:induction false} ChecksPass(P: Block, states: seq<State>, steps: seq<Step>, s: State)
    returns (more: seq<State>, log: seq<Step>)
    requires Reaches(P, states, steps, s) && s.phase.Checking? && s.commit < |s.cells|
    requires Unvalidated(s.cells[s.commit].txn.seen) && s.phase.checked <= |s.cells[s.commit].txn.seen|
    ensures Reaches(P, more, log, s.(phase := Ready))
    decreases |s.cells[s.commit].txn.seen| - s.phase.checked
  {
    var k := s.phase.checked;
    if k == |s.cells[s.commit].txn.seen| {
      more, log := Extend(P, states, steps, s, Check, s.(phase := Ready));
    } else {
      more, log := Extend(P, states, steps, s, Check, s.(phase := Checking(k + 1)));
      more, log := ChecksPass(P, more, log, s.(phase := Checking(k + 1)));
    }
  }

  lemma CommitsNext(P: Block, states: seq<State>, steps: seq<Step>, s: State)
    returns (more: seq<State>, log: seq<Step>)
    requires Reaches(P, states, steps, s) && s.phase.Unclaimed? && s.commit < s.next == |s.cells|
    requires forall i :: 0 <= i < |s.cells| ==> s.cells[i].work.NoWork?
    requires s.cells[s.commit].txn.executed && Unvalidated(s.cells[s.commit].txn.seen)
    ensures Reaches(P, more, log, s.(commit := s.commit + 1))
  {
    NobodyActive(s.cells);
    more, log := Extend(P, states, steps, s, Claim, s.(phase := Checking(0)));
    more, log := ChecksPass(P, more, log, s.(phase := Checking(0)));
    more, log := Extend(P, more, log, s.(phase := Ready), Commit, s.(commit := s.commit + 1));
  }

  lemma BothCommit(P: Block, states: seq<State>, steps: seq<Step>, a: Cell, b: Cell, shared: Shared)
    returns (more: seq<State>, log: seq<Step>)
    requires Reaches(P, states, steps, State([a, b], 2, 0, Unclaimed, shared)) && a.work.NoWork? && b.work.NoWork?
    requires a.txn.executed && Unvalidated(a.txn.seen) && b.txn.executed && Unvalidated(b.txn.seen)
    ensures Reaches(P, more, log, State([a, b], 2, 2, Unclaimed, shared))
  {
    more, log := CommitsNext(P, states, steps, State([a, b], 2, 0, Unclaimed, shared));
    more, log := CommitsNext(P, more, log, State([a, b], 2, 1, Unclaimed, shared));
  }

  // ---- a read outside the capture set ------------------------------------------------------

  function ValueFor(key: Key): Value {
    match key
    case StorageKey(_, _) => BlockExec.StorageValue(Some([1]))
    case BalanceKey(_) => BlockExec.BalanceValue(1)
    case NonceKey(_) => BlockExec.NonceValue(1)
    case CodeKey(_) => BlockExec.CodeValue(Some([1]))
  }

  /** Transaction 0 writes `key`; transaction 1 reads it outside the capture set and reports
      whether it saw the write. */
  function LeakyRead(key: Key): Block {
    (i: nat, h: History) =>
      if i == 0 then Finish(map[key := ValueFor(key)], Receipt(true, 0))
      else if h == [] then Read(key, false)
      else Finish(map[], Receipt(h[0].Got? && h[0].value.Some?, 0))
  }

  function Missed(key: Key): Log { [ReadOf(key, BaseFallthrough, false)] }

  function Wrong(key: Key): Cell { FRESH.(txn := TxnState(0, true, {}, Missed(key), Some(Receipt(false, 0)))) }

  function Wrote(key: Key): Cell {
    Cell(map[key := Entry(0, ValueFor(key), false)], TxnState(0, true, {key}, [], Some(Receipt(true, 0))), NoWork)
  }

  /** Transaction 1 runs ahead of transaction 0 and misses its write. */
  lemma ReaderRunsAhead(key: Key) returns (states: seq<State>, steps: seq<Step>)
    ensures Reaches(LeakyRead(key), states, steps, State([STARTED, Wrong(key)], 2, 0, Unclaimed, map[]))
  {
    var P := LeakyRead(key);
    states, steps := BothDispatched(P);
    var s2 := State([STARTED, STARTED], 2, 0, Unclaimed, map[]);
    var looked := FRESH.(work := Executing(0, [Got(None)], Missed(key)));
    var nothing: map<Key, Value> := map[];
    var ended := FRESH.(work := Publishing(0, nothing, {}, Missed(key), Receipt(false, 0)));
    assert nothing.Keys == {};
    assert Resolve(s2.cells, key, 1) == NotFound;
    NothingBefore(Got(None), Missed(key)[0]);
    assert Advanced(P, s2, 1) == looked;
    states, steps := Extend(P, states, steps, s2, Advance(1), State([STARTED, looked], 2, 0, Unclaimed, map[]));
    states, steps := Extend(P, states, steps, State([STARTED, looked], 2, 0, Unclaimed, map[]), Advance(1),
                            State([STARTED, ended], 2, 0, Unclaimed, map[]));
    states, steps := Extend(P, states, steps, State([STARTED, ended], 2, 0, Unclaimed, map[]), Record(1),
                            State([STARTED, Wrong(key)], 2, 0, Unclaimed, map[]));
  }

  lemma WriterCatchesUp(key: Key) returns (states: seq<State>, steps: seq<Step>)
    ensures Reaches(LeakyRead(key), states, steps, State([Wrote(key), Wrong(key)], 2, 0, Unclaimed, map[]))
  {
    var P, w := LeakyRead(key), map[key := ValueFor(key)];
    states, steps := ReaderRunsAhead(key);
    var ended := FRESH.(work := Publishing(0, w, {key}, [], Receipt(true, 0)));
    var shown := Cell(map[key := Entry(0, ValueFor(key), false)], FRESH.txn, ended.work.(left := {}));
    assert w.Keys == {key} && {key} - {key} == {};
    states, steps := Extend(P, states, steps, State([STARTED, Wrong(key)], 2, 0, Unclaimed, map[]), Advance(0),
                            State([ended, Wrong(key)], 2, 0, Unclaimed, map[]));
    states, steps := Extend(P, states, steps, State([ended, Wrong(key)], 2, 0, Unclaimed, map[]), Publish(0, key),
                            State([shown, Wrong(key)], 2, 0, Unclaimed, map[]));
    states, steps := Extend(P, states, steps, State([shown, Wrong(key)], 2, 0, Unclaimed, map[]), Record(0),
                            State([Wrote(key), Wrong(key)], 2, 0, Unclaimed, map[]));
  }

  lemma ReadSequentially(key: Key)
    ensures Metered(LeakyRead(key), 1) && Out(LeakyRead(key), 1, 1).receipt == Receipt(true, 0)
  {
    var P, w := LeakyRead(key), map[key := ValueFor(key)];
    assert Before(P, 1, 0) == Prefix(map[], map[]);
    assert SeqRun(P, 1, 0, [], map[], map[]) == Outcome(w, Receipt(true, 0), map[]);
    var p := Before(P, 1, 1);
    assert Lookup(p.mem, key) == Some(ValueFor(key));
    assert SeqRun(P, 1, 1, [], p.mem, p.shared) == SeqRun(P, 1, 1, [] + [Got(Lookup(p.mem, key))], p.mem, p.shared);
  }

  /** For every key, one read of it outside the capture set is enough: the block is metered and
      completes, but the receipt of transaction 1 is not the sequential one. */
  lemma UntrackedReadDiverges(key: Key) returns (states: seq<State>, steps: seq<Step>)
    ensures Metered(LeakyRead(key), 1) && Within(LeakyRead(key), iset{key}, iset{})
    ensures Completes(LeakyRead(key), 2, 2, states, steps)
    ensures !Sequential(LeakyRead(key), 1, states[|steps|].cells)
  {
    states, steps := WriterCatchesUp(key);
    states, steps := BothCommit(LeakyRead(key), states, steps, Wrote(key), Wrong(key), map[]);
    ReadSequentially(key);
    assert states[|steps|].cells[1].txn.receipt == Some(Receipt(false, 0));
  }

  // ---- the shared caches -------------------------------------------------------------------

  /** What transaction `i` asks of the cache: to touch the code, or to recall the manifest when it
      has parsed manifest `i` from the code it sees. */
  function QueryBy(r: Resource, i: nat): Query {
    match r
    case WarmCode(code) => Touch(code)
    case ManifestOf(addr) => Recall(addr, i)
  }

  /** Both transactions ask the cache and report what they were told. */
  function LeakyAsk(r: Resource): Block {
    (i: nat, h: History) =>
      if h == [] then Ask(QueryBy(r, i)) else Finish(map[], Receipt(true, if h[0].Told? then h[0].reply else 0))
  }

  function ReplyTo(r: Resource, i: nat, sh: Shared): nat { Reply(Held(sh, r), QueryBy(r, i)) }

  function Asked(r: Resource, i: nat, reply: nat): Cell {
    FRESH.(txn := TxnState(0, true, {}, [AskOf(QueryBy(r, i), reply)], Some(Receipt(true, reply))))
  }

  /** One transaction asks, finishes and is recorded. */
  lemma AsksAndEnds(r: Resource, states: seq<State>, steps: seq<Step>, cells: seq<Cell>, sh: Shared, i: nat)
    returns (more: seq<State>, log: seq<Step>)
    requires |cells| == 2 && i < 2 && cells[i] == STARTED
    requires Reaches(LeakyAsk(r), states, steps, State(cells, 2, 0, Unclaimed, sh))
    ensures Reaches(LeakyAsk(r), more, log,
                    State(cells[i := Asked(r, i, ReplyTo(r, i, sh))], 2, 0, Unclaimed, Served(sh, QueryBy(r, i))))
  {
    var P, q, reply, after := LeakyAsk(r), QueryBy(r, i), ReplyTo(r, i, sh), Served(sh, QueryBy(r, i));
    var looked := FRESH.(work := Executing(0, [Told(reply)], [AskOf(q, reply)]));
    var nothing: map<Key, Value> := map[];
    var ended := FRESH.(work := Publishing(0, nothing, {}, [AskOf(q, reply)], Receipt(true, reply)));
    assert nothing.Keys == {};
    var s0 := State(cells, 2, 0, Unclaimed, sh);
    NothingBefore(Told(reply), AskOf(q, reply));
    assert ResourceOf(q) == r;
    assert Advanced(P, s0, i) == looked;
    var s1 := State(cells[i := looked], 2, 0, Unclaimed, after);
    more, log := Extend(P, states, steps, s0, Advance(i), s1);
    var s2 := State(cells[i := ended], 2, 0, Unclaimed, after);
    assert s1.cells[i := ended] == cells[i := ended];
    more, log := Extend(P, more, log, s1, Advance(i), s2);
    assert s2.cells[i := Asked(r, i, reply)] == cells[i := Asked(r, i, reply)];
    more, log := Extend(P, more, log, s2, Record(i), State(cells[i := Asked(r, i, reply)], 2, 0, Unclaimed, after));
  }

  lemma AskedSequentially(r: Resource)
    ensures Metered(LeakyAsk(r), 1) && Out(LeakyAsk(r), 1, 0).receipt == Receipt(true, ReplyTo(r, 0, map[]))
  {
    var P, q, reply := LeakyAsk(r), QueryBy(r, 0), ReplyTo(r, 0, map[]);
    assert Before(P, 1, 0) == Prefix(map[], map[]);
    assert ResourceOf(q) == r;
    assert SeqRun(P, 1, 0, [], map[], map[]) == SeqRun(P, 1, 0, [] + [Told(reply)], map[], Served(map[], q));
  }

  /** The first asker changes what the second is told. */
  lemma SecondIsToldOtherwise(r: Resource)
    ensures ReplyTo(r, 0, Served(map[], QueryBy(r, 1))) != ReplyTo(r, 0, map[])
  {
  }

  /** For every shared cache, two transactions that ask it and capture everything are enough: the
      second transaction comes first. */
  lemma SharedAskDiverges(r: Resource) returns (states: seq<State>, steps: seq<Step>)
    ensures Metered(LeakyAsk(r), 1) && Within(LeakyAsk(r), iset{}, iset{r})
    ensures Completes(LeakyAsk(r), 2, 2, states, steps)
    ensures !Sequential(LeakyAsk(r), 1, states[|steps|].cells)
  {
    var P, sh := LeakyAsk(r), Served(map[], QueryBy(r, 1));
    var ahead, behind := Asked(r, 1, ReplyTo(r, 1, map[])), Asked(r, 0, ReplyTo(r, 0, sh));
    states, steps := BothDispatched(P);
    states, steps := AsksAndEnds(r, states, steps, [STARTED, STARTED], map[], 1);
    assert [STARTED, STARTED][1 := ahead] == [STARTED, ahead];
    states, steps := AsksAndEnds(r, states, steps, [STARTED, ahead], sh, 0);
    assert [STARTED, ahead][0 := behind] == [behind, ahead];
    states, steps := BothCommit(P, states, steps, behind, ahead, Served(sh, QueryBy(r, 0)));
    AskedSequentially(r);
    SecondIsToldOtherwise(r);
    assert states[|steps|].cells[0] == behind;
  }

  /** A run of the whole block. */
  ghost predicate Completes(P: Block, workers: nat, n: nat, states: seq<State>, steps: seq<Step>) {
    IsRun(P, workers, n, states, steps) && states[|steps|].commit >= n
  }

  // ---- exactly what has to be captured -----------------------------------------------------

  /** Every completed run of every metered block is sequential if and only if no key is read
      outside the capture set and no shared cache is asked. */
  lemma CaptureIff(U: iset<Key>, W: iset<Resource>)
    ensures (forall P: Block, gas: nat, workers: nat, n: nat, states: seq<State>, steps: seq<Step> ::
               (Metered(P, gas) && Within(P, U, W) && Completes(P, workers, n, states, steps))
               ==> Sequential(P, gas, states[|steps|].cells))
            <==> U == iset{} && W == iset{}
  {
    if U == iset{} && W == iset{} {
      forall P: Block, gas: nat, workers: nat, n: nat, states: seq<State>, steps: seq<Step>
        | Metered(P, gas) && Within(P, U, W) && Completes(P, workers, n, states, steps)
        ensures Sequential(P, gas, states[|steps|].cells)
      {
        forall i, h ensures Harmless(P, i, P(i, h)) { assert Stays(P(i, h), U, W); }
        ParallelEqualsSequential(P, gas, workers, n, states, steps);
      }
    } else if U != iset{} {
      var key :| key in U;
      var states, steps := UntrackedReadDiverges(key);
      WithinMore(LeakyRead(key), iset{key}, iset{}, U, W);
    } else {
      var r :| r in W;
      var states, steps := SharedAskDiverges(r);
      WithinMore(LeakyAsk(r), iset{}, iset{r}, U, W);
    }
  }

  /** Every completed run on a pool of `workers` is sequential. */
  ghost predicate AlwaysSequential(workers: nat, U: iset<Key>, W: iset<Resource>) {
    forall P: Block, gas: nat, n: nat, states: seq<State>, steps: seq<Step> ::
      (Metered(P, gas) && Within(P, U, W) && Completes(P, workers, n, states, steps))
      ==> Sequential(P, gas, states[|steps|].cells)
  }

  lemma MoreWorkers(P: Block, few: nat, many: nat, n: nat, states: seq<State>, steps: seq<Step>)
    requires few <= many && IsRun(P, few, n, states, steps)
    ensures IsRun(P, many, n, states, steps)
  {
  }

  /** For a given number of workers that holds if and only if there is at most one worker or nothing
      escapes. */
  lemma CaptureByWorkersIff(workers: nat, U: iset<Key>, W: iset<Resource>)
    ensures AlwaysSequential(workers, U, W) <==> workers <= 1 || (U == iset{} && W == iset{})
  {
    if workers <= 1 {
      forall P: Block, gas: nat, n: nat, states: seq<State>, steps: seq<Step>
        | Metered(P, gas) && Within(P, U, W) && Completes(P, workers, n, states, steps)
        ensures Sequential(P, gas, states[|steps|].cells)
      {
        MoreWorkers(P, workers, 1, n, states, steps);
        FluxSolo.OneWorkerIsSequential(P, gas, n, states, steps);
      }
    } else if U == iset{} && W == iset{} {
      CaptureIff(U, W);
    } else {
      SomethingEscapes(workers, U, W);
    }
  }

  lemma Refuted(P: Block, gas: nat, workers: nat, states: seq<State>, steps: seq<Step>, U: iset<Key>, W: iset<Resource>)
    requires Metered(P, gas) && Within(P, U, W) && Completes(P, 2, 2, states, steps) && workers >= 2
    requires !Sequential(P, gas, states[|steps|].cells)
    ensures !AlwaysSequential(workers, U, W)
  {
    MoreWorkers(P, 2, workers, 2, states, steps);
    assert Completes(P, workers, 2, states, steps);
  }

  lemma SomethingEscapes(workers: nat, U: iset<Key>, W: iset<Resource>)
    requires workers >= 2 && (U != iset{} || W != iset{})
    ensures !AlwaysSequential(workers, U, W)
  {
    if U != iset{} {
      var key :| key in U;
      var states, steps := UntrackedReadDiverges(key);
      WithinMore(LeakyRead(key), iset{key}, iset{}, U, W);
      Refuted(LeakyRead(key), 1, workers, states, steps, U, W);
    } else {
      var r :| r in W;
      var states, steps := SharedAskDiverges(r);
      WithinMore(LeakyAsk(r), iset{}, iset{r}, U, W);
      Refuted(LeakyAsk(r), 1, workers, states, steps, U, W);
    }
  }

  lemma WithinMore(P: Block, U: iset<Key>, W: iset<Resource>, V: iset<Key>, X: iset<Resource>)
    requires Within(P, U, W) && U <= V && W <= X
    ensures Within(P, V, X)
  {
    forall i, h ensures Stays(P(i, h), V, X) { assert Stays(P(i, h), U, W); }
  }
}
