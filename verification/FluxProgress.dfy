/** Progress and termination of the parallel executor, for every block: nothing here depends on
    what the transactions read or ask. */
module FluxProgress {
  import opened Flux

  // ---- the shape of reachable states -----------------------------------------------------

  /** A worker has the transaction and it has no result yet, or the other way round. */
  predicate Settling(c: Cell) { c.work.NoWork? == c.txn.executed && WorkOk(c) }

  predicate WorkOk(c: Cell) { c.work.Publishing? ==> c.work.left <= c.work.writes.Keys }

  predicate AtCommit(c: Cell, phase: Phase) {
    match phase
    case Unclaimed => Settling(c)
    case Checking(k) => c.work.NoWork? && c.txn.executed && k <= |c.txn.seen|
    case Marking(_, _) => c.work.NoWork? && !c.txn.executed
    case Removing(_) => c.work.NoWork? && !c.txn.executed
    case Reexecuting => !c.work.NoWork? && !c.txn.executed && WorkOk(c)
    case Ready => c.work.NoWork? && c.txn.executed
  }

  predicate CellShape(s: State, i: nat)
    requires i < |s.cells|
  {
    var c := s.cells[i];
    if i < s.commit then c.work.NoWork? && c.txn.executed
    else if i >= s.next then c.work.NoWork? && !c.txn.executed
    else if i == s.commit then AtCommit(c, s.phase)
    else Settling(c)
  }

  /** What every run keeps, whatever the transactions read and ask. */
  ghost predicate Shape(s: State) {
    && s.commit <= s.next <= |s.cells|
    && (s.commit == s.next ==> s.phase.Unclaimed?)
    && forall i :: 0 <= i < |s.cells| ==> CellShape(s, i)
  }

  lemma ShapeOfOthers(s: State, t: State, i: nat)
    requires Shape(s) && i < |s.cells| && |t.cells| == |s.cells| && t.next == s.next && t.commit == s.commit
    requires forall j :: 0 <= j < |s.cells| && j != i ==> t.cells[j] == s.cells[j]
    requires t.phase == s.phase || (i == s.commit && s.commit < s.next)
    requires CellShape(t, i)
    ensures Shape(t)
  {
    forall j | 0 <= j < |t.cells| ensures CellShape(t, j) {
      if j != i { assert CellShape(s, j); }
    }
  }

  lemma WorkKeepsShape(P: Block, s: State, st: Step)
    requires Shape(s) && Possible(s, st) && (st.Advance? || st.Publish? || st.Record?)
    ensures Shape(After(P, s, st))
  {
    assert CellShape(s, st.i);
    ShapeOfOthers(s, After(P, s, st), st.i);
  }

  lemma CommitterKeepsShape(P: Block, s: State, st: Step)
    requires Shape(s) && Possible(s, st) && (st.Claim? || st.Check? || IsCleanup(st))
    ensures Shape(After(P, s, st))
  {
    assert CellShape(s, s.commit);
    ShapeOfOthers(s, After(P, s, st), s.commit);
  }

  lemma CursorKeepsShape(P: Block, s: State, st: Step)
    requires Shape(s) && Possible(s, st) && (st.Dispatch? || st.Commit?)
    ensures Shape(After(P, s, st))
  {
    var t := After(P, s, st);
    forall j | 0 <= j < |t.cells| ensures CellShape(t, j) { assert CellShape(s, j); }
  }

  lemma StepKeepsShape(P: Block, s: State, st: Step)
    requires Shape(s) && Possible(s, st)
    ensures Shape(After(P, s, st))
  {
    if st.Advance? || st.Publish? || st.Record? {
      WorkKeepsShape(P, s, st);
    } else if st.Dispatch? || st.Commit? {
      CursorKeepsShape(P, s, st);
    } else {
      CommitterKeepsShape(P, s, st);
    }
  }

  lemma {:induction false} RunKeepsShape(P: Block, workers: nat, n: nat, states: seq<State>, steps: seq<Step>, k: nat)
    requires IsRun(P, workers, n, states, steps) && k < |states|
    ensures Shape(states[k]) && |states[k].cells| == n
  {
    if k > 0 {
      RunKeepsShape(P, workers, n, states, steps, k - 1);
      StepKeepsShape(P, states[k - 1], steps[k - 1]);
    } else {
      forall i | 0 <= i < n ensures CellShape(states[0], i) {}
    }
  }

  // ---- progress --------------------------------------------------------------------------

  lemma {:induction false} NobodyActive(cells: seq<Cell>)
    requires forall i :: 0 <= i < |cells| ==> cells[i].work.NoWork?
    ensures Active(cells) == 0
  {
    if cells != [] { NobodyActive(cells[1..]); }
  }

  /** Until the block is done, some step is enabled, however small the pool. */
  lemma NoDeadlock(workers: nat, s: State) returns (st: Step)
    requires Shape(s) && workers >= 1 && s.commit < |s.cells|
    ensures Enabled(workers, s, st)
  {
    if i: nat :| i < |s.cells| && !s.cells[i].work.NoWork? {
      assert CellShape(s, i);
      if s.cells[i].work.Executing? {
        st := Advance(i);
      } else if s.cells[i].work.left == {} {
        st := Record(i);
      } else {
        var key :| key in s.cells[i].work.left;
        st := Publish(i, key);
      }
    } else {
      NobodyActive(s.cells);
      assert CellShape(s, s.commit);
      match s.phase
      case Unclaimed => st := if s.next < |s.cells| then Dispatch else Claim;
      case Checking(_) => st := Check;
      case Marking(_, unmarked) =>
        if unmarked == {} { st := Unlink; } else { var key :| key in unmarked; st := Mark(key); }
      case Removing(left) =>
        if left == {} { st := Restart; } else { var key :| key in left; st := Remove(key); }
      case Ready => st := Commit;
    }
  }

  // ---- one task per worker ---------------------------------------------------------------

  function Tasks(c: Cell): nat { if c.work.NoWork? then 0 else 1 }

  lemma {:induction false} ActiveUpdate(cells: seq<Cell>, i: nat, c: Cell)
    requires i < |cells|
    ensures Active(cells[i := c]) == Active(cells) - Tasks(cells[i]) + Tasks(c)
  {
    if i == 0 {
      assert cells[0 := c][1..] == cells[1..];
    } else {
      assert cells[i := c][1..] == cells[1..][i - 1 := c];
      ActiveUpdate(cells[1..], i - 1, c);
    }
  }

  /** Only a dispatch and a claim take up a worker. */
  lemma StepBusy(P: Block, s: State, st: Step)
    requires Shape(s) && Possible(s, st)
    ensures Busy(After(P, s, st)) <= Busy(s) + (if st.Dispatch? || st.Claim? then 1 else 0)
  {
    var t := After(P, s, st);
    var i := if st.Dispatch? then s.next else if st.Advance? || st.Publish? || st.Record? then st.i else s.commit;
    if i < |s.cells| {
      assert CellShape(s, i);
      ActiveUpdate(s.cells, i, t.cells[i]);
      assert t.cells == s.cells[i := t.cells[i]];
    }
  }

  lemma {:induction false} RunKeepsBusy(P: Block, workers: nat, n: nat, states: seq<State>, steps: seq<Step>, k: nat)
    requires IsRun(P, workers, n, states, steps) && k < |states|
    ensures Busy(states[k]) <= workers
  {
    if k > 0 {
      RunKeepsBusy(P, workers, n, states, steps, k - 1);
      RunKeepsShape(P, workers, n, states, steps, k - 1);
      StepBusy(P, states[k - 1], steps[k - 1]);
    } else {
      NobodyActive(states[0].cells);
    }
  }

  ghost function Working(cells: seq<Cell>): set<nat> { set i: nat | i < |cells| && !cells[i].work.NoWork? }

  lemma {:induction false} ActiveIsWorking(cells: seq<Cell>)
    ensures Active(cells) == |Working(cells)|
  {
    if cells != [] {
      var last := |cells| - 1;
      ActiveOfLast(cells);
      ActiveIsWorking(cells[..last]);
      assert Working(cells) == Working(cells[..last]) + (if cells[last].work.NoWork? then {} else {last});
    }
  }

  lemma {:induction false} ActiveOfLast(cells: seq<Cell>)
    requires cells != []
    ensures Active(cells) == Active(cells[..|cells| - 1]) + Tasks(cells[|cells| - 1])
  {
    if |cells| > 1 {
      ActiveOfLast(cells[1..]);
      assert cells[1..][..|cells| - 2] == cells[..|cells| - 1][1..];
    }
  }

  /** No run ever has more tasks under way than there are workers: executions, and the commit. */
  lemma TasksWithinPool(P: Block, workers: nat, n: nat, states: seq<State>, steps: seq<Step>, k: nat)
    requires IsRun(P, workers, n, states, steps) && k < |states|
    ensures |Working(states[k].cells)| <= workers
    ensures !states[k].phase.Unclaimed? && !states[k].phase.Reexecuting? ==> |Working(states[k].cells)| < workers
  {
    RunKeepsBusy(P, workers, n, states, steps, k);
    ActiveIsWorking(states[k].cells);
  }

  // ---- termination -----------------------------------------------------------------------

  /** Reads and queries still allowed by the gas of the executing transactions. */
  function ReadBudget(gas: nat, cells: seq<Cell>): nat {
    if cells == [] then 0 else ReadsLeft(gas, cells[0]) + ReadBudget(gas, cells[1..])
  }

  function ReadsLeft(gas: nat, c: Cell): nat {
    if c.work.Executing? then 1 + (if |c.work.history| <= gas then gas - |c.work.history| else 0) else 0
  }

  /** Writes still to be published. */
  function PublishBudget(cells: seq<Cell>): nat {
    if cells == [] then 0 else WritesLeft(cells[0]) + PublishBudget(cells[1..])
  }

  function WritesLeft(c: Cell): nat { if c.work.Publishing? then 1 + |c.work.left| else 0 }

  lemma {:induction false} BudgetOfCell(gas: nat, cells: seq<Cell>, i: nat, c: Cell)
    requires i < |cells|
    ensures ReadBudget(gas, cells[i := c]) == ReadBudget(gas, cells) - ReadsLeft(gas, cells[i]) + ReadsLeft(gas, c)
    ensures PublishBudget(cells[i := c]) == PublishBudget(cells) - WritesLeft(cells[i]) + WritesLeft(c)
  {
    if i > 0 {
      BudgetOfCell(gas, cells[1..], i - 1, c);
      assert cells[i := c][1..] == cells[1..][i - 1 := c];
    } else {
      assert cells[0 := c][1..] == cells[1..];
    }
  }

  function PhaseRank(p: Phase): nat {
    match p
    case Unclaimed => 5
    case Checking(_) => 4
    case Marking(_, _) => 3
    case Removing(_) => 2
    case Reexecuting => 1
    case Ready => 0
  }

  function PhaseLeft(s: State): nat {
    match s.phase
    case Checking(k) =>
      if s.commit < |s.cells| && k <= |s.cells[s.commit].txn.seen| then |s.cells[s.commit].txn.seen| - k else 0
    case Marking(_, unmarked) => |unmarked|
    case Removing(left) => |left|
    case _ => 0
  }

  datatype Rank = Rank(toCommit: int, toDispatch: int, phase: nat, phaseLeft: nat, reading: nat, publishing: nat)

  function RankOf(gas: nat, s: State): Rank {
    Rank(|s.cells| - s.commit, |s.cells| - s.next, PhaseRank(s.phase), PhaseLeft(s),
         ReadBudget(gas, s.cells), PublishBudget(s.cells))
  }

  /** Lexicographic descent. */
  predicate Below(r: Rank, q: Rank) {
    || r.toCommit < q.toCommit
    || (r.toCommit == q.toCommit && r.toDispatch < q.toDispatch)
    || (r.toCommit == q.toCommit && r.toDispatch == q.toDispatch && r.phase < q.phase)
    || (r.toCommit == q.toCommit && r.toDispatch == q.toDispatch && r.phase == q.phase
        && (r.phaseLeft < q.phaseLeft
            || (r.phaseLeft == q.phaseLeft
                && (r.reading < q.reading || (r.reading == q.reading && r.publishing < q.publishing)))))
  }

  lemma AdvanceDescends(P: Block, gas: nat, s: State, i: nat)
    requires Metered(P, gas) && Possible(s, Advance(i))
    ensures Below(RankOf(gas, After(P, s, Advance(i))), RankOf(gas, s))
  {
    BudgetOfCell(gas, s.cells, i, Advanced(P, s, i));
    assert |s.cells[i].work.history| >= gas ==> P(i, s.cells[i].work.history).Finish?;
  }

  lemma PublishDescends(P: Block, gas: nat, s: State, i: nat, key: Key)
    requires Possible(s, Publish(i, key))
    ensures Below(RankOf(gas, After(P, s, Publish(i, key))), RankOf(gas, s))
  {
    BudgetOfCell(gas, s.cells, i, Published(s.cells[i], key));
  }

  lemma RecordDescends(P: Block, gas: nat, s: State, i: nat)
    requires Shape(s) && Possible(s, Record(i))
    ensures Below(RankOf(gas, After(P, s, Record(i))), RankOf(gas, s))
  {
    assert CellShape(s, i);
    BudgetOfCell(gas, s.cells, i, Recorded(s.cells[i]));
    assert i == s.commit ==> !s.phase.Checking?;
  }

  lemma CheckDescends(P: Block, gas: nat, s: State)
    requires Shape(s) && Possible(s, Check)
    ensures Below(RankOf(gas, After(P, s, Check)), RankOf(gas, s))
  {
    assert CellShape(s, s.commit);
  }

  lemma CleanupDescends(P: Block, gas: nat, s: State, st: Step)
    requires Possible(s, st) && IsCleanup(st)
    ensures Below(RankOf(gas, After(P, s, st)), RankOf(gas, s))
  {
    var t := After(P, s, st);
    assert t.commit == s.commit && t.next == s.next && |t.cells| == |s.cells|;
    assert || PhaseRank(t.phase) < PhaseRank(s.phase)
           || (PhaseRank(t.phase) == PhaseRank(s.phase) && PhaseLeft(t) < PhaseLeft(s));
  }

  /** Every step of every worker brings the block closer to its end. */
  lemma StepDescends(P: Block, gas: nat, s: State, st: Step)
    requires Metered(P, gas) && Shape(s) && Possible(s, st)
    ensures Below(RankOf(gas, After(P, s, st)), RankOf(gas, s))
  {
    match st
    case Advance(i) => AdvanceDescends(P, gas, s, i);
    case Publish(i, key) => PublishDescends(P, gas, s, i, key);
    case Record(i) => RecordDescends(P, gas, s, i);
    case Check => CheckDescends(P, gas, s);
    case Mark(_) => CleanupDescends(P, gas, s, st);
    case Unlink => CleanupDescends(P, gas, s, st);
    case Remove(_) => CleanupDescends(P, gas, s, st);
    case Restart => CleanupDescends(P, gas, s, st);
    case _ =>
  }

  ghost predicate GoodStep(P: Block, workers: nat, s: State, st: Step, t: State) {
    Enabled(workers, s, st) && t == After(P, s, st)
  }

  lemma {:induction false} Descend(P: Block, gas: nat, workers: nat, states: nat -> State, steps: nat -> Step, k: nat)
    requires Metered(P, gas) && Shape(states(k))
    requires forall j: nat :: GoodStep(P, workers, states(j), steps(j), states(j + 1))
    ensures false
    decreases |states(k).cells| - states(k).commit, |states(k).cells| - states(k).next, PhaseRank(states(k).phase),
              PhaseLeft(states(k)), ReadBudget(gas, states(k).cells), PublishBudget(states(k).cells)
  {
    assert GoodStep(P, workers, states(k), steps(k), states(k + 1));
    StepKeepsShape(P, states(k), steps(k));
    StepDescends(P, gas, states(k), steps(k));
    Descend(P, gas, workers, states, steps, k + 1);
  }

  /** No schedule goes on for ever: every infinite sequence of states fails to be a run somewhere.
      A worker that finds no task and polls again takes no step, so what is bounded is the work,
      not the number of polls. */
  lemma NoEndlessRun(P: Block, gas: nat, workers: nat, n: nat, states: nat -> State, steps: nat -> Step)
    requires Metered(P, gas) && states(0) == Initial(n)
    ensures exists j: nat :: !GoodStep(P, workers, states(j), steps(j), states(j + 1))
  {
    if forall j: nat :: GoodStep(P, workers, states(j), steps(j), states(j + 1)) {
      assert IsRun(P, workers, n, [states(0)], []);
      RunKeepsShape(P, workers, n, [states(0)], [], 0);
      Descend(P, gas, workers, states, steps, 0);
    }
  }

  /** A run that cannot go on has committed everything. */
  lemma MaximalRunCompletes(P: Block, workers: nat, n: nat, states: seq<State>, steps: seq<Step>)
    requires IsRun(P, workers, n, states, steps) && workers >= 1
    requires forall st :: !Enabled(workers, states[|steps|], st)
    ensures states[|steps|].commit == n == |states[|steps|].cells|
    ensures forall i :: 0 <= i < n ==> states[|steps|].cells[i].txn.executed
  {
    RunKeepsShape(P, workers, n, states, steps, |steps|);
    var s := states[|steps|];
    if s.commit < n {
      var st := NoDeadlock(workers, s);
    }
    forall i | 0 <= i < n ensures s.cells[i].txn.executed { assert CellShape(s, i); }
  }

  /** And on a confined block its output is the sequential one. */
  lemma MaximalRunIsSequential(P: Block, gas: nat, workers: nat, n: nat, states: seq<State>, steps: seq<Step>)
    requires Metered(P, gas) && Confined(P) && IsRun(P, workers, n, states, steps) && workers >= 1
    requires forall st :: !Enabled(workers, states[|steps|], st)
    ensures |states[|steps|].cells| == n && Sequential(P, gas, states[|steps|].cells)
  {
    MaximalRunCompletes(P, workers, n, states, steps);
    ParallelEqualsSequential(P, gas, workers, n, states, steps);
  }

  /** No transaction can write what another reads, and no two ask the same cache. */
  ghost predicate Independent(P: Block) {
    forall i: nat, j: nat, h: History, g: History :: i != j ==> Apart(P(i, h), P(j, g))
  }

  predicate Apart(a: Action, b: Action) {
    && (a.Read? && b.Finish? ==> a.key !in b.writes)
    && (a.Ask? && b.Ask? ==> ResourceOf(a.query) != ResourceOf(b.query))
  }

  /** Independent transactions, contract calls among them, always run as in sequence, captured or
      not. */
  lemma IndependentRunIsSequential(P: Block, gas: nat, workers: nat, n: nat, states: seq<State>, steps: seq<Step>)
    requires Metered(P, gas) && Independent(P) && IsRun(P, workers, n, states, steps) && workers >= 1
    requires forall st :: !Enabled(workers, states[|steps|], st)
    ensures |states[|steps|].cells| == n && Sequential(P, gas, states[|steps|].cells)
  {
    forall i, h ensures Harmless(P, i, P(i, h)) { IndependentIsHarmless(P, i, h); }
    MaximalRunIsSequential(P, gas, workers, n, states, steps);
  }

  lemma IndependentIsHarmless(P: Block, i: nat, h: History)
    requires Independent(P)
    ensures Harmless(P, i, P(i, h))
  {
    forall g | P(i, g).Read? ensures NeverBelow(P, i, P(i, g).key) {
      forall j: nat, f: History | j < i && P(j, f).Finish? ensures P(i, g).key !in P(j, f).writes {
        assert Apart(P(i, g), P(j, f));
      }
    }
    if P(i, h).Ask? {
      forall j: nat | j != i ensures !Asks(P, j, ResourceOf(P(i, h).query)) {
        forall g | P(j, g).Ask? ensures ResourceOf(P(j, g).query) != ResourceOf(P(i, h).query) {
          assert Apart(P(i, h), P(j, g));
        }
      }
    }
  }
}
