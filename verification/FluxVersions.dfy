/** The versions in the multi-version store and the incarnations of the transactions, for every block:
    `lemma-vm/src/parallel/mvstate.rs` and `scheduler/state.rs`. */
module FluxVersions {
  import opened Flux
  import opened FluxProgress

  /** An incarnation is made by a rejection, and there is at most one per transaction. */
  predicate IncarnationOk(s: State, i: nat)
    requires i < |s.cells|
  {
    var inc := s.cells[i].txn.incarnation;
    if i < s.commit then inc <= 1
    else if i > s.commit then inc == 0
    else
      match s.phase
      case Unclaimed => inc == 0
      case Checking(_) => inc == 0
      case Ready => inc <= 1
      case _ => inc == 1
  }

  /** Live entries of the given incarnation. */
  predicate Live(slot: map<Key, Entry>, incarnation: nat) {
    forall k :: k in slot ==> slot[k].incarnation == incarnation && !slot[k].estimate
  }

  predicate SlotOk(s: State, i: nat)
    requires i < |s.cells|
  {
    var c, inc := s.cells[i], s.cells[i].txn.incarnation;
    match c.work
    case Executing(v, _, _) => v == inc && c.slot == map[]
    case Publishing(v, writes, left, _, _) =>
      v == inc && left <= writes.Keys && c.slot.Keys == writes.Keys - left && Live(c.slot, inc)
    case NoWork =>
      if c.txn.executed then c.slot.Keys == c.txn.writeKeys && Live(c.slot, inc)
      else if i == s.commit && s.phase.Marking? then
        c.slot.Keys <= s.phase.keys && forall k :: k in c.slot ==> k in s.phase.unmarked || c.slot[k].estimate
      else if i == s.commit && s.phase.Removing? then
        c.slot.Keys <= s.phase.left && forall k :: k in c.slot ==> c.slot[k].estimate
      else c.slot == map[]
  }

  predicate VersionOk(s: State, i: nat)
    requires i < |s.cells|
  {
    IncarnationOk(s, i) && SlotOk(s, i)
  }

  ghost predicate Versions(s: State) { Shape(s) && forall i :: 0 <= i < |s.cells| ==> VersionOk(s, i) }

  lemma VersionsOfOthers(s: State, t: State, i: nat)
    requires Versions(s) && Shape(t) && i < |s.cells| && |t.cells| == |s.cells| && t.commit == s.commit
    requires forall j :: 0 <= j < |s.cells| && j != i ==> t.cells[j] == s.cells[j]
    requires t.phase == s.phase || i == s.commit
    requires VersionOk(t, i)
    ensures Versions(t)
  {
    forall j | 0 <= j < |t.cells| ensures VersionOk(t, j) {
      if j != i { assert VersionOk(s, j); }
    }
  }

  lemma WorkKeepsVersions(P: Block, s: State, st: Step)
    requires Versions(s) && Possible(s, st) && (st.Advance? || st.Publish? || st.Record?)
    ensures Versions(After(P, s, st))
  {
    StepKeepsShape(P, s, st);
    assert VersionOk(s, st.i) && CellShape(s, st.i);
    var t := After(P, s, st);
    assert VersionOk(t, st.i);
    VersionsOfOthers(s, t, st.i);
  }

  lemma CommitterKeepsVersions(P: Block, s: State, st: Step)
    requires Versions(s) && Possible(s, st) && s.commit < |s.cells| && (st.Claim? || st.Check? || IsCleanup(st))
    ensures Versions(After(P, s, st))
  {
    StepKeepsShape(P, s, st);
    assert VersionOk(s, s.commit) && CellShape(s, s.commit);
    var t := After(P, s, st);
    assert VersionOk(t, s.commit);
    VersionsOfOthers(s, t, s.commit);
  }

  lemma CursorKeepsVersions(P: Block, s: State, st: Step)
    requires Versions(s) && Possible(s, st) && (st.Dispatch? || st.Commit?)
    ensures Versions(After(P, s, st))
  {
    StepKeepsShape(P, s, st);
    var t := After(P, s, st);
    forall j | 0 <= j < |t.cells| ensures VersionOk(t, j) {
      assert VersionOk(s, j) && CellShape(s, j) && CellShape(t, j);
    }
  }

  lemma StepKeepsVersions(P: Block, s: State, st: Step)
    requires Versions(s) && Possible(s, st)
    ensures Versions(After(P, s, st))
  {
    if st.Advance? || st.Publish? || st.Record? {
      WorkKeepsVersions(P, s, st);
    } else if st.Dispatch? || st.Commit? {
      CursorKeepsVersions(P, s, st);
    } else {
      CommitterKeepsVersions(P, s, st);
    }
  }

  lemma {:induction false} RunKeepsVersions(P: Block, workers: nat, n: nat, states: seq<State>, steps: seq<Step>,
                                            k: nat)
    requires IsRun(P, workers, n, states, steps) && k < |states|
    ensures Versions(states[k]) && |states[k].cells| == n
  {
    if k > 0 {
      RunKeepsVersions(P, workers, n, states, steps, k - 1);
      StepKeepsVersions(P, states[k - 1], steps[k - 1]);
    } else {
      RunKeepsShape(P, workers, n, states, steps, 0);
      forall i | 0 <= i < n ensures VersionOk(states[0], i) {}
    }
  }

  // ---- what a read can find ----------------------------------------------------------------

  lemma {:induction false} FoundIsThere(cells: seq<Cell>, key: Key, idx: nat)
    requires idx <= |cells| && Resolve(cells, key, idx).Found?
    ensures var r := Resolve(cells, key, idx);
            && r.txn < idx && key in cells[r.txn].slot
            && cells[r.txn].slot[key] == Entry(r.incarnation, r.value, false)
            && forall j :: r.txn < j < idx ==> key !in cells[j].slot
  {
    if key !in cells[idx - 1].slot { FoundIsThere(cells, key, idx - 1); }
  }

  /** An estimate names the highest writer below, whose entry is marked. */
  lemma {:induction false} EstimatedIsThere(cells: seq<Cell>, key: Key, idx: nat)
    requires idx <= |cells| && Resolve(cells, key, idx).Estimated?
    ensures var j := Resolve(cells, key, idx).blocking;
            && j < idx && key in cells[j].slot && cells[j].slot[key].estimate
            && forall l :: j < l < idx ==> key !in cells[l].slot
  {
    if key !in cells[idx - 1].slot { EstimatedIsThere(cells, key, idx - 1); }
  }

  /** While the writes of a rejected run are being removed no read finds any of them, */
  lemma RejectedIsHidden(s: State, key: Key, idx: nat)
    requires Versions(s) && s.phase.Removing? && idx <= |s.cells| && Resolve(s.cells, key, idx).Found?
    ensures Resolve(s.cells, key, idx).txn != s.commit
  {
    FoundIsThere(s.cells, key, idx);
    if s.commit < |s.cells| { assert VersionOk(s, s.commit) && CellShape(s, s.commit); }
  }

  /** and otherwise a read finds the current incarnation of the highest writer below. */
  lemma FoundIsCurrent(s: State, key: Key, idx: nat)
    requires Versions(s) && idx <= |s.cells| && Resolve(s.cells, key, idx).Found?
    requires s.phase.Marking? ==> Resolve(s.cells, key, idx).txn != s.commit
    ensures var r := Resolve(s.cells, key, idx);
            r.txn < idx && r.incarnation == s.cells[r.txn].txn.incarnation <= 1
  {
    FoundIsThere(s.cells, key, idx);
    var j := Resolve(s.cells, key, idx).txn;
    assert VersionOk(s, j) && CellShape(s, j);
  }

  // ---- executions ----------------------------------------------------------------------------

  /** The executions of `i` that were started: its dispatch and its restarts. */
  ghost function Starts(states: seq<State>, steps: seq<Step>, i: nat): nat
    requires |states| == |steps| + 1
  {
    if steps == [] then 0 else
      var n := |steps| - 1;
      Starts(states[..n + 1], steps[..n], i)
      + (if Begins(states[n], steps[n], i) then 1 else 0)
  }

  /** A rejected transaction has been started again. */
  predicate Restarted(s: State, i: nat)
    requires i < |s.cells|
  {
    s.cells[i].txn.incarnation == 1 && !(i == s.commit && (s.phase.Marking? || s.phase.Removing?))
  }

  /** How often `i` has been started, seen from the state. */
  function Begun(s: State, i: nat): nat
    requires i < |s.cells|
  {
    (if i < s.next then 1 else 0) + (if Restarted(s, i) then 1 else 0)
  }

  predicate Begins(s: State, st: Step, i: nat) { (st.Dispatch? && s.next == i) || (st.Restart? && s.commit == i) }

  lemma StartsStep(P: Block, s: State, st: Step, i: nat)
    requires Versions(s) && Possible(s, st) && i < |s.cells|
    ensures |After(P, s, st).cells| == |s.cells|
    ensures Begun(After(P, s, st), i) == Begun(s, i) + (if Begins(s, st, i) then 1 else 0)
  {
    StepKeepsVersions(P, s, st);
    assert VersionOk(s, i) && CellShape(s, i) && VersionOk(After(P, s, st), i);
  }

  lemma RunBefore(P: Block, workers: nat, n: nat, states: seq<State>, steps: seq<Step>)
    requires IsRun(P, workers, n, states, steps) && steps != []
    ensures IsRun(P, workers, n, states[..|steps|], steps[..|steps| - 1])
    ensures Possible(states[|steps| - 1], steps[|steps| - 1])
    ensures states[|steps|] == After(P, states[|steps| - 1], steps[|steps| - 1])
  {
    assert Enabled(workers, states[|steps| - 1], steps[|steps| - 1]);
  }

  lemma {:induction false} StartsCounted(P: Block, workers: nat, n: nat, states: seq<State>, steps: seq<Step>, i: nat)
    requires IsRun(P, workers, n, states, steps) && i < n
    ensures Versions(states[|steps|]) && |states[|steps|].cells| == n
    ensures Starts(states, steps, i) == Begun(states[|steps|], i)
  {
    if steps == [] {
      RunKeepsVersions(P, workers, n, states, steps, 0);
    } else {
      var m := |steps| - 1;
      RunBefore(P, workers, n, states, steps);
      StartsCounted(P, workers, n, states[..m + 1], steps[..m], i);
      StartsStep(P, states[m], steps[m], i);
      StepKeepsVersions(P, states[m], steps[m]);
    }
  }

  /** In every run of every block each transaction is executed at most twice, and a second time exactly
      when it was rejected. */
  lemma ExecutedAtMostTwice(P: Block, workers: nat, n: nat, states: seq<State>, steps: seq<Step>, i: nat)
    requires IsRun(P, workers, n, states, steps) && i < n
    ensures Starts(states, steps, i) <= 2
    ensures states[|steps|].commit >= n ==>
              |states[|steps|].cells| == n
              && Starts(states, steps, i) == 1 + states[|steps|].cells[i].txn.incarnation
  {
    StartsCounted(P, workers, n, states, steps, i);
    assert VersionOk(states[|steps|], i);
  }
}
