/** A pool of one worker executes every block as in sequence, whatever its transactions read and ask:
    what escapes validation needs a second worker to do harm (`lemma-vm/src/parallel/scheduler`). */
module FluxSolo {
  import opened Flux
  import opened FluxProgress
  import opened FluxVersions

  /** Validation passes everything that was logged. */
  ghost predicate AllPass(cells: seq<Cell>, log: Log, i: nat)
    requires i <= |cells|
  {
    forall k :: 0 <= k < |log| ==> Passes(cells, log[k], i)
  }

  /** The sequential result, with a log that will pass. */
  ghost predicate Exact(P: Block, gas: nat, s: State, i: nat)
    requires Metered(P, gas) && i < |s.cells|
  {
    Final(s.cells[i], Out(P, gas, i)) && AllPass(s.cells, s.cells[i].txn.seen, i)
  }

  /** On the way to the sequential result. */
  ghost predicate Underway(P: Block, gas: nat, s: State, i: nat)
    requires Metered(P, gas) && i < |s.cells|
  {
    && AllPass(s.cells, Gathered(s.cells[i].work), i)
    && match s.cells[i].work
       case NoWork => false
       case Executing(_, h, _) => SeqRun(P, gas, i, h, Mem(P, gas, i), s.shared) == Out(P, gas, i)
       case Publishing(_, writes, _, _, result) =>
         && Outcome(writes, result, s.shared) == Out(P, gas, i)
         && forall k :: k in s.cells[i].slot ==> k in writes && s.cells[i].slot[k].value == writes[k]
  }

  predicate Calm(phase: Phase) { phase.Unclaimed? || phase.Checking? || phase.Ready? }

  ghost predicate CellSolo(P: Block, gas: nat, s: State, i: nat)
    requires Metered(P, gas) && i < |s.cells|
  {
    if i + 1 == s.next && !s.cells[i].work.NoWork? then s.phase.Unclaimed? && s.commit == 0 && Underway(P, gas, s, i)
    else i < s.next ==> Exact(P, gas, s, i)
  }

  ghost predicate Solo(P: Block, gas: nat, s: State)
    requires Metered(P, gas)
  {
    && Versions(s) && Busy(s) <= 1 && Calm(s.phase)
    && (s.next < |s.cells| ==> s.commit == 0 && s.phase.Unclaimed?)
    && (forall i :: 0 <= i < |s.cells| ==> CellSolo(P, gas, s, i))
    && (Active(s.cells) == 0 ==> s.shared == Before(P, gas, s.next).shared)
  }

  // ---- what does not change ------------------------------------------------------------------

  lemma {:induction false} ResolveBelow(cells: seq<Cell>, more: seq<Cell>, key: Key, idx: nat)
    requires idx <= |cells| && idx <= |more| && forall j :: 0 <= j < idx ==> more[j].slot == cells[j].slot
    ensures Resolve(more, key, idx) == Resolve(cells, key, idx)
  {
    if idx > 0 && key !in cells[idx - 1].slot { ResolveBelow(cells, more, key, idx - 1); }
  }

  lemma PassesBelow(cells: seq<Cell>, more: seq<Cell>, log: Log, i: nat)
    requires i <= |cells| == |more| && (forall j :: 0 <= j < i ==> more[j].slot == cells[j].slot)
    requires AllPass(cells, log, i)
    ensures AllPass(more, log, i)
  {
    forall k | 0 <= k < |log| ensures Passes(more, log[k], i) {
      assert Passes(cells, log[k], i);
      if log[k].ReadOf? { ResolveBelow(cells, more, log[k].key, i); }
    }
  }

  /** A step on the last dispatched cell leaves the ones below as they were. */
  lemma BelowStays(P: Block, gas: nat, s: State, t: State, i: nat)
    requires Metered(P, gas) && |t.cells| == |s.cells| && i < |s.cells| && CellSolo(P, gas, s, i)
    requires t.next == s.next || t.next == s.next + 1
    requires forall j :: 0 <= j <= i ==> t.cells[j] == s.cells[j]
    requires i < s.next && s.cells[i].work.NoWork?
    ensures CellSolo(P, gas, t, i)
  {
    PassesBelow(s.cells, t.cells, s.cells[i].txn.seen, i);
  }

  lemma {:induction false} NobodyWorks(cells: seq<Cell>, i: nat)
    requires Active(cells) == 0 && i < |cells|
    ensures cells[i].work.NoWork?
  {
    if i > 0 { NobodyWorks(cells[1..], i - 1); }
  }

  lemma {:induction false} SomebodyWorks(cells: seq<Cell>, i: nat)
    requires i < |cells| && !cells[i].work.NoWork?
    ensures Active(cells) > 0
  {
    if i > 0 { SomebodyWorks(cells[1..], i - 1); }
  }

  // ---- the steps -------------------------------------------------------------------------------

  lemma DispatchSolo(P: Block, gas: nat, s: State)
    requires Metered(P, gas) && Solo(P, gas, s) && Enabled(1, s, Dispatch)
    ensures Solo(P, gas, After(P, s, Dispatch))
  {
    var t := After(P, s, Dispatch);
    StepKeepsVersions(P, s, Dispatch);
    StepBusy(P, s, Dispatch);
    SomebodyWorks(t.cells, s.next);
    forall i | 0 <= i < |t.cells| ensures CellSolo(P, gas, t, i) {
      NobodyWorks(s.cells, i);
      if i < s.next { BelowStays(P, gas, s, t, i); }
    }
  }

  /** A worker's step on the cell it works on. */
  lemma WorkSolo(P: Block, gas: nat, s: State, t: State, i: nat)
    requires Metered(P, gas) && Solo(P, gas, s) && i < |s.cells| && !s.cells[i].work.NoWork?
    requires Versions(t) && Busy(t) <= 1 && t.next == s.next && t.commit == s.commit && t.phase == s.phase
    requires |t.cells| == |s.cells| && forall j :: 0 <= j < |s.cells| && j != i ==> t.cells[j] == s.cells[j]
    requires CellSolo(P, gas, t, i)
    requires t.cells[i].work.NoWork? ==> t.shared == Out(P, gas, i).shared
    ensures Solo(P, gas, t)
  {
    assert CellShape(s, i) && CellSolo(P, gas, s, i);
    assert i + 1 == s.next;
    forall j | 0 <= j < |t.cells| ensures CellSolo(P, gas, t, j) {
      assert CellSolo(P, gas, s, j);
      if j < i { BelowStays(P, gas, s, t, j); }
    }
    if !t.cells[i].work.NoWork? { SomebodyWorks(t.cells, i); }
  }

  lemma PrefixFinal(P: Block, gas: nat, s: State, i: nat)
    requires Metered(P, gas) && Solo(P, gas, s) && i < |s.cells| && !s.cells[i].work.NoWork?
    ensures i + 1 == s.next && s.commit == 0 && s.phase.Unclaimed? && Underway(P, gas, s, i)
    ensures forall j :: 0 <= j < i ==> Final(s.cells[j], Out(P, gas, j))
  {
    assert CellShape(s, i) && CellSolo(P, gas, s, i);
    forall j | 0 <= j < i ensures Final(s.cells[j], Out(P, gas, j)) { assert CellSolo(P, gas, s, j); }
  }

  lemma AdvanceSolo(P: Block, gas: nat, s: State, i: nat)
    requires Metered(P, gas) && Solo(P, gas, s) && Possible(s, Advance(i))
    ensures Solo(P, gas, After(P, s, Advance(i)))
  {
    var t := After(P, s, Advance(i));
    StepKeepsVersions(P, s, Advance(i));
    StepBusy(P, s, Advance(i));
    PrefixFinal(P, gas, s, i);
    AdvancedUnderway(P, gas, s, i);
    WorkSolo(P, gas, s, t, i);
  }

  lemma AdvancedUnderway(P: Block, gas: nat, s: State, i: nat)
    requires Metered(P, gas) && Versions(s) && Possible(s, Advance(i)) && Underway(P, gas, s, i)
    requires forall j :: 0 <= j < i ==> Final(s.cells[j], Out(P, gas, j))
    ensures Underway(P, gas, After(P, s, Advance(i)), i)
  {
    var t, w := After(P, s, Advance(i)), s.cells[i].work;
    assert VersionOk(s, i);
    PassesBelow(s.cells, t.cells, w.captured, i);
    if P(i, w.history).Read? {
      ResolvePrefix(P, gas, s.cells, P(i, w.history).key, i);
      ResolveBelow(s.cells, t.cells, P(i, w.history).key, i);
    }
  }

  lemma PublishSolo(P: Block, gas: nat, s: State, i: nat, key: Key)
    requires Metered(P, gas) && Solo(P, gas, s) && Possible(s, Publish(i, key))
    ensures Solo(P, gas, After(P, s, Publish(i, key)))
  {
    var t := After(P, s, Publish(i, key));
    StepKeepsVersions(P, s, Publish(i, key));
    StepBusy(P, s, Publish(i, key));
    PrefixFinal(P, gas, s, i);
    PassesBelow(s.cells, t.cells, s.cells[i].work.got, i);
    WorkSolo(P, gas, s, t, i);
  }

  lemma RecordSolo(P: Block, gas: nat, s: State, i: nat)
    requires Metered(P, gas) && Solo(P, gas, s) && Possible(s, Record(i))
    ensures Solo(P, gas, After(P, s, Record(i)))
  {
    var t := After(P, s, Record(i));
    StepKeepsVersions(P, s, Record(i));
    StepBusy(P, s, Record(i));
    PrefixFinal(P, gas, s, i);
    assert VersionOk(s, i);
    PassesBelow(s.cells, t.cells, s.cells[i].work.got, i);
    assert Exact(P, gas, t, i);
    WorkSolo(P, gas, s, t, i);
  }

  /** The committer's steps: everything passes. */
  lemma CommitterSolo(P: Block, gas: nat, s: State, st: Step)
    requires Metered(P, gas) && Solo(P, gas, s) && Enabled(1, s, st) && (st.Claim? || st.Check? || st.Commit?)
    ensures Solo(P, gas, After(P, s, st))
  {
    var t := After(P, s, st);
    StepKeepsVersions(P, s, st);
    StepBusy(P, s, st);
    assert CellShape(s, s.commit) && CellSolo(P, gas, s, s.commit);
    if st.Check? && s.phase.checked < |s.cells[s.commit].txn.seen| {
      assert Passes(s.cells, s.cells[s.commit].txn.seen[s.phase.checked], s.commit);
    }
    assert t.cells == s.cells && t.next == s.next && t.shared == s.shared;
    forall i | 0 <= i < |t.cells| ensures CellSolo(P, gas, t, i) {
      assert CellSolo(P, gas, s, i);
      NobodyWorks(s.cells, i);
    }
  }

  lemma StepSolo(P: Block, gas: nat, s: State, st: Step)
    requires Metered(P, gas) && Solo(P, gas, s) && Enabled(1, s, st)
    ensures Solo(P, gas, After(P, s, st))
  {
    match st
    case Dispatch => DispatchSolo(P, gas, s);
    case Advance(i) => AdvanceSolo(P, gas, s, i);
    case Publish(i, key) => PublishSolo(P, gas, s, i, key);
    case Record(i) => RecordSolo(P, gas, s, i);
    case _ => CommitterSolo(P, gas, s, st);
  }

  lemma {:induction false} RunSolo(P: Block, gas: nat, n: nat, states: seq<State>, steps: seq<Step>, k: nat)
    requires Metered(P, gas) && IsRun(P, 1, n, states, steps) && k < |states|
    ensures Solo(P, gas, states[k]) && |states[k].cells| == n
  {
    RunKeepsVersions(P, 1, n, states, steps, k);
    if k > 0 {
      RunSolo(P, gas, n, states, steps, k - 1);
      StepSolo(P, gas, states[k - 1], steps[k - 1]);
    } else {
      NobodyActive(states[0].cells);
      forall i | 0 <= i < n ensures CellSolo(P, gas, states[0], i) {}
    }
  }

  /** With one worker every completed run of every metered block is sequential, captured or not. */
  lemma OneWorkerIsSequential(P: Block, gas: nat, n: nat, states: seq<State>, steps: seq<Step>)
    requires Metered(P, gas) && IsRun(P, 1, n, states, steps) && states[|steps|].commit >= n
    ensures |states[|steps|].cells| == n && Sequential(P, gas, states[|steps|].cells)
  {
    RunSolo(P, gas, n, states, steps, |steps|);
    var s := states[|steps|];
    forall i | 0 <= i < n ensures Final(s.cells[i], Out(P, gas, i)) {
      assert CellSolo(P, gas, s, i) && CellShape(s, i);
    }
    SnapshotIsSequential(P, gas, s.cells);
  }
}
