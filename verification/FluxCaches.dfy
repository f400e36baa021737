/** What the executor's shared caches answer, over every run and over sequential execution
    (`lemma-vm/src/executor/call.rs` and `deploy.rs`), and what sequential execution computes, in terms
    of the transactions' own answers. */
module FluxCaches {
  import opened Primitives
  import opened Flux

  /** A query and what it was told. */
  datatype Exchange = Exchange(query: Query, reply: nat)

  predicate About(q: Query, addr: Address) { !q.Touch? && q.addr == addr }

  ghost predicate Touched(log: seq<Exchange>, code: Hash) {
    exists j :: 0 <= j < |log| && log[j].query == Touch(code)
  }

  ghost predicate Known(log: seq<Exchange>, addr: Address) { exists j :: 0 <= j < |log| && About(log[j].query, addr) }

  /** Query `j` left the manifest of `addr`: it is the latest note, or the first recall when there is
      no note. */
  ghost predicate LeftBy(log: seq<Exchange>, addr: Address, j: nat) {
    && j < |log| && About(log[j].query, addr)
    && (if log[j].query.Note? then forall l :: j < l < |log| && About(log[l].query, addr) ==> log[l].query.Recall?
        else && (forall l :: 0 <= l < |log| && About(log[l].query, addr) ==> log[l].query.Recall?)
             && (forall l :: 0 <= l < j ==> !About(log[l].query, addr)))
  }

  /** Of the touches of a code exactly the first is told 1 and pays; a recall is told the manifest of
      the latest note of the address, else of the first recall, else its own; a note is told nothing. */
  ghost predicate Answered(log: seq<Exchange>, k: nat)
    requires k < |log|
  {
    match log[k].query
    case Touch(code) => log[k].reply == if Touched(log[..k], code) then 0 else 1
    case Recall(addr, parsed) =>
      if Known(log[..k], addr) then exists j: nat :: LeftBy(log[..k], addr, j) && log[k].reply == log[j].query.parsed
      else log[k].reply == parsed
    case Note(_, _) => log[k].reply == 0
  }

  ghost predicate InOrder(log: seq<Exchange>) { forall k :: 0 <= k < |log| ==> Answered(log, k) }

  // ---- the caches hold what the log says -----------------------------------------------

  ghost predicate Reflects(sh: Shared, log: seq<Exchange>) {
    && (forall code :: WarmCode(code) in sh <==> Touched(log, code))
    && (forall addr :: ManifestOf(addr) in sh <==> Known(log, addr))
    && (forall addr :: ManifestOf(addr) in sh ==>
          exists j: nat :: LeftBy(log, addr, j) && sh[ManifestOf(addr)] == log[j].query.parsed)
  }

  /** The answers so far are in order and the caches hold what they left. */
  ghost predicate InStep(sh: Shared, log: seq<Exchange>) { InOrder(log) && Reflects(sh, log) }

  lemma StillInOrder(log: seq<Exchange>, e: Exchange)
    requires InOrder(log) && Answered(log + [e], |log|)
    ensures InOrder(log + [e])
  {
    forall k | 0 <= k < |log| ensures Answered(log + [e], k) {
      assert Answered(log, k) && (log + [e])[..k] == log[..k] && (log + [e])[k] == log[k];
      if log[k].query.Recall? && Known(log[..k], log[k].query.addr) {
        var j: nat :| LeftBy(log[..k], log[k].query.addr, j) && log[k].reply == log[j].query.parsed;
        assert (log + [e])[j] == log[j];
      }
    }
  }

  /** A query of another resource changes nothing about this one. */
  lemma OthersStay(log: seq<Exchange>, e: Exchange, addr: Address, j: nat)
    requires LeftBy(log, addr, j) && !(About(e.query, addr) && e.query.Note?)
    ensures LeftBy(log + [e], addr, j) && (log + [e])[j] == log[j]
  {
    var more := log + [e];
    assert forall l :: 0 <= l < |log| ==> more[l] == log[l];
  }

  lemma TouchedMore(log: seq<Exchange>, e: Exchange, code: Hash)
    ensures Touched(log + [e], code) <==> Touched(log, code) || e.query == Touch(code)
  {
    var more := log + [e];
    assert more[|log|] == e && forall l :: 0 <= l < |log| ==> more[l] == log[l];
  }

  lemma KnownMore(log: seq<Exchange>, e: Exchange, addr: Address)
    ensures Known(log + [e], addr) <==> Known(log, addr) || About(e.query, addr)
  {
    var more := log + [e];
    assert more[|log|] == e && forall l :: 0 <= l < |log| ==> more[l] == log[l];
  }

  lemma ReplyInOrder(sh: Shared, log: seq<Exchange>, q: Query)
    requires Reflects(sh, log)
    ensures Answered(log + [Exchange(q, Reply(Held(sh, ResourceOf(q)), q))], |log|)
  {
    var more := log + [Exchange(q, Reply(Held(sh, ResourceOf(q)), q))];
    assert more[..|log|] == log && more[|log|].query == q;
    if q.Recall? && Known(log, q.addr) {
      var j: nat :| LeftBy(log, q.addr, j) && sh[ManifestOf(q.addr)] == log[j].query.parsed;
      assert more[j] == log[j];
    }
  }

  lemma ManifestStays(sh: Shared, log: seq<Exchange>, q: Query, reply: nat, addr: Address) returns (j: nat)
    requires Reflects(sh, log) && (ManifestOf(addr) in sh || About(q, addr))
    ensures var more := log + [Exchange(q, reply)];
            LeftBy(more, addr, j) && Served(sh, q)[ManifestOf(addr)] == more[j].query.parsed
  {
    var e := Exchange(q, reply);
    var more := log + [e];
    assert more[|log|] == e;
    if About(q, addr) && (q.Note? || ManifestOf(addr) !in sh) {
      j := |log|;
      assert !q.Note? ==> !Known(log, addr);
      assert forall l :: 0 <= l < |log| ==> more[l] == log[l];
    } else {
      j :| LeftBy(log, addr, j) && sh[ManifestOf(addr)] == log[j].query.parsed;
      OthersStay(log, e, addr, j);
    }
  }

  /** Serving one query keeps the caches in step with the log and answers it in order. */
  lemma ServedInOrder(sh: Shared, log: seq<Exchange>, q: Query)
    requires InStep(sh, log)
    ensures InStep(Served(sh, q), log + [Exchange(q, Reply(Held(sh, ResourceOf(q)), q))])
  {
    var e := Exchange(q, Reply(Held(sh, ResourceOf(q)), q));
    ReplyInOrder(sh, log, q);
    StillInOrder(log, e);
    var after, more := Served(sh, q), log + [e];
    forall code ensures WarmCode(code) in after <==> Touched(more, code) { TouchedMore(log, e, code); }
    forall addr ensures ManifestOf(addr) in after <==> Known(more, addr) { KnownMore(log, e, addr); }
    forall addr | ManifestOf(addr) in after
      ensures exists j: nat :: LeftBy(more, addr, j) && after[ManifestOf(addr)] == more[j].query.parsed
    {
      var j := ManifestStays(sh, log, q, e.reply, addr);
    }
  }

  // ---- every run -----------------------------------------------------------------------

  /** The query that a step serves, with the answer that the program finds in its history. */
  ghost function Asked(P: Block, s: State, st: Step, t: State): seq<Exchange> {
    if !st.Advance? || st.i >= |s.cells| || st.i >= |t.cells| then [] else
      var w, v := s.cells[st.i].work, t.cells[st.i].work;
      if !w.Executing? || !v.Executing? || !P(st.i, w.history).Ask? || |v.history| <= |w.history| then []
      else if v.history[|w.history|].Got? then []
      else [Exchange(P(st.i, w.history).query, v.history[|w.history|].reply)]
  }

  /** All queries of a run, in the order in which they are served. */
  ghost function ExchangesOf(P: Block, states: seq<State>, steps: seq<Step>): seq<Exchange>
    requires |states| == |steps| + 1
  {
    if steps == [] then [] else
      var n := |steps| - 1;
      ExchangesOf(P, states[..n + 1], steps[..n]) + Asked(P, states[n], steps[n], states[n + 1])
  }

  /** No query goes without an answer. */
  lemma AskIsAnswered(P: Block, s: State, i: nat)
    requires Possible(s, Advance(i)) && P(i, s.cells[i].work.history).Ask?
    ensures var (t, h) := (After(P, s, Advance(i)), s.cells[i].work.history);
            && |Asked(P, s, Advance(i), t)| == 1 && Asked(P, s, Advance(i), t)[0].query == P(i, h).query
            && t.cells[i].work.Executing?
            && t.cells[i].work.history == h + [Told(Asked(P, s, Advance(i), t)[0].reply)]
  {
  }

  lemma StepInOrder(P: Block, s: State, st: Step, log: seq<Exchange>)
    requires Possible(s, st) && InStep(s.shared, log)
    ensures var t := After(P, s, st); InStep(t.shared, log + Asked(P, s, st, t))
  {
    var t := After(P, s, st);
    if st.Advance? && P(st.i, s.cells[st.i].work.history).Ask? {
      var q := P(st.i, s.cells[st.i].work.history).query;
      AskIsAnswered(P, s, st.i);
      ServedInOrder(s.shared, log, q);
      assert Asked(P, s, st, t) == [Exchange(q, Reply(Held(s.shared, ResourceOf(q)), q))];
    } else {
      assert Asked(P, s, st, t) == [] && t.shared == s.shared;
      assert log + [] == log;
    }
  }

  /** Whatever the interleaving, the caches answer in the order in which they are asked. */
  lemma {:induction false} RunAnswersInOrder(P: Block, workers: nat, n: nat, states: seq<State>, steps: seq<Step>)
    requires IsRun(P, workers, n, states, steps)
    ensures InStep(states[|steps|].shared, ExchangesOf(P, states, steps))
  {
    if steps != [] {
      var m := |steps| - 1;
      var before, front := states[..m + 1], steps[..m];
      assert forall k :: 0 <= k < |front| ==> front[k] == steps[k] && before[k] == states[k];
      RunAnswersInOrder(P, workers, n, before, front);
      assert Enabled(workers, states[m], steps[m]);
      StepInOrder(P, states[m], steps[m], ExchangesOf(P, before, front));
    }
  }

  // ---- sequential execution --------------------------------------------------------------

  /** The queries of one transaction on its answers. */
  ghost function AsksIn(P: Block, i: nat, h: History): seq<Exchange> {
    if h == [] then [] else
      var front, last := h[..|h| - 1], h[|h| - 1];
      AsksIn(P, i, front)
      + (if P(i, front).Ask? && last.Told? then [Exchange(P(i, front).query, last.reply)] else [])
  }

  ghost function AllAsks(P: Block, hs: seq<History>): seq<Exchange> {
    if hs == [] then [] else AllAsks(P, hs[..|hs| - 1]) + AsksIn(P, |hs| - 1, hs[|hs| - 1])
  }

  /** Transaction `i` wrote `key`, on its answers. */
  ghost predicate Wrote(P: Block, hs: seq<History>, i: nat, key: Key)
    requires i < |hs|
  {
    P(i, hs[i]).Finish? && key in P(i, hs[i]).writes
  }

  /** `v` is the last value that the first `n` transactions wrote to `key`, if any. */
  ghost predicate LastWrite(P: Block, hs: seq<History>, n: nat, key: Key, v: Option<Value>)
    requires n <= |hs|
  {
    if v.None? then forall j :: 0 <= j < n ==> !Wrote(P, hs, j, key)
    else exists j :: && 0 <= j < n && Wrote(P, hs, j, key) && P(j, hs[j]).writes[key] == v.value
                     && forall l :: j < l < n ==> !Wrote(P, hs, l, key)
  }

  /** The transaction goes on after each answer but the last; a read gets `value` of its key. */
  ghost predicate Followed(P: Block, i: nat, h: History, mem: map<Key, Value>) {
    forall k :: 0 <= k < |h| ==>
      var a := P(i, h[..k]);
      !a.Finish? && (a.Read? ==> h[k] == Got(Lookup(mem, a.key))) && (a.Ask? ==> h[k].Told?)
  }

  /** Every read gets the last write of the transactions before, or the base state. */
  ghost predicate ReadsSerial(P: Block, hs: seq<History>, i: nat)
    requires i < |hs|
  {
    forall k :: 0 <= k < |hs[i]| ==>
      var a := P(i, hs[i][..k]);
      && !a.Finish? && (a.Ask? ==> hs[i][k].Told?)
      && (a.Read? ==> hs[i][k].Got? && LastWrite(P, hs, i, a.key, hs[i][k].value))
  }

  /** One transaction after the other: each runs to its end on the last writes before it, and the
      caches answer in order. */
  ghost predicate Serial(P: Block, hs: seq<History>) {
    && (forall i :: 0 <= i < |hs| ==> P(i, hs[i]).Finish? && ReadsSerial(P, hs, i))
    && InOrder(AllAsks(P, hs))
  }

  lemma FollowedMore(P: Block, i: nat, h: History, mem: map<Key, Value>, answer: Answer)
    requires Followed(P, i, h, mem)
    requires var a := P(i, h);
             !a.Finish? && (a.Read? ==> answer == Got(Lookup(mem, a.key))) && (a.Ask? ==> answer.Told?)
    ensures Followed(P, i, h + [answer], mem)
  {
    var more := h + [answer];
    assert more[..|h|] == h;
    assert forall k :: 0 <= k < |h| ==> more[..k] == h[..k] && more[k] == h[k];
  }

  lemma AsksMore(P: Block, i: nat, h: History, answer: Answer)
    ensures AsksIn(P, i, h + [answer])
            == AsksIn(P, i, h) + (if P(i, h).Ask? && answer.Told? then [Exchange(P(i, h).query, answer.reply)] else [])
  {
    assert (h + [answer])[..|h|] == h;
  }

  /** The answer that the reference gives to one action, and the caches after it. */
  ghost function AnswerTo(a: Action, mem: map<Key, Value>, sh: Shared): (Answer, Shared)
    requires !a.Finish?
  {
    match a
    case Read(k, _) => (Got(Lookup(mem, k)), sh)
    case Ask(q) => (Told(Reply(Held(sh, ResourceOf(q)), q)), Served(sh, q))
  }

  lemma AnswerInStep(P: Block, i: nat, h: History, mem: map<Key, Value>, sh: Shared, log: seq<Exchange>)
    requires !P(i, h).Finish? && InStep(sh, log + AsksIn(P, i, h))
    ensures var (answer, after) := AnswerTo(P(i, h), mem, sh); InStep(after, log + AsksIn(P, i, h + [answer]))
  {
    var (answer, after) := AnswerTo(P(i, h), mem, sh);
    AsksMore(P, i, h, answer);
    match P(i, h)
    case Read(_, _) => assert AsksIn(P, i, h + [answer]) == AsksIn(P, i, h);
    case Ask(q) =>
      ServedInOrder(sh, log + AsksIn(P, i, h), q);
      assert log + AsksIn(P, i, h) + [Exchange(q, answer.reply)] == log + AsksIn(P, i, h + [answer]);
  }

  /** The answers that the reference gives to one transaction. */
  lemma {:induction false} SerialRun(P: Block, gas: nat, i: nat, h: History, mem: map<Key, Value>, sh: Shared,
                                     log: seq<Exchange>) returns (full: History)
    requires Metered(P, gas) && Followed(P, i, h, mem)
    requires InStep(sh, log + AsksIn(P, i, h))
    ensures P(i, full).Finish? && Followed(P, i, full, mem)
    ensures var out := SeqRun(P, gas, i, h, mem, sh);
            && out.writes == P(i, full).writes && out.receipt == P(i, full).receipt
            && InStep(out.shared, log + AsksIn(P, i, full))
    decreases gas - |h|
  {
    if P(i, h).Finish? {
      full := h;
    } else {
      var (answer, after) := AnswerTo(P(i, h), mem, sh);
      FollowedMore(P, i, h, mem, answer);
      AnswerInStep(P, i, h, mem, sh, log);
      full := SerialRun(P, gas, i, h + [answer], mem, after, log);
    }
  }

  lemma LastWriteNext(P: Block, hs: seq<History>, n: nat, key: Key, v: Option<Value>)
    requires n < |hs| && LastWrite(P, hs, n, key, v) && P(n, hs[n]).Finish?
    ensures var w := P(n, hs[n]).writes; LastWrite(P, hs, n + 1, key, if key in w then Some(w[key]) else v)
  {
    if !Wrote(P, hs, n, key) && v.Some? {
      var j :| && 0 <= j < n && Wrote(P, hs, j, key) && P(j, hs[j]).writes[key] == v.value
               && forall l :: j < l < n ==> !Wrote(P, hs, l, key);
      assert forall l :: j < l < n + 1 ==> !Wrote(P, hs, l, key);
    }
  }

  lemma LastWriteWithin(P: Block, hs: seq<History>, h: History, n: nat, key: Key, v: Option<Value>)
    requires n <= |hs| && LastWrite(P, hs, n, key, v)
    ensures LastWrite(P, hs + [h], n, key, v)
  {
    var more := hs + [h];
    assert forall j :: 0 <= j < n ==> more[j] == hs[j] && Wrote(P, more, j, key) == Wrote(P, hs, j, key);
  }

  lemma ReadsStay(P: Block, hs: seq<History>, h: History, i: nat)
    requires i < |hs| && ReadsSerial(P, hs, i)
    ensures ReadsSerial(P, hs + [h], i)
  {
    var more := hs + [h];
    assert more[i] == hs[i];
    forall k | 0 <= k < |hs[i]| && P(i, hs[i][..k]).Read?
      ensures LastWrite(P, more, i, P(i, hs[i][..k]).key, hs[i][k].value)
    {
      LastWriteWithin(P, hs, h, i, P(i, hs[i][..k]).key, hs[i][k].value);
    }
  }

  /** The memory after `n` transactions is their last writes. */
  ghost predicate MemIs(P: Block, hs: seq<History>, n: nat, mem: map<Key, Value>)
    requires n <= |hs|
  {
    forall key :: LastWrite(P, hs, n, key, Lookup(mem, key))
  }

  lemma MemNext(P: Block, hs: seq<History>, h: History, mem: map<Key, Value>)
    requires MemIs(P, hs, |hs|, mem) && P(|hs|, h).Finish?
    ensures MemIs(P, hs + [h], |hs|, mem)
    ensures MemIs(P, hs + [h], |hs| + 1, mem + P(|hs|, h).writes)
  {
    var more := hs + [h];
    assert more[|hs|] == h;
    forall key ensures LastWrite(P, more, |hs|, key, Lookup(mem, key))
      ensures LastWrite(P, more, |hs| + 1, key, Lookup(mem + P(|hs|, h).writes, key))
    {
      LastWriteWithin(P, hs, h, |hs|, key, Lookup(mem, key));
      LastWriteNext(P, more, |hs|, key, Lookup(mem, key));
    }
  }

  lemma FollowedIsSerial(P: Block, hs: seq<History>, i: nat, mem: map<Key, Value>)
    requires i < |hs| && Followed(P, i, hs[i], mem) && MemIs(P, hs, i, mem)
    ensures ReadsSerial(P, hs, i)
  {
    forall k | 0 <= k < |hs[i]| && P(i, hs[i][..k]).Read?
      ensures hs[i][k].Got? && LastWrite(P, hs, i, P(i, hs[i][..k]).key, hs[i][k].value)
    {
    }
  }

  lemma AllAsksMore(P: Block, hs: seq<History>, h: History)
    ensures AllAsks(P, hs + [h]) == AllAsks(P, hs) + AsksIn(P, |hs|, h)
  {
    assert (hs + [h])[..|hs|] == hs;
  }

  /** The receipts and writes of the reference are those of the runs on these answers. */
  ghost predicate Gives(P: Block, gas: nat, hs: seq<History>)
    requires Metered(P, gas)
  {
    && (forall i :: 0 <= i < |hs| ==> P(i, hs[i]).Finish? && Out(P, gas, i).receipt == P(i, hs[i]).receipt
                                      && Out(P, gas, i).writes == P(i, hs[i]).writes)
    && MemIs(P, hs, |hs|, Mem(P, gas, |hs|))
  }

  lemma ReadsNext(P: Block, hs: seq<History>, h: History, mem: map<Key, Value>)
    requires (forall i :: 0 <= i < |hs| ==> ReadsSerial(P, hs, i)) && MemIs(P, hs, |hs|, mem)
    requires P(|hs|, h).Finish? && Followed(P, |hs|, h, mem)
    ensures forall i :: 0 <= i <= |hs| ==> ReadsSerial(P, hs + [h], i)
  {
    MemNext(P, hs, h, mem);
    assert (hs + [h])[|hs|] == h;
    FollowedIsSerial(P, hs + [h], |hs|, mem);
    forall i | 0 <= i < |hs| ensures ReadsSerial(P, hs + [h], i) { ReadsStay(P, hs, h, i); }
  }

  lemma GivesNext(P: Block, gas: nat, hs: seq<History>, h: History)
    requires Metered(P, gas) && Gives(P, gas, hs) && P(|hs|, h).Finish?
    requires Out(P, gas, |hs|).receipt == P(|hs|, h).receipt && Out(P, gas, |hs|).writes == P(|hs|, h).writes
    ensures Gives(P, gas, hs + [h])
  {
    MemNext(P, hs, h, Mem(P, gas, |hs|));
    assert forall i :: 0 <= i < |hs| ==> (hs + [h])[i] == hs[i];
  }

  /** The reference is serial execution: there are answers on which every transaction runs as it would
      alone after the ones before it, and the receipts and writes are those of these runs. */
  lemma {:induction false} ReferenceIsSerial(P: Block, gas: nat, n: nat) returns (hs: seq<History>)
    requires Metered(P, gas)
    ensures |hs| == n && Serial(P, hs) && Gives(P, gas, hs)
    ensures InStep(Before(P, gas, n).shared, AllAsks(P, hs))
  {
    if n == 0 {
      hs := [];
    } else {
      var front := ReferenceIsSerial(P, gas, n - 1);
      var p, log := Before(P, gas, n - 1), AllAsks(P, front);
      assert log + AsksIn(P, n - 1, []) == log;
      var full := SerialRun(P, gas, n - 1, [], p.mem, p.shared, log);
      hs := front + [full];
      AllAsksMore(P, front, full);
      ReadsNext(P, front, full, p.mem);
      GivesNext(P, gas, front, full);
    }
  }
}
