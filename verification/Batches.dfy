/** Resolving a committed sub-DAG into transactions: `lemma-node/src/batch.rs`. */
module Batches {
  import opened Primitives
  import opened PoolIndex

  datatype TxBatchRef = TxBatchRef(digest: Hash, author: Address)

  datatype Batch = Batch(author: Address, txs: seq<Tx>)

  /** The payload of every DAG block the node has. */
  type Dag = map<DagBlockRef, seq<TxBatchRef>>

  /** The batches the node has, by digest. */
  type BatchStore = map<Hash, Batch>

  // ---- the specification -------------------------------------------------------------

  /** The batch references of the committed blocks that are present, in commit order. */
  function Payloads(blocks: seq<DagBlockRef>, dag: Dag): seq<TxBatchRef> {
    if blocks == [] then [] else
      var front, last := Payloads(blocks[..|blocks| - 1], dag), blocks[|blocks| - 1];
      if last in dag then front + dag[last] else front
  }

  /** The transactions of the batches that are present. */
  function Available(refs: seq<TxBatchRef>, store: BatchStore): seq<Tx> {
    if refs == [] then [] else
      var front, last := Available(refs[..|refs| - 1], store), refs[|refs| - 1];
      if last.digest in store then front + store[last.digest].txs else front
  }

  /** The references whose batch is not present. */
  function Missing(refs: seq<TxBatchRef>, store: BatchStore): seq<(Hash, Address)> {
    if refs == [] then [] else
      var front, last := Missing(refs[..|refs| - 1], store), refs[|refs| - 1];
      if last.digest in store then front else front + [(last.digest, last.author)]
  }

  function Hashes(txs: seq<Tx>): set<Hash> { set tx | tx in txs :: tx.hash }

  /** Keep a transaction only where its hash occurs first. */
  function FirstOccurrences(txs: seq<Tx>): seq<Tx> {
    if txs == [] then [] else
      var front, last := txs[..|txs| - 1], txs[|txs| - 1];
      if last.hash in Hashes(front) then FirstOccurrences(front) else FirstOccurrences(front) + [last]
  }

  lemma DedupStep(txs: seq<Tx>, tx: Tx)
    ensures Hashes(txs + [tx]) == Hashes(txs) + {tx.hash}
    ensures FirstOccurrences(txs + [tx])
            == if tx.hash in Hashes(txs) then FirstOccurrences(txs) else FirstOccurrences(txs) + [tx]
  {
    assert (txs + [tx])[..|txs|] == txs;
  }

  lemma DedupNext(before: seq<Tx>, txs: seq<Tx>, i: nat)
    requires i < |txs|
    ensures var done, more := before + txs[..i], before + txs[..i + 1];
            && Hashes(more) == Hashes(done) + {txs[i].hash}
            && FirstOccurrences(more)
               == if txs[i].hash in Hashes(done) then FirstOccurrences(done) else FirstOccurrences(done) + [txs[i]]
  {
    assert before + txs[..i + 1] == (before + txs[..i]) + [txs[i]];
    DedupStep(before + txs[..i], txs[i]);
  }

  lemma NextRef(before: seq<TxBatchRef>, payload: seq<TxBatchRef>, i: nat, store: BatchStore)
    requires i < |payload|
    ensures var done, more, ref := before + payload[..i], before + payload[..i + 1], payload[i];
            && Available(more, store)
               == (if ref.digest in store then Available(done, store) + store[ref.digest].txs
                   else Available(done, store))
            && Missing(more, store)
               == (if ref.digest in store then Missing(done, store)
                   else Missing(done, store) + [(ref.digest, ref.author)])
  {
    var more := before + payload[..i + 1];
    assert more[..|more| - 1] == before + payload[..i];
  }

  // ---- the loops ---------------------------------------------------------------------

  /** Append the new transactions of one batch. */
  method TakeBatch(txs: seq<Tx>, seenIn: set<Hash>, outIn: seq<Tx>, ghost before: seq<Tx>)
    returns (seen: set<Hash>, out: seq<Tx>)
    requires seenIn == Hashes(before) && outIn == FirstOccurrences(before)
    ensures seen == Hashes(before + txs) && out == FirstOccurrences(before + txs)
  {
    seen, out := seenIn, outIn;
    assert before + txs[..0] == before;
    for i := 0 to |txs|
      invariant seen == Hashes(before + txs[..i]) && out == FirstOccurrences(before + txs[..i])
    {
      DedupNext(before, txs, i);
      if txs[i].hash !in seen {
        out := out + [txs[i]];
      }
      seen := seen + {txs[i].hash};
    }
    assert txs[..|txs|] == txs;
  }

  /** Resolve the payload of one block on top of what earlier blocks gave. */
  method ResolveBlockPayload(payload: seq<TxBatchRef>, store: BatchStore,
                             seenIn: set<Hash>, outIn: seq<Tx>, missingIn: seq<(Hash, Address)>,
                             ghost before: seq<TxBatchRef>)
    returns (seen: set<Hash>, out: seq<Tx>, missing: seq<(Hash, Address)>)
    requires seenIn == Hashes(Available(before, store)) && outIn == FirstOccurrences(Available(before, store))
    requires missingIn == Missing(before, store)
    ensures seen == Hashes(Available(before + payload, store))
    ensures out == FirstOccurrences(Available(before + payload, store))
    ensures missing == Missing(before + payload, store)
  {
    seen, out, missing := seenIn, outIn, missingIn;
    assert before + payload[..0] == before;
    for i := 0 to |payload|
      invariant seen == Hashes(Available(before + payload[..i], store))
      invariant out == FirstOccurrences(Available(before + payload[..i], store))
      invariant missing == Missing(before + payload[..i], store)
    {
      NextRef(before, payload, i, store);
      if payload[i].digest in store {
        seen, out := TakeBatch(store[payload[i].digest].txs, seen, out, Available(before + payload[..i], store));
      } else {
        missing := missing + [(payload[i].digest, payload[i].author)];
      }
    }
    assert payload[..|payload|] == payload;
  }

  /** The transactions of a commit, each hash once, and the batches that were not at hand. */
  method ResolveCommittedTxs(blocks: seq<DagBlockRef>, dag: Dag, store: BatchStore)
    returns (txs: seq<Tx>, missing: seq<(Hash, Address)>)
    ensures txs == FirstOccurrences(Available(Payloads(blocks, dag), store))
    ensures missing == Missing(Payloads(blocks, dag), store)
  {
    var seen: set<Hash> := {};
    txs, missing := [], [];
    for i := 0 to |blocks|
      invariant seen == Hashes(Available(Payloads(blocks[..i], dag), store))
      invariant txs == FirstOccurrences(Available(Payloads(blocks[..i], dag), store))
      invariant missing == Missing(Payloads(blocks[..i], dag), store)
    {
      assert blocks[..i + 1][..i] == blocks[..i];
      if blocks[i] in dag {
        seen, txs, missing :=
          ResolveBlockPayload(dag[blocks[i]], store, seen, txs, missing, Payloads(blocks[..i], dag));
      }
    }
    assert blocks[..|blocks|] == blocks;
  }

  // ---- what the result is ------------------------------------------------------------

  /** The positions at which a hash occurs first. */
  ghost function FirstPositions(txs: seq<Tx>): seq<nat> {
    if txs == [] then [] else
      var front := txs[..|txs| - 1];
      if txs[|txs| - 1].hash in Hashes(front) then FirstPositions(front) else FirstPositions(front) + [|txs| - 1]
  }

  /** `p` is the first position of its hash. */
  ghost predicate IsFirst(txs: seq<Tx>, p: nat) {
    p < |txs| && forall j :: 0 <= j < p ==> txs[j].hash != txs[p].hash
  }

  ghost predicate Increasing(ps: seq<nat>, bound: nat) {
    (forall k, m :: 0 <= k < m < |ps| ==> ps[k] < ps[m]) && forall k :: 0 <= k < |ps| ==> ps[k] < bound
  }

  lemma {:induction false} PositionsAscend(txs: seq<Tx>)
    ensures Increasing(FirstPositions(txs), |txs|)
  {
    if txs != [] {
      PositionsAscend(txs[..|txs| - 1]);
    }
  }

  lemma {:induction false} PositionsAreFirsts(txs: seq<Tx>, p: nat)
    ensures p in FirstPositions(txs) <==> IsFirst(txs, p)
  {
    if txs != [] {
      var front, n := txs[..|txs| - 1], |txs| - 1;
      PositionsAreFirsts(front, p);
      PositionsAscend(front);
      assert IsFirst(front, p) <==> p < n && IsFirst(txs, p);
      HashSeen(front, txs[n].hash);
    }
  }

  lemma HashSeen(txs: seq<Tx>, h: Hash)
    ensures h in Hashes(txs) <==> exists j :: 0 <= j < |txs| && txs[j].hash == h
  {
    if h in Hashes(txs) {
      var tx :| tx in txs && tx.hash == h;
      var j :| 0 <= j < |txs| && txs[j] == tx;
    }
    forall j | 0 <= j < |txs| && txs[j].hash == h ensures h in Hashes(txs) {
      assert txs[j] in txs;
    }
  }

  /** Deduplication picks, in order, exactly the first position of every hash. */
  lemma DedupPicksFirsts(txs: seq<Tx>)
    ensures var out, ps := FirstOccurrences(txs), FirstPositions(txs);
            && |out| == |ps| && Increasing(ps, |txs|)
            && (forall k :: 0 <= k < |ps| ==> out[k] == txs[ps[k]])
            && (forall p: nat :: p in ps <==> IsFirst(txs, p))
  {
    PositionsAscend(txs);
    DedupAtPositions(txs);
    forall p: nat ensures p in FirstPositions(txs) <==> IsFirst(txs, p) {
      PositionsAreFirsts(txs, p);
    }
  }

  lemma {:induction false} DedupAtPositions(txs: seq<Tx>)
    ensures |FirstOccurrences(txs)| == |FirstPositions(txs)|
    ensures forall k :: 0 <= k < |FirstPositions(txs)| ==>
              FirstPositions(txs)[k] < |txs| && FirstOccurrences(txs)[k] == txs[FirstPositions(txs)[k]]
  {
    if txs != [] {
      DedupAtPositions(txs[..|txs| - 1]);
    }
  }

  /** Every hash of the commit is executed exactly once. */
  lemma {:induction false} EachHashOnce(txs: seq<Tx>)
    ensures Hashes(FirstOccurrences(txs)) == Hashes(txs)
    ensures forall k, m :: 0 <= k < m < |FirstOccurrences(txs)| ==>
        FirstOccurrences(txs)[k].hash != FirstOccurrences(txs)[m].hash
  {
    if txs != [] {
      var front, last := txs[..|txs| - 1], txs[|txs| - 1];
      assert txs == front + [last];
      EachHashOnce(front);
      var out := FirstOccurrences(front);
      assert forall k :: 0 <= k < |out| ==> out[k] in out && out[k].hash in Hashes(out);
      assert Hashes(out + [last]) == Hashes(out) + {last.hash};
    }
  }

  /** Two nodes see the same thing of a commit: the same committed blocks, present or not, and
      for each referenced digest the same batch, present or not. */
  ghost predicate SameView(blocks: seq<DagBlockRef>, dag1: Dag, store1: BatchStore, dag2: Dag, store2: BatchStore) {
    && (forall i :: 0 <= i < |blocks| ==>
          && (blocks[i] in dag1 <==> blocks[i] in dag2)
          && (blocks[i] in dag1 ==> dag1[blocks[i]] == dag2[blocks[i]]))
    && (forall i, j :: 0 <= i < |blocks| && blocks[i] in dag1 && 0 <= j < |dag1[blocks[i]]| ==>
          var d := dag1[blocks[i]][j].digest;
          (d in store1 <==> d in store2) && (d in store1 ==> store1[d] == store2[d]))
  }

  /** Then they resolve the commit identically, whatever else they store. */
  lemma {:induction false} ResolutionDeterministic(blocks: seq<DagBlockRef>, dag1: Dag, store1: BatchStore, dag2: Dag,
                                                   store2: BatchStore)
    requires SameView(blocks, dag1, store1, dag2, store2)
    ensures Payloads(blocks, dag1) == Payloads(blocks, dag2)
    ensures Available(Payloads(blocks, dag1), store1) == Available(Payloads(blocks, dag2), store2)
    ensures Missing(Payloads(blocks, dag1), store1) == Missing(Payloads(blocks, dag2), store2)
  {
    if blocks != [] {
      var front, last := blocks[..|blocks| - 1], blocks[|blocks| - 1];
      assert forall i :: 0 <= i < |front| ==> front[i] == blocks[i];
      ResolutionDeterministic(front, dag1, store1, dag2, store2);
      if last in dag1 {
        assert blocks[|blocks| - 1] == last;
        assert forall j :: 0 <= j < |dag1[last]| ==>
          var d := dag1[last][j].digest; (d in store1 <==> d in store2) && (d in store1 ==> store1[d] == store2[d]);
        Extend(Payloads(front, dag1), dag1[last], store1, store2);
      }
    }
  }

  lemma {:induction false} Extend(refs: seq<TxBatchRef>, more: seq<TxBatchRef>, store1: BatchStore, store2: BatchStore)
    requires Available(refs, store1) == Available(refs, store2) && Missing(refs, store1) == Missing(refs, store2)
    requires forall j :: 0 <= j < |more| ==>
               (more[j].digest in store1 <==> more[j].digest in store2)
               && (more[j].digest in store1 ==> store1[more[j].digest] == store2[more[j].digest])
    ensures Available(refs + more, store1) == Available(refs + more, store2)
    ensures Missing(refs + more, store1) == Missing(refs + more, store2)
  {
    if more == [] {
      assert refs + more == refs;
    } else {
      var front := more[..|more| - 1];
      assert forall j :: 0 <= j < |front| ==> front[j] == more[j];
      Extend(refs, front, store1, store2);
      assert (refs + more)[..|refs + more| - 1] == refs + front;
    }
  }

  /** A resolved commit leaves none of its transactions behind in the list of missing ones:
      nothing is missing exactly when every referenced batch is at hand. */
  lemma {:induction false} NothingMissingIff(refs: seq<TxBatchRef>, store: BatchStore)
    ensures Missing(refs, store) == [] <==> forall r :: r in refs ==> r.digest in store
  {
    if refs != [] {
      var front, last := refs[..|refs| - 1], refs[|refs| - 1];
      assert refs == front + [last];
      NothingMissingIff(front, store);
    }
  }

  // ---- the order of what is resolved ---------------------------------------------------

  predicate Earlier(p: (nat, nat), q: (nat, nat)) { p.0 < q.0 || (p.0 == q.0 && p.1 < q.1) }

  /** `out` lists the elements of all rows, row by row: position `n` of it is the element at
      `places[n]`, the places rise, and every element of every row has one. */
  ghost predicate RowByRow<T>(rows: seq<seq<T>>, out: seq<T>, places: seq<(nat, nat)>) {
    && |places| == |out|
    && (forall n :: 0 <= n < |out| ==> IsAt(rows, out[n], places[n]))
    && (forall m, n :: 0 <= m < n < |places| ==> Earlier(places[m], places[n]))
    && (forall i: nat, j: nat :: i < |rows| && j < |rows[i]| ==> (i, j) in places)
  }

  predicate IsAt<T(==)>(rows: seq<seq<T>>, x: T, p: (nat, nat)) {
    p.0 < |rows| && p.1 < |rows[p.0]| && rows[p.0][p.1] == x
  }

  ghost function PlacesOf(i: nat, n: nat): (places: seq<(nat, nat)>)
    ensures |places| == n && forall j :: 0 <= j < n ==> places[j] == (i, j)
  {
    seq(n, j => (i, j))
  }

  /** One more row. */
  lemma RowAdded<T>(rows: seq<seq<T>>, out: seq<T>, places: seq<(nat, nat)>, row: seq<T>)
    requires RowByRow(rows, out, places)
    ensures RowByRow(rows + [row], out + row, places + PlacesOf(|rows|, |row|))
  {
    var more, all := rows + [row], places + PlacesOf(|rows|, |row|);
    forall n | 0 <= n < |out + row| ensures IsAt(more, (out + row)[n], all[n]) {
      if n < |out| { assert IsAt(rows, out[n], places[n]); }
    }
    forall m, n | 0 <= m < n < |all| ensures Earlier(all[m], all[n]) {
      if m < |places| { assert IsAt(rows, out[m], places[m]); }
    }
    forall i: nat, j: nat | i < |more| && j < |more[i]| ensures (i, j) in all {
      if i == |rows| { assert all[|places| + j] == (i, j); } else { assert (i, j) in places; }
    }
  }

  /** The payload of each committed block, empty where the block is not present. */
  function PayloadRows(blocks: seq<DagBlockRef>, dag: Dag): seq<seq<TxBatchRef>> {
    seq(|blocks|, i requires 0 <= i < |blocks| => if blocks[i] in dag then dag[blocks[i]] else [])
  }

  /** The transactions of each reference, none where its batch is not present. */
  function TxRows(refs: seq<TxBatchRef>, store: BatchStore): seq<seq<Tx>> {
    seq(|refs|, i requires 0 <= i < |refs| => if refs[i].digest in store then store[refs[i].digest].txs else [])
  }

  /** Each reference without a batch. */
  function MissingRows(refs: seq<TxBatchRef>, store: BatchStore): seq<seq<(Hash, Address)>> {
    seq(|refs|, i requires 0 <= i < |refs| =>
      if refs[i].digest in store then [] else [(refs[i].digest, refs[i].author)])
  }

  lemma LastRow<T>(rows: seq<seq<T>>, all: seq<seq<T>>, out: seq<T>, places: seq<(nat, nat)>, more: seq<T>)
    returns (longer: seq<(nat, nat)>)
    requires RowByRow(rows, out, places) && |all| == |rows| + 1 && all[..|rows|] == rows && more == out + all[|rows|]
    ensures RowByRow(all, more, longer)
  {
    RowAdded(rows, out, places, all[|rows|]);
    longer := places + PlacesOf(|rows|, |all[|rows|]|);
    assert all == rows + [all[|rows|]];
  }

  /** What resolution goes through, in order: the batch references of the committed blocks that are
      present, the transactions of the batches that are, and the references whose batch is not. */
  lemma {:induction false} PayloadsInOrder(blocks: seq<DagBlockRef>, dag: Dag) returns (places: seq<(nat, nat)>)
    ensures RowByRow(PayloadRows(blocks, dag), Payloads(blocks, dag), places)
  {
    if blocks == [] {
      places := [];
    } else {
      var front, n := blocks[..|blocks| - 1], |blocks| - 1;
      places := PayloadsInOrder(front, dag);
      assert PayloadRows(blocks, dag)[..n] == PayloadRows(front, dag);
      assert Payloads(blocks, dag) == Payloads(front, dag) + PayloadRows(blocks, dag)[n];
      places := LastRow(PayloadRows(front, dag), PayloadRows(blocks, dag), Payloads(front, dag), places,
                        Payloads(blocks, dag));
    }
  }

  lemma {:induction false} AvailableInOrder(refs: seq<TxBatchRef>, store: BatchStore) returns (places: seq<(nat, nat)>)
    ensures RowByRow(TxRows(refs, store), Available(refs, store), places)
  {
    if refs == [] {
      places := [];
    } else {
      var front, n := refs[..|refs| - 1], |refs| - 1;
      places := AvailableInOrder(front, store);
      assert TxRows(refs, store)[..n] == TxRows(front, store);
      assert Available(refs, store) == Available(front, store) + TxRows(refs, store)[n];
      places := LastRow(TxRows(front, store), TxRows(refs, store), Available(front, store), places,
                        Available(refs, store));
    }
  }

  lemma {:induction false} MissingInOrder(refs: seq<TxBatchRef>, store: BatchStore) returns (places: seq<(nat, nat)>)
    ensures RowByRow(MissingRows(refs, store), Missing(refs, store), places)
  {
    if refs == [] {
      places := [];
    } else {
      var front, n := refs[..|refs| - 1], |refs| - 1;
      places := MissingInOrder(front, store);
      assert MissingRows(refs, store)[..n] == MissingRows(front, store);
      assert Missing(refs, store) == Missing(front, store) + MissingRows(refs, store)[n];
      places := LastRow(MissingRows(front, store), MissingRows(refs, store), Missing(front, store), places,
                        Missing(refs, store));
    }
  }
}
