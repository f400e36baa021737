/** The three redundant indexes of the pending pool and the operations that keep them in
    step: `lemma-mempool/src/pool.rs`. */
module PoolIndex {
  import opened Primitives
  import opened Ordered
  import opened Breaker

  datatype Tx = Tx(
    hash: Hash, sender: Address, nonce: nat, to: Option<Address>, chainId: nat,
    value: nat, gasLimit: nat, gasPrice: nat, txType: TxType)

  datatype Entry = Entry(tx: Tx, priority: nat, seqNo: nat, express: bool)

  /** A key of the priority index: priority first, insertion number second. */
  datatype Key = Key(priority: nat, seqNo: nat)

  predicate Below(a: Key, b: Key) {
    a.priority < b.priority || (a.priority == b.priority && a.seqNo < b.seqNo)
  }

  lemma BelowIsStrictOrder()
    ensures StrictOrder(Below)
  {
  }

  function KeyOf(e: Entry): Key { Key(e.priority, e.seqNo) }

  type SenderIndex = map<Address, map<nat, Hash>>

  datatype Index = Index(
    entries: map<Hash, Entry>, byPriority: map<Key, Hash>, bySender: SenderIndex,
    nextSeq: nat, capacity: nat)

  // ---- the sender index --------------------------------------------------------------

  function Lookup(m: SenderIndex, sender: Address, nonce: nat): Option<Hash> {
    if sender in m && nonce in m[sender] then Some(m[sender][nonce]) else None
  }

  function AddNonce(m: SenderIndex, sender: Address, nonce: nat, hash: Hash): SenderIndex {
    m[sender := (if sender in m then m[sender] else map[])[nonce := hash]]
  }

  /** Remove one nonce and, with the last one, the sender. */
  function DropNonce(m: SenderIndex, sender: Address, nonce: nat): SenderIndex {
    if sender !in m then m else
      var left := m[sender] - {nonce};
      if left == map[] then m - {sender} else m[sender := left]
  }

  ghost predicate NoEmptySender(m: SenderIndex) { forall s :: s in m ==> m[s] != map[] }

  lemma SenderIndexLaws(m: SenderIndex, sender: Address, nonce: nat, hash: Hash)
    requires NoEmptySender(m)
    ensures NoEmptySender(AddNonce(m, sender, nonce, hash)) && NoEmptySender(DropNonce(m, sender, nonce))
    ensures forall s, n :: Lookup(AddNonce(m, sender, nonce, hash), s, n)
                           == if s == sender && n == nonce then Some(hash) else Lookup(m, s, n)
    ensures forall s, n :: Lookup(DropNonce(m, sender, nonce), s, n)
                           == if s == sender && n == nonce then None else Lookup(m, s, n)
  {
    var added := AddNonce(m, sender, nonce, hash);
    assert nonce in added[sender];
    if sender in m && m[sender] - {nonce} == map[] {
      forall n | n in m[sender] ensures n == nonce {
        assert n in (m[sender] - {nonce}).Keys || n == nonce;
      }
    }
  }

  // ---- index operations --------------------------------------------------------------

  /** `remove_internal`: drop `hash` from all three indexes. */
  function Removed(ix: Index, hash: Hash, key: Key): Index {
    ix.(entries := ix.entries - {hash},
        byPriority := ix.byPriority - {key},
        bySender := if hash in ix.entries
                    then DropNonce(ix.bySender, ix.entries[hash].tx.sender, ix.entries[hash].tx.nonce)
                    else ix.bySender)
  }

  /** The last admission step: insert into all three indexes. */
  function Inserted(ix: Index, tx: Tx, priority: nat, express: bool): Index {
    ix.(entries := ix.entries[tx.hash := Entry(tx, priority, ix.nextSeq, express)],
        byPriority := ix.byPriority[Key(priority, ix.nextSeq) := tx.hash],
        bySender := AddNonce(ix.bySender, tx.sender, tx.nonce, tx.hash),
        nextSeq := SatAdd64(ix.nextSeq, 1))
  }

  /** The eviction candidate: the least key of the priority index. */
  function Lowest(ix: Index): (k: Key)
    requires ix.byPriority != map[]
    ensures IsLeast(k, ix.byPriority.Keys, Below)
  {
    BelowIsStrictOrder();
    assert exists k :: k in ix.byPriority;
    Least(ix.byPriority.Keys, Below)
  }

  /** Make room in a full pool by evicting the lowest entry, if the newcomer beats it. */
  function RoomFor(ix: Index, priority: nat): Option<Index> {
    if |ix.entries| < ix.capacity then Some(ix)
    else if ix.byPriority == map[] then None
    else
      var low := Lowest(ix);
      if priority > low.priority then Some(Removed(ix, ix.byPriority[low], low)) else None
  }

  // ---- consistency -------------------------------------------------------------------

  type Entries = map<Hash, Entry>

  /** Every entry sits under its own hash, which stands for its sender and nonce, and was
      numbered before `nextSeq`. */
  ghost predicate EntriesOk(entries: Entries, id: Hash -> (Address, nat), nextSeq: nat) {
    forall h :: h in entries ==>
      entries[h].tx.hash == h && id(h) == (entries[h].tx.sender, entries[h].tx.nonce) && entries[h].seqNo < nextSeq
  }

  /** Entries and priority index are mutually inverse. */
  ghost predicate PriorityOk(entries: Entries, byPriority: map<Key, Hash>) {
    && (forall h :: h in entries ==> KeyOf(entries[h]) in byPriority && byPriority[KeyOf(entries[h])] == h)
    && (forall k :: k in byPriority ==> byPriority[k] in entries && KeyOf(entries[byPriority[k]]) == k)
  }

  /** Entries and sender index are mutually inverse, and no sender is left without nonces. */
  ghost predicate SenderOk(entries: Entries, bySender: SenderIndex) {
    && NoEmptySender(bySender)
    && (forall h :: h in entries ==> Lookup(bySender, entries[h].tx.sender, entries[h].tx.nonce) == Some(h))
    && (forall s, n :: Lookup(bySender, s, n).Some? ==>
          var h := Lookup(bySender, s, n).value;
          h in entries && entries[h].tx.sender == s && entries[h].tx.nonce == n)
  }

  /** The three indexes describe the same transactions. `id` says which sender and nonce a
      transaction hash stands for. */
  ghost predicate Consistent(ix: Index, id: Hash -> (Address, nat)) {
    && EntriesOk(ix.entries, id, ix.nextSeq)
    && PriorityOk(ix.entries, ix.byPriority)
    && SenderOk(ix.entries, ix.bySender)
    && |ix.entries| <= ix.capacity
  }

  lemma SizeRemove<K, V>(m: map<K, V>, k: K)
    requires k in m
    ensures |m - {k}| == |m| - 1
  {
    assert (m - {k}).Keys == m.Keys - {k};
    assert |(m - {k}).Keys| == |m.Keys| - 1;
  }

  lemma SizeAdd<K, V>(m: map<K, V>, k: K, v: V)
    requires k !in m
    ensures |m[k := v]| == |m| + 1
  {
    assert m[k := v].Keys == m.Keys + {k};
    assert |m[k := v].Keys| == |m.Keys| + 1;
  }

  lemma PriorityRemove(entries: Entries, byPriority: map<Key, Hash>, hash: Hash)
    requires PriorityOk(entries, byPriority) && hash in entries
    ensures PriorityOk(entries - {hash}, byPriority - {KeyOf(entries[hash])})
  {
  }

  lemma SenderRemove(entries: Entries, bySender: SenderIndex, hash: Hash)
    requires SenderOk(entries, bySender) && hash in entries
    ensures SenderOk(entries - {hash}, DropNonce(bySender, entries[hash].tx.sender, entries[hash].tx.nonce))
  {
    SenderIndexLaws(bySender, entries[hash].tx.sender, entries[hash].tx.nonce, hash);
  }

  lemma RemoveKeeps(ix: Index, id: Hash -> (Address, nat), hash: Hash)
    requires Consistent(ix, id) && hash in ix.entries
    ensures Consistent(Removed(ix, hash, KeyOf(ix.entries[hash])), id)
    ensures |Removed(ix, hash, KeyOf(ix.entries[hash])).entries| == |ix.entries| - 1
  {
    PriorityRemove(ix.entries, ix.byPriority, hash);
    SenderRemove(ix.entries, ix.bySender, hash);
    SizeRemove(ix.entries, hash);
  }

  lemma PriorityInsert(entries: Entries, byPriority: map<Key, Hash>, hash: Hash, e: Entry)
    requires PriorityOk(entries, byPriority) && hash !in entries && KeyOf(e) !in byPriority
    ensures PriorityOk(entries[hash := e], byPriority[KeyOf(e) := hash])
  {
  }

  lemma SenderInsert(entries: Entries, bySender: SenderIndex, hash: Hash, e: Entry)
    requires SenderOk(entries, bySender) && hash !in entries && Lookup(bySender, e.tx.sender, e.tx.nonce).None?
    ensures SenderOk(entries[hash := e], AddNonce(bySender, e.tx.sender, e.tx.nonce, hash))
  {
    SenderIndexLaws(bySender, e.tx.sender, e.tx.nonce, hash);
  }

  lemma InsertKeeps(ix: Index, id: Hash -> (Address, nat), tx: Tx, priority: nat, express: bool)
    requires Consistent(ix, id) && id(tx.hash) == (tx.sender, tx.nonce)
    requires Lookup(ix.bySender, tx.sender, tx.nonce).None?
    requires |ix.entries| < ix.capacity && ix.nextSeq < U64_MAX
    ensures Consistent(Inserted(ix, tx, priority, express), id)
    ensures tx.hash !in ix.entries
    ensures |Inserted(ix, tx, priority, express).entries| == |ix.entries| + 1
  {
    var e := Entry(tx, priority, ix.nextSeq, express);
    assert tx.hash !in ix.entries;
    SizeAdd(ix.entries, tx.hash, e);
    assert KeyOf(e) !in ix.byPriority;
    PriorityInsert(ix.entries, ix.byPriority, tx.hash, e);
    SenderInsert(ix.entries, ix.bySender, tx.hash, e);
  }

  /** Higher priority first; among equals the newer entry. */
  predicate Outranks(e: Entry, f: Entry) { e.priority > f.priority || (e.priority == f.priority && e.seqNo > f.seqNo) }

  /** `low` is the lowest entry of a full pool, the oldest of the lowest priority, and the newcomer
      beats it. */
  ghost predicate Evictable(ix: Index, low: Hash, priority: nat) {
    && low in ix.entries && |ix.entries| == ix.capacity && ix.entries[low].priority < priority
    && forall h :: h in ix.entries && h != low ==> Outranks(ix.entries[h], ix.entries[low])
  }

  /** In a consistent full pool, room is refused exactly when the newcomer beats no entry;
      otherwise the lowest entry goes. */
  lemma RoomWhenFull(ix: Index, id: Hash -> (Address, nat), priority: nat) returns (low: Hash)
    requires Consistent(ix, id) && |ix.entries| == ix.capacity
    ensures RoomFor(ix, priority).None? ==> forall h :: h in ix.entries ==> priority <= ix.entries[h].priority
    ensures RoomFor(ix, priority).Some? ==>
              Evictable(ix, low, priority) && RoomFor(ix, priority) == Some(Removed(ix, low, KeyOf(ix.entries[low])))
  {
    low := 0;
    if ix.byPriority != map[] {
      LowestIsLowest(ix, id);
      low := ix.byPriority[Lowest(ix)];
    }
  }

  lemma LowestIsLowest(ix: Index, id: Hash -> (Address, nat))
    requires Consistent(ix, id) && ix.byPriority != map[]
    ensures ix.byPriority[Lowest(ix)] in ix.entries
    ensures KeyOf(ix.entries[ix.byPriority[Lowest(ix)]]) == Lowest(ix)
    ensures forall h :: h in ix.entries && h != ix.byPriority[Lowest(ix)] ==>
              Outranks(ix.entries[h], ix.entries[ix.byPriority[Lowest(ix)]])
  {
    var low := Lowest(ix);
    forall h | h in ix.entries && h != ix.byPriority[low] ensures Below(low, KeyOf(ix.entries[h])) {
      assert KeyOf(ix.entries[h]) in ix.byPriority.Keys;
      assert KeyOf(ix.entries[h]) != low;
    }
  }

  // ---- retrieval ---------------------------------------------------------------------

  predicate Above(a: Key, b: Key) { Below(b, a) }

  lemma AboveIsStrictOrder()
    ensures StrictOrder(Above)
  {
  }

  /** The priority index read backwards: highest key first. */
  function Descending(byPriority: map<Key, Hash>): (keys: seq<Key>)
    ensures forall i, j :: 0 <= i < j < |keys| ==> Below(keys[j], keys[i])
    ensures forall k :: k in keys <==> k in byPriority
    ensures |keys| == |byPriority|
  {
    AboveIsStrictOrder();
    var keys := Sorted(byPriority.Keys, Above);
    assert forall i, j :: 0 <= i < j < |keys| ==> Above(keys[i], keys[j]);
    assert |byPriority.Keys| == |byPriority|;
    keys
  }

  /** The transactions under a list of keys; a key without an entry yields nothing. */
  function TxsOf(ix: Index, keys: seq<Key>): seq<Tx> {
    if keys == [] then [] else
      var rest := TxsOf(ix, keys[1..]);
      if keys[0] in ix.byPriority && ix.byPriority[keys[0]] in ix.entries
      then [ix.entries[ix.byPriority[keys[0]]].tx] + rest else rest
  }

  /** `pending_by_priority`. */
  function Pending(ix: Index, limit: nat): seq<Tx> {
    var keys := Descending(ix.byPriority);
    TxsOf(ix, keys[..Min(limit, |keys|)])
  }

  lemma {:induction false} TxsOfConcat(ix: Index, xs: seq<Key>, ys: seq<Key>)
    ensures TxsOf(ix, xs + ys) == TxsOf(ix, xs) + TxsOf(ix, ys)
  {
    if xs == [] {
      assert xs + ys == ys;
    } else {
      TxsOfConcat(ix, xs[1..], ys);
      assert (xs + ys)[1..] == xs[1..] + ys;
    }
  }

  lemma TxsOfNext(ix: Index, keys: seq<Key>, i: nat)
    requires i < |keys|
    ensures TxsOf(ix, keys[..i + 1]) == TxsOf(ix, keys[..i]) + TxsOf(ix, [keys[i]])
  {
    assert keys[..i + 1] == keys[..i] + [keys[i]];
    TxsOfConcat(ix, keys[..i], [keys[i]]);
  }

  /** `take` and `filter_map`: the entries of the first `n` keys, skipping keys without one. */
  method TakeEntries(ix: Index, keys: seq<Key>, n: nat) returns (txs: seq<Tx>)
    requires n <= |keys|
    ensures txs == TxsOf(ix, keys[..n])
  {
    txs := [];
    for i := 0 to n
      invariant txs == TxsOf(ix, keys[..i])
    {
      TxsOfNext(ix, keys, i);
      var key := keys[i];
      if key in ix.byPriority && ix.byPriority[key] in ix.entries {
        txs := txs + [ix.entries[ix.byPriority[key]].tx];
      }
    }
  }

  ghost predicate EntriesHashed(entries: Entries) { forall h :: h in entries ==> entries[h].tx.hash == h }

  lemma {:induction false} TxsOfAll(ix: Index, keys: seq<Key>)
    requires PriorityOk(ix.entries, ix.byPriority) && EntriesHashed(ix.entries)
    requires forall k :: k in keys ==> k in ix.byPriority
    ensures var txs := TxsOf(ix, keys);
            && |txs| == |keys|
            && forall i :: 0 <= i < |keys| ==>
                 && txs[i].hash in ix.entries && ix.entries[txs[i].hash].tx == txs[i]
                 && KeyOf(ix.entries[txs[i].hash]) == keys[i]
  {
    if keys != [] {
      assert keys[0] in keys;
      assert forall k :: k in keys[1..] ==> k in keys;
      TxsOfAll(ix, keys[1..]);
    }
  }

  lemma SameSize(entries: Entries, byPriority: map<Key, Hash>)
    requires PriorityOk(entries, byPriority)
    ensures |byPriority| == |entries|
    decreases |entries|
  {
    if entries.Keys == {} {
      assert byPriority.Keys == {};
      assert |byPriority.Keys| == |byPriority| && |entries.Keys| == |entries|;
    } else {
      var h :| h in entries;
      PriorityRemove(entries, byPriority, h);
      SizeRemove(entries, h);
      SizeRemove(byPriority, KeyOf(entries[h]));
      SameSize(entries - {h}, byPriority - {KeyOf(entries[h])});
    }
  }

  /** Position `i` of the retrieved list is the entry with the `i`-th highest key. */
  lemma PendingAt(ix: Index, id: Hash -> (Address, nat), limit: nat)
    requires Consistent(ix, id)
    ensures var r, keys := Pending(ix, limit), Descending(ix.byPriority);
            && |r| == Min(limit, |ix.entries|) <= |keys|
            && forall i :: 0 <= i < |r| ==>
                 r[i].hash in ix.entries && ix.entries[r[i].hash].tx == r[i] && KeyOf(ix.entries[r[i].hash]) == keys[i]
  {
    var keys := Descending(ix.byPriority);
    SameSize(ix.entries, ix.byPriority);
    TxsOfFirsts(ix, keys, Min(limit, |keys|));
  }

  lemma TxsOfFirsts(ix: Index, keys: seq<Key>, n: nat)
    requires PriorityOk(ix.entries, ix.byPriority) && EntriesHashed(ix.entries) && n <= |keys|
    requires forall k :: k in keys ==> k in ix.byPriority
    ensures var txs := TxsOf(ix, keys[..n]);
            && |txs| == n
            && forall i :: 0 <= i < n ==>
                 && txs[i].hash in ix.entries && ix.entries[txs[i].hash].tx == txs[i]
                 && KeyOf(ix.entries[txs[i].hash]) == keys[i]
  {
    assert forall k :: k in keys[..n] ==> k in keys;
    TxsOfAll(ix, keys[..n]);
  }

  ghost predicate Returned(r: seq<Tx>, h: Hash) { exists j :: 0 <= j < |r| && r[j].hash == h }

  lemma LeftOutIsOutranked(ix: Index, id: Hash -> (Address, nat), limit: nat, i: nat, h: Hash)
    requires Consistent(ix, id) && i < |Pending(ix, limit)| && h in ix.entries && !Returned(Pending(ix, limit), h)
    ensures Pending(ix, limit)[i].hash in ix.entries
    ensures Outranks(ix.entries[Pending(ix, limit)[i].hash], ix.entries[h])
  {
    var r, keys := Pending(ix, limit), Descending(ix.byPriority);
    PendingAt(ix, id, limit);
    assert KeyOf(ix.entries[h]) in keys;
    var j :| 0 <= j < |keys| && keys[j] == KeyOf(ix.entries[h]);
    assert ix.byPriority[keys[j]] == h;
  }

  /** The list holds exactly the `min(limit, len)` highest entries, highest first: each is pooled,
      the ranks strictly fall, and every entry returned outranks every entry left out. */
  ghost predicate TopEntries(entries: Entries, limit: nat, r: seq<Tx>) {
    && |r| == Min(limit, |entries|)
    && (forall i :: 0 <= i < |r| ==> r[i].hash in entries && entries[r[i].hash].tx == r[i])
    && (forall i, j :: 0 <= i < j < |r| ==> Outranks(entries[r[i].hash], entries[r[j].hash]))
    && (forall i, h :: 0 <= i < |r| && h in entries && !Returned(r, h) ==> Outranks(entries[r[i].hash], entries[h]))
  }

  lemma PendingFalls(ix: Index, id: Hash -> (Address, nat), limit: nat, i: nat, j: nat)
    requires Consistent(ix, id) && i < j < |Pending(ix, limit)|
    ensures var r := Pending(ix, limit);
            && r[i].hash in ix.entries && r[j].hash in ix.entries
            && Outranks(ix.entries[r[i].hash], ix.entries[r[j].hash])
  {
    PendingAt(ix, id, limit);
    var keys := Descending(ix.byPriority);
    assert Below(keys[j], keys[i]);
  }

  lemma PendingExact(ix: Index, id: Hash -> (Address, nat), limit: nat)
    requires Consistent(ix, id)
    ensures TopEntries(ix.entries, limit, Pending(ix, limit))
  {
    PendingAt(ix, id, limit);
    var r := Pending(ix, limit);
    forall i, j | 0 <= i < j < |r| ensures Outranks(ix.entries[r[i].hash], ix.entries[r[j].hash]) {
      PendingFalls(ix, id, limit, i, j);
    }
    forall i, h | 0 <= i < |r| && h in ix.entries && !Returned(r, h)
      ensures Outranks(ix.entries[r[i].hash], ix.entries[h])
    {
      LeftOutIsOutranked(ix, id, limit, i, h);
    }
  }

  // ---- removal keeps the order of the rest -------------------------------------------

  function WithoutKey(keys: seq<Key>, k: Key): (r: seq<Key>)
    ensures forall x :: x in r <==> x in keys && x != k
  {
    if keys == [] then [] else
      (if keys[0] == k then [] else [keys[0]]) + WithoutKey(keys[1..], k)
  }

  function WithoutHash(txs: seq<Tx>, h: Hash): seq<Tx> {
    if txs == [] then [] else
      (if txs[0].hash == h then [] else [txs[0]]) + WithoutHash(txs[1..], h)
  }

  lemma {:induction false} WithoutKeyDescends(keys: seq<Key>, k: Key)
    requires Ascending(keys, Above)
    ensures Ascending(WithoutKey(keys, k), Above)
  {
    if keys != [] {
      WithoutKeyDescends(keys[1..], k);
      var rest := WithoutKey(keys[1..], k);
      forall x | x in rest ensures Above(keys[0], x) {
        assert x in keys[1..];
        var j :| 1 <= j < |keys| && keys[j] == x;
      }
      assert forall j :: 0 <= j < |rest| ==> rest[j] in rest;
    }
  }

  lemma DescendingWithout(byPriority: map<Key, Hash>, k: Key)
    ensures Descending(byPriority - {k}) == WithoutKey(Descending(byPriority), k)
  {
    AboveIsStrictOrder();
    WithoutKeyDescends(Descending(byPriority), k);
    AscendingUnique(Descending(byPriority - {k}), WithoutKey(Descending(byPriority), k), Above);
  }

  lemma {:induction false} TxsWithout(ix: Index, keys: seq<Key>, h: Hash)
    requires PriorityOk(ix.entries, ix.byPriority) && EntriesHashed(ix.entries) && h in ix.entries
    requires forall k :: k in keys ==> k in ix.byPriority
    ensures TxsOf(Removed(ix, h, KeyOf(ix.entries[h])), WithoutKey(keys, KeyOf(ix.entries[h])))
        == WithoutHash(TxsOf(ix, keys), h)
  {
    if keys != [] {
      assert keys[0] in keys;
      assert forall k :: k in keys[1..] ==> k in keys;
      TxsWithout(ix, keys[1..], h);
      FirstTx(ix, keys, h);
      var key := KeyOf(ix.entries[h]);
      var txs := TxsOf(ix, keys);
      if keys[0] != key {
        assert WithoutKey(keys, key) == [keys[0]] + WithoutKey(keys[1..], key);
        TxsCons(Removed(ix, h, key), keys[0], WithoutKey(keys[1..], key));
        assert WithoutHash(txs, h) == [txs[0]] + WithoutHash(txs[1..], h);
      } else {
        assert WithoutKey(keys, key) == WithoutKey(keys[1..], key);
        assert WithoutHash(txs, h) == WithoutHash(txs[1..], h);
      }
    }
  }

  lemma TxsCons(ix: Index, k: Key, rest: seq<Key>)
    requires k in ix.byPriority && ix.byPriority[k] in ix.entries
    ensures TxsOf(ix, [k] + rest) == [ix.entries[ix.byPriority[k]].tx] + TxsOf(ix, rest)
  {
    assert ([k] + rest)[1..] == rest;
  }

  lemma FirstTx(ix: Index, keys: seq<Key>, h: Hash)
    requires PriorityOk(ix.entries, ix.byPriority) && EntriesHashed(ix.entries) && h in ix.entries
    requires keys != [] && keys[0] in ix.byPriority
    ensures var txs := TxsOf(ix, keys);
            && txs != [] && txs[1..] == TxsOf(ix, keys[1..]) && txs[0] == ix.entries[ix.byPriority[keys[0]]].tx
            && (txs[0].hash == h <==> keys[0] == KeyOf(ix.entries[h]))
  {
  }

  /** The whole pool in retrieval order. */
  function AllPending(ix: Index): seq<Tx> { TxsOf(ix, Descending(ix.byPriority)) }

  /** Removing a transaction takes it out of the retrieval order and moves nothing else. */
  lemma RemoveKeepsOrder(ix: Index, id: Hash -> (Address, nat), h: Hash)
    requires Consistent(ix, id) && h in ix.entries
    ensures AllPending(Removed(ix, h, KeyOf(ix.entries[h]))) == WithoutHash(AllPending(ix), h)
  {
    DescendingWithout(ix.byPriority, KeyOf(ix.entries[h]));
    TxsWithout(ix, Descending(ix.byPriority), h);
  }
}
