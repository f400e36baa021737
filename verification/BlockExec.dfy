/** Applying a block's writes to the world state in two phases:
    `lemma-node/src/block_exec.rs`. A trie root is represented by the contents it commits to,
    so equal roots mean equal contents and the zero root is the empty trie. */
module BlockExec {
  import opened Primitives
  import opened Ordered

  type Bytes = seq<Byte>

  datatype StateKey =
    | StorageKey(contract: Address, slotKey: Bytes)
    | BalanceKey(addr: Address)
    | NonceKey(addr: Address)
    | CodeKey(addr: Address)

  datatype StateValue =
    | StorageValue(slot: Option<Bytes>)
    | BalanceValue(amount: nat)
    | NonceValue(nonce: nat)
    | CodeValue(code: Option<Bytes>)

  type Writes = map<StateKey, StateValue>

  /** A contract's storage trie; an empty value is the tombstone of a deleted slot. */
  type Trie = map<Hash, Bytes>

  datatype Account = Account(nonce: nat, balance: nat, codeHash: Hash, storageRoot: Trie, staked: nat)

  datatype World = World(accounts: map<Address, Account>, flat: map<(Address, Hash), Bytes>, code: map<Hash, Bytes>)

  const NO_ACCOUNT := Account(0, 0, 0, map[], 0)

  function AccountIn(accounts: map<Address, Account>, a: Address): Account {
    if a in accounts then accounts[a] else NO_ACCOUNT
  }

  /** Key and value are of the same kind; Flux never produces anything else. */
  predicate Matched(k: StateKey, v: StateValue) {
    match k
    case StorageKey(_, _) => v.StorageValue?
    case BalanceKey(_) => v.BalanceValue?
    case NonceKey(_) => v.NonceValue?
    case CodeKey(_) => v.CodeValue?
  }

  predicate SetsField(m: Writes, k: StateKey) { k in m && Matched(k, m[k]) }

  // ---- the simple overlay ------------------------------------------------------------

  type Slots = map<(Address, Hash), Option<Bytes>>

  /** The hash function tells apart the slots of one contract and the code of the writes. */
  ghost predicate Injective(H: Bytes -> Hash, m: Writes) {
    && (forall j, k :: (j in m && k in m && SameSlot(H, j, k)) ==> j == k)
    && (forall j, k :: (j in m && k in m && SameCode(H, m[j], m[k])) ==> m[j] == m[k])
  }

  predicate SameSlot(H: Bytes -> Hash, j: StateKey, k: StateKey) {
    j.StorageKey? && k.StorageKey? && j.contract == k.contract && H(j.slotKey) == H(k.slotKey)
  }

  predicate SameCode(H: Bytes -> Hash, v: StateValue, u: StateValue) {
    v.CodeValue? && u.CodeValue? && v.code.Some? && u.code.Some? && H(v.code.value) == H(u.code.value)
  }

  predicate WritesSlot(m: Writes, k: StateKey) { k in m && k.StorageKey? && m[k].StorageValue? }

  predicate WritesCode(m: Writes, k: StateKey) { k in m && k.CodeKey? && m[k].CodeValue? && m[k].code.Some? }

  function SlotName(H: Bytes -> Hash, k: StateKey): (Address, Hash)
    requires k.StorageKey?
  { (k.contract, H(k.slotKey)) }

  /** The written slots, by contract and slot hash. */
  ghost function SlotsOf(H: Bytes -> Hash, m: Writes): Slots
    requires Injective(H, m)
  {
    map k | k in m && WritesSlot(m, k) :: SlotName(H, k) := m[k].slot
  }

  /** The written code, by hash. */
  ghost function CodesOf(H: Bytes -> Hash, m: Writes): map<Hash, Bytes>
    requires Injective(H, m)
  {
    map k | k in m && WritesCode(m, k) :: H(m[k].code.value) := m[k].code.value
  }

  /** An account with exactly its written balance, nonce and code hash replaced. */
  function FieldsOf(H: Bytes -> Hash, m: Writes, a: Address, acct: Account): Account {
    Account(
      if SetsField(m, NonceKey(a)) then m[NonceKey(a)].nonce else acct.nonce,
      if SetsField(m, BalanceKey(a)) then m[BalanceKey(a)].amount else acct.balance,
      if SetsField(m, CodeKey(a)) then CodeHash(H, m[CodeKey(a)].code) else acct.codeHash,
      acct.storageRoot, acct.staked)
  }

  function CodeHash(H: Bytes -> Hash, code: Option<Bytes>): Hash { if code.Some? then H(code.value) else 0 }

  predicate FieldTouched(m: Writes, a: Address) {
    SetsField(m, BalanceKey(a)) || SetsField(m, NonceKey(a)) || SetsField(m, CodeKey(a))
  }

  function FieldAddresses(m: Writes): (r: set<Address>)
    ensures forall a :: a in r <==> FieldTouched(m, a)
  {
    var r := set k | k in m && !k.StorageKey? && Matched(k, m[k]) :: k.addr;
    assert forall a :: FieldTouched(m, a) ==> a in r by {
      forall a | FieldTouched(m, a) ensures a in r {
        assert SetsField(m, BalanceKey(a)) ==> BalanceKey(a) in m;
        assert SetsField(m, NonceKey(a)) ==> NonceKey(a) in m;
        assert SetsField(m, CodeKey(a)) ==> CodeKey(a) in m;
      }
    }
    r
  }

  /** A deleted slot becomes an empty leaf. */
  function Leaf(v: Option<Bytes>): Bytes { if v.Some? then v.value else [] }

  function SlotsAt(slots: Slots, c: Address): set<Hash> { set p | p in slots && p.0 == c :: p.1 }

  function OverlayTrie(t: Trie, slots: Slots, c: Address): Trie {
    map s | s in t.Keys + SlotsAt(slots, c) :: if (c, s) in slots then Leaf(slots[(c, s)]) else t[s]
  }

  function OverlayFlat(flat: map<(Address, Hash), Bytes>, slots: Slots): map<(Address, Hash), Bytes> {
    map p | p in flat.Keys + slots.Keys && !(p in slots && slots[p].None?) ::
      if p in slots then slots[p].value else flat[p]
  }

  function StorageAddresses(slots: Slots): set<Address> { set p | p in slots :: p.0 }

  function Accounts1(H: Bytes -> Hash, before: map<Address, Account>, m: Writes): map<Address, Account> {
    map a | a in before.Keys + FieldAddresses(m) :: FieldsOf(H, m, a, AccountIn(before, a))
  }

  function Accounts2(before: map<Address, Account>, slots: Slots, contracts: set<Address>): map<Address, Account> {
    map a | a in before.Keys + contracts ::
      if a in contracts
      then AccountIn(before, a).(storageRoot := OverlayTrie(AccountIn(before, a).storageRoot, slots, a))
      else before[a]
  }

  /** The whole write set laid over the world at once. */
  ghost function Overlay(H: Bytes -> Hash, w: World, m: Writes): World
    requires Injective(H, m)
  {
    var slots := SlotsOf(H, m);
    World(OverlayAccounts(H, w.accounts, m, slots), OverlayFlat(w.flat, slots), CodesOf(H, m) + w.code)
  }

  function OverlayAccounts(H: Bytes -> Hash, before: map<Address, Account>, m: Writes,
                           slots: Slots): map<Address, Account> {
    map a | a in before.Keys + FieldAddresses(m) + StorageAddresses(slots) ::
      FieldsOf(H, m, a, AccountIn(before, a)).(storageRoot := OverlayTrie(AccountIn(before, a).storageRoot, slots, a))
  }

  // ---- phase 1 -----------------------------------------------------------------------

  /** One field of one account, as the write says. */
  function SetField(H: Bytes -> Hash, acct: Account, k: StateKey, v: StateValue): Account
    requires !k.StorageKey? && Matched(k, v)
  {
    match k
    case BalanceKey(_) => acct.(balance := v.amount)
    case NonceKey(_) => acct.(nonce := v.nonce)
    case CodeKey(_) => acct.(codeHash := CodeHash(H, v.code))
  }

  /** One write on the accounts: storage and mismatched writes leave them alone. */
  function AccountsStep(H: Bytes -> Hash, accounts: map<Address, Account>, k: StateKey,
                        v: StateValue): map<Address, Account> {
    if !k.StorageKey? && Matched(k, v)
    then accounts[k.addr := SetField(H, AccountIn(accounts, k.addr), k, v)]
    else accounts
  }

  /** Code is append-only: an existing entry wins. */
  function CodeStep(H: Bytes -> Hash, code: map<Hash, Bytes>, k: StateKey, v: StateValue): map<Hash, Bytes> {
    if k.CodeKey? && v.CodeValue? && v.code.Some? && H(v.code.value) !in code
    then code[H(v.code.value) := v.code.value]
    else code
  }

  function FlatStep(flat: map<(Address, Hash), Bytes>, p: (Address, Hash),
                    v: Option<Bytes>): map<(Address, Hash), Bytes> {
    if v.Some? then flat[p := v.value] else flat - {p}
  }

  lemma FieldsStep(H: Bytes -> Hash, m: Writes, k: StateKey, v: StateValue, a: Address, acct: Account)
    requires k !in m
    ensures FieldsOf(H, m[k := v], a, acct)
            == if !k.StorageKey? && Matched(k, v) && a == k.addr then SetField(H, FieldsOf(H, m, a, acct), k, v)
               else FieldsOf(H, m, a, acct)
    ensures FieldTouched(m[k := v], a) <==> FieldTouched(m, a) || (!k.StorageKey? && Matched(k, v) && a == k.addr)
  {
    var n := m[k := v];
    assert forall j :: j != k ==> SetsField(n, j) == SetsField(m, j);
    assert SetsField(n, k) == Matched(k, v) && !SetsField(m, k);
  }

  lemma UntouchedFields(H: Bytes -> Hash, m: Writes, a: Address, acct: Account)
    requires !FieldTouched(m, a)
    ensures FieldsOf(H, m, a, acct) == acct
  {}

  lemma AccountsGrow(H: Bytes -> Hash, before: map<Address, Account>, m: Writes, k: StateKey, v: StateValue)
    requires k !in m
    ensures AccountsStep(H, Accounts1(H, before, m), k, v) == Accounts1(H, before, m[k := v])
  {
    var now, next := Accounts1(H, before, m), Accounts1(H, before, m[k := v]);
    var step := AccountsStep(H, now, k, v);
    forall a ensures (a in step <==> a in next) && (a in step ==> step[a] == next[a]) {
      FieldsStep(H, m, k, v, a, AccountIn(before, a));
      if a !in now { UntouchedFields(H, m, a, AccountIn(before, a)); }
    }
  }

  ghost predicate IsSlots(H: Bytes -> Hash, m: Writes, slots: Slots) {
    && (forall k :: WritesSlot(m, k) ==> SlotName(H, k) in slots && slots[SlotName(H, k)] == m[k].slot)
    && (forall p :: p in slots ==> exists k :: WritesSlot(m, k) && SlotName(H, k) == p)
  }

  ghost predicate IsCodes(H: Bytes -> Hash, m: Writes, codes: map<Hash, Bytes>) {
    && (forall k :: WritesCode(m, k) ==> H(m[k].code.value) in codes && codes[H(m[k].code.value)] == m[k].code.value)
    && (forall h :: h in codes ==> exists k :: WritesCode(m, k) && H(m[k].code.value) == h)
  }

  lemma SlotsUnique(H: Bytes -> Hash, m: Writes, slots: Slots)
    requires Injective(H, m) && IsSlots(H, m, slots)
    ensures slots == SlotsOf(H, m)
  {
    var r := SlotsOf(H, m);
    forall p | p in slots ensures p in r && r[p] == slots[p] {
      var k :| WritesSlot(m, k) && SlotName(H, k) == p;
    }
  }

  lemma CodesUnique(H: Bytes -> Hash, m: Writes, codes: map<Hash, Bytes>)
    requires Injective(H, m) && IsCodes(H, m, codes)
    ensures codes == CodesOf(H, m)
  {
    var r := CodesOf(H, m);
    forall h | h in codes ensures h in r && r[h] == codes[h] {
      var k :| WritesCode(m, k) && H(m[k].code.value) == h;
    }
  }

  lemma SlotsGrow(H: Bytes -> Hash, m: Writes, k: StateKey, v: StateValue, slots: Slots)
    requires k !in m && Injective(H, m[k := v]) && IsSlots(H, m, slots)
    ensures IsSlots(H, m[k := v], if k.StorageKey? && v.StorageValue? then slots[SlotName(H, k) := v.slot] else slots)
    ensures k.StorageKey? && v.StorageValue? ==> SlotName(H, k) !in slots
  {
    var n := m[k := v];
    forall j | j != k ensures WritesSlot(n, j) == WritesSlot(m, j) {}
    if k.StorageKey? && v.StorageValue? {
      assert WritesSlot(n, k);
      forall j | WritesSlot(m, j) ensures SlotName(H, j) != SlotName(H, k) {
        assert j in n && k in n && j != k && !SameSlot(H, j, k);
      }
      forall p | p in slots ensures exists j :: WritesSlot(n, j) && SlotName(H, j) == p {
        var j :| WritesSlot(m, j) && SlotName(H, j) == p;
        assert WritesSlot(n, j);
      }
    } else {
      forall p | p in slots ensures exists j :: WritesSlot(n, j) && SlotName(H, j) == p {
        var j :| WritesSlot(m, j) && SlotName(H, j) == p;
        assert WritesSlot(n, j);
      }
    }
  }

  lemma CodesGrow(H: Bytes -> Hash, m: Writes, k: StateKey, v: StateValue, codes: map<Hash, Bytes>)
    requires k !in m && Injective(H, m[k := v]) && IsCodes(H, m, codes)
    ensures IsCodes(H, m[k := v], CodeStep(H, codes, k, v))
  {
    var n := m[k := v];
    forall j | j != k ensures WritesCode(n, j) == WritesCode(m, j) {}
    forall j | WritesCode(m, j) && WritesCode(n, k) && H(m[j].code.value) == H(v.code.value)
      ensures m[j].code == v.code
    {
      assert j in n && k in n && SameCode(H, n[j], n[k]);
    }
    var next := CodeStep(H, codes, k, v);
    forall h | h in next ensures exists j :: WritesCode(n, j) && H(n[j].code.value) == h {
      if h in codes {
        var j :| WritesCode(m, j) && H(m[j].code.value) == h;
        assert WritesCode(n, j);
      } else {
        assert WritesCode(n, k);
      }
    }
  }

  lemma CodeStepOver(H: Bytes -> Hash, code: map<Hash, Bytes>, codes: map<Hash, Bytes>, k: StateKey, v: StateValue)
    ensures CodeStep(H, codes + code, k, v) == CodeStep(H, codes, k, v) + code
  {}

  lemma FlatGrows(flat: map<(Address, Hash), Bytes>, slots: Slots, p: (Address, Hash), v: Option<Bytes>)
    ensures FlatStep(OverlayFlat(flat, slots), p, v) == OverlayFlat(flat, slots[p := v])
  {}

  lemma InjectiveWithin(H: Bytes -> Hash, m: Writes, big: Writes)
    requires Injective(H, big) && forall k :: k in m ==> k in big && m[k] == big[k]
    ensures Injective(H, m)
  {}

  /** One pass of the phase 1 loop on the world. */
  function Step1(H: Bytes -> Hash, now: World, k: StateKey, v: StateValue): World {
    World(
      AccountsStep(H, now.accounts, k, v),
      if k.StorageKey? && v.StorageValue? then FlatStep(now.flat, SlotName(H, k), v.slot) else now.flat,
      CodeStep(H, now.code, k, v))
  }

  /** The world `now` has taken the writes `m`, whose slots and code are `slots` and `codes`. */
  ghost predicate AfterPhase1(H: Bytes -> Hash, w: World, m: Writes, slots: Slots, codes: map<Hash, Bytes>,
                              now: World) {
    && IsSlots(H, m, slots) && IsCodes(H, m, codes)
    && now == World(Accounts1(H, w.accounts, m), OverlayFlat(w.flat, slots), codes + w.code)
  }

  lemma Phase1Step(H: Bytes -> Hash, w: World, m: Writes, slots: Slots, codes: map<Hash, Bytes>, now: World,
                   k: StateKey, v: StateValue)
    requires k !in m && Injective(H, m[k := v]) && AfterPhase1(H, w, m, slots, codes, now)
    ensures AfterPhase1(H, w, m[k := v],
                        if k.StorageKey? && v.StorageValue? then slots[SlotName(H, k) := v.slot] else slots,
                        CodeStep(H, codes, k, v), Step1(H, now, k, v))
    ensures k.StorageKey? && v.StorageValue? ==> SlotName(H, k) !in slots
  {
    AccountsGrow(H, w.accounts, m, k, v);
    SlotsGrow(H, m, k, v, slots);
    CodesGrow(H, m, k, v, codes);
    CodeStepOver(H, w.code, codes, k, v);
    if k.StorageKey? && v.StorageValue? { FlatGrows(w.flat, slots, SlotName(H, k), v.slot); }
  }

  // ---- phase 2 -----------------------------------------------------------------------

  type Changes = map<Address, seq<(Hash, Option<Bytes>)>>

  /** The change list names exactly the written slots, each with its value. */
  ghost predicate Collects(changes: Changes, slots: Slots) {
    && (forall c :: c in changes ==> changes[c] != [] && Lists(changes[c], slots, c))
    && (forall p :: p in slots ==> p.0 in changes && (p.1, slots[p]) in changes[p.0])
  }

  ghost predicate Lists(list: seq<(Hash, Option<Bytes>)>, slots: Slots, c: Address) {
    forall i :: 0 <= i < |list| ==> (c, list[i].0) in slots && slots[(c, list[i].0)] == list[i].1
  }

  function Pushed(changes: Changes, c: Address, e: (Hash, Option<Bytes>)): Changes {
    changes[c := (if c in changes then changes[c] else []) + [e]]
  }

  lemma CollectsGrow(changes: Changes, slots: Slots, c: Address, s: Hash, v: Option<Bytes>)
    requires Collects(changes, slots) && (c, s) !in slots
    ensures Collects(Pushed(changes, c, (s, v)), slots[(c, s) := v])
  {
    var more, all := Pushed(changes, c, (s, v)), slots[(c, s) := v];
    forall d | d in more ensures more[d] != [] && Lists(more[d], all, d) {
      assert d in changes ==> Lists(changes[d], slots, d);
    }
    forall p: (Address, Hash) | p in all ensures p.0 in more && (p.1, all[p]) in more[p.0] {
      if p == (c, s) {
        assert more[c][|more[c]| - 1] == (s, v);
      } else {
        assert p in slots && (p.1, slots[p]) in changes[p.0];
      }
    }
  }

  lemma ChangedContracts(changes: Changes, slots: Slots)
    requires Collects(changes, slots)
    ensures changes.Keys == StorageAddresses(slots)
  {
    forall c | c in changes ensures c in StorageAddresses(slots) {
      assert Lists(changes[c], slots, c);
      assert (c, changes[c][0].0) in slots;
    }
  }

  /** A change list of contract `c` has all its written slots and no others. */
  ghost predicate ListsAll(list: seq<(Hash, Option<Bytes>)>, slots: Slots, c: Address) {
    && list != [] && Lists(list, slots, c)
    && forall s :: s in SlotsAt(slots, c) ==> exists i :: 0 <= i < |list| && list[i].0 == s
  }

  lemma CollectedLists(changes: Changes, slots: Slots, c: Address)
    requires Collects(changes, slots) && c in changes
    ensures ListsAll(changes[c], slots, c)
  {
    var list := changes[c];
    forall s | s in SlotsAt(slots, c) ensures exists i :: 0 <= i < |list| && list[i].0 == s {
      assert (c, s) in slots && (s, slots[(c, s)]) in list;
      var i :| 0 <= i < |list| && list[i] == (s, slots[(c, s)]);
      assert list[i].0 == s;
    }
  }

  /** The slots in `seen` have been laid over the trie. */
  ghost predicate Overlaid(root: Trie, trie: Trie, slots: Slots, c: Address, seen: set<Hash>) {
    && trie.Keys == root.Keys + seen
    && (forall s :: s in seen ==> (c, s) in slots && trie[s] == Leaf(slots[(c, s)]))
    && (forall s :: s in trie && s !in seen ==> trie[s] == root[s])
  }

  lemma OverlaidNext(root: Trie, trie: Trie, slots: Slots, c: Address, seen: set<Hash>, s: Hash)
    requires Overlaid(root, trie, slots, c, seen) && (c, s) in slots
    ensures Overlaid(root, trie[s := Leaf(slots[(c, s)])], slots, c, seen + {s})
  {
  }

  /** Inserting a contract's listed slots one after the other, empty leaves for deletions. */
  method RebuildTrie(root: Trie, list: seq<(Hash, Option<Bytes>)>, ghost slots: Slots, ghost c: Address)
    returns (trie: Trie)
    requires ListsAll(list, slots, c)
    ensures list[0].0 in trie
    ensures trie == OverlayTrie(root, slots, c)
  {
    trie := root;
    ghost var seen: set<Hash> := {};
    for i := 0 to |list|
      invariant forall j :: 0 <= j < i ==> list[j].0 in seen
      invariant Overlaid(root, trie, slots, c, seen)
    {
      OverlaidNext(root, trie, slots, c, seen, list[i].0);
      trie := trie[list[i].0 := Leaf(list[i].1)];
      seen := seen + {list[i].0};
    }
    SeenAll(list, slots, c, seen);
  }

  lemma SeenAll(list: seq<(Hash, Option<Bytes>)>, slots: Slots, c: Address, seen: set<Hash>)
    requires ListsAll(list, slots, c)
    requires forall j :: 0 <= j < |list| ==> list[j].0 in seen
    requires forall s :: s in seen ==> (c, s) in slots
    ensures seen == SlotsAt(slots, c)
    ensures forall s :: s in seen <==> (c, s) in slots
  {
    forall s: Hash | (c, s) in slots ensures s in seen {
      assert (c, s).1 in SlotsAt(slots, c);
    }
    forall s | s in SlotsAt(slots, c) ensures s in seen {
      assert (c, s) in slots;
    }
  }

  function Restored(now: map<Address, Account>, c: Address, trie: Trie): map<Address, Account> {
    if trie != AccountIn(now, c).storageRoot then now[c := AccountIn(now, c).(storageRoot := trie)] else now
  }

  lemma OneContract(before: map<Address, Account>, slots: Slots, done: set<Address>, c: Address, trie: Trie, h: Hash)
    requires c !in done && trie == OverlayTrie(AccountIn(before, c).storageRoot, slots, c) && h in trie
    ensures Restored(Accounts2(before, slots, done), c, trie) == Accounts2(before, slots, done + {c})
  {
    var now := Accounts2(before, slots, done);
    assert AccountIn(now, c) == AccountIn(before, c);
    RestoredAt(now, c, trie, h);
    var next, spec := Restored(now, c, trie), Accounts2(before, slots, done + {c});
    assert next.Keys == spec.Keys;
    forall a | a in spec ensures next[a] == spec[a] {
      assert a != c ==> (a in done + {c} <==> a in done);
    }
  }

  /** A rebuilt trie has a leaf, so even an account that did not exist is stored. */
  lemma RestoredAt(now: map<Address, Account>, c: Address, trie: Trie, h: Hash)
    requires h in trie
    ensures Restored(now, c, trie) == now[c := AccountIn(now, c).(storageRoot := trie)]
  {
    if trie == AccountIn(now, c).storageRoot {
      assert c in now;
      assert now[c := now[c]] == now;
    }
  }

  lemma UnlistedTrie(t: Trie, slots: Slots, c: Address)
    requires c !in StorageAddresses(slots)
    ensures OverlayTrie(t, slots, c) == t
  {
    assert SlotsAt(slots, c) == {};
    forall p | p in slots ensures p.0 != c { assert p.0 in StorageAddresses(slots); }
    assert forall s :: (c, s) !in slots;
  }

  lemma TwoPhases(H: Bytes -> Hash, w: World, m: Writes, slots: Slots, codes: map<Hash, Bytes>, now: World)
    requires Injective(H, m) && AfterPhase1(H, w, m, slots, codes, now)
    ensures now.(accounts := Accounts2(now.accounts, slots, StorageAddresses(slots))) == Overlay(H, w, m)
  {
    SlotsUnique(H, m, slots);
    CodesUnique(H, m, codes);
    TwoPhaseAccounts(H, w.accounts, m, slots);
  }

  lemma TwoPhaseAccounts(H: Bytes -> Hash, before: map<Address, Account>, m: Writes, slots: Slots)
    ensures Accounts2(Accounts1(H, before, m), slots, StorageAddresses(slots))
            == OverlayAccounts(H, before, m, slots)
  {
    var mid := Accounts1(H, before, m);
    var x, y := Accounts2(mid, slots, StorageAddresses(slots)), OverlayAccounts(H, before, m, slots);
    forall a ensures (a in x <==> a in y) && (a in x ==> x[a] == y[a]) {
      if a !in mid { UntouchedFields(H, m, a, AccountIn(before, a)); }
      if a !in StorageAddresses(slots) { UnlistedTrie(AccountIn(before, a).storageRoot, slots, a); }
    }
  }

  // ---- the code ----------------------------------------------------------------------

  class WorldState {
    var accounts: map<Address, Account>
    var flat: map<(Address, Hash), Bytes>
    var code: map<Hash, Bytes>

    function View(): World
      reads this
    {
      World(accounts, flat, code)
    }

    constructor (w: World)
      ensures View() == w
    {
      accounts, flat, code := w.accounts, w.flat, w.code;
    }

    method PutCode(h: Hash, bytecode: Bytes)
      modifies this
      ensures accounts == old(accounts) && flat == old(flat)
      ensures code == if h in old(code) then old(code) else old(code)[h := bytecode]
    {
      if h !in code { code := code[h := bytecode]; }
    }

    /** Balance, nonce and code writes; any other pair is skipped. */
    method ApplyOneWrite(H: Bytes -> Hash, key: StateKey, value: StateValue)
      modifies this
      ensures accounts == AccountsStep(H, old(accounts), key, value)
      ensures flat == old(flat) && code == CodeStep(H, old(code), key, value)
    {
      match (key, value)
      case (BalanceKey(addr), BalanceValue(amount)) =>
        accounts := accounts[addr := AccountIn(accounts, addr).(balance := amount)];
      case (NonceKey(addr), NonceValue(nonce)) =>
        accounts := accounts[addr := AccountIn(accounts, addr).(nonce := nonce)];
      case (CodeKey(addr), CodeValue(Some(bytecode))) =>
        PutCode(H(bytecode), bytecode);
        accounts := accounts[addr := AccountIn(accounts, addr).(codeHash := H(bytecode))];
      case (CodeKey(addr), CodeValue(None)) =>
        accounts := accounts[addr := AccountIn(accounts, addr).(codeHash := 0)];
      case _ =>
    }

    method CollectOne(H: Bytes -> Hash, changes: Changes, k: StateKey, v: StateValue) returns (more: Changes)
      modifies this
      ensures View() == Step1(H, old(View()), k, v)
      ensures more == if k.StorageKey? && v.StorageValue?
                      then Pushed(changes, k.contract, (H(k.slotKey), v.slot))
                      else changes
    {
      more := changes;
      match (k, v)
      case (StorageKey(contract, slotKey), StorageValue(val)) =>
        var slot := H(slotKey);
        match val {
          case Some(x) => flat := flat[(contract, slot) := x];
          case None => flat := flat - {(contract, slot)};
        }
        more := Pushed(changes, contract, (slot, val));
      case _ =>
        ApplyOneWrite(H, k, v);
    }

    /** Phase 1: field writes at once, slots into flat storage and onto the change list. */
    method Collect(H: Bytes -> Hash, writes: Writes, order: seq<StateKey>)
      returns (changes: Changes, ghost slots: Slots, ghost codes: map<Hash, Bytes>)
      requires Injective(H, writes) && Enumerates(order, writes)
      modifies this
      ensures AfterPhase1(H, old(View()), writes, slots, codes, View())
      ensures Collects(changes, slots)
    {
      ghost var start := View();
      changes, slots, codes := map[], map[], map[];
      StartPhase1(H, start);
      ghost var m: Writes := Within(writes, order[..0]);
      for i := 0 to |order|
        invariant m == Within(writes, order[..i])
        invariant AfterPhase1(H, start, m, slots, codes, View())
        invariant Collects(changes, slots)
      {
        var k := order[i];
        var v := writes[k];
        WithinGrows(H, writes, order, i);
        Phase1Step(H, start, m, slots, codes, View(), k, v);
        if k.StorageKey? && v.StorageValue? {
          CollectsGrow(changes, slots, k.contract, H(k.slotKey), v.slot);
          slots := slots[SlotName(H, k) := v.slot];
        }
        changes := CollectOne(H, changes, k, v);
        codes, m := CodeStep(H, codes, k, v), m[k := v];
      }
      WithinAll(writes, order);
    }

    method RebuildOne(c: Address, changes: Changes, ghost slots: Slots, ghost before: map<Address, Account>,
                      ghost done: set<Address>)
      requires Collects(changes, slots) && c in changes && c !in done && accounts == Accounts2(before, slots, done)
      modifies this
      ensures accounts == Accounts2(before, slots, done + {c})
      ensures flat == old(flat) && code == old(code)
    {
      var account := AccountIn(accounts, c);
      assert account == AccountIn(before, c);
      CollectedLists(changes, slots, c);
      var trie := RebuildTrie(account.storageRoot, changes[c], slots, c);
      OneContract(before, slots, done, c, trie, changes[c][0].0);
      if trie != account.storageRoot {
        accounts := accounts[c := account.(storageRoot := trie)];
      }
    }

    /** Phase 2: every changed contract's trie is rebuilt; the account is stored when its root moved. */
    method Rebuild(changes: Changes, ghost slots: Slots)
      requires Collects(changes, slots)
      modifies this
      ensures accounts == Accounts2(old(accounts), slots, StorageAddresses(slots))
      ensures flat == old(flat) && code == old(code)
    {
      ghost var before := accounts;
      NoContract(before, slots);
      ghost var done: set<Address> := {};
      var rest := changes.Keys;
      while rest != {}
        invariant rest <= changes.Keys && done == changes.Keys - rest
        invariant accounts == Accounts2(before, slots, done)
        invariant flat == old(flat) && code == old(code)
      {
        var c := First(rest);
        RebuildOne(c, changes, slots, before, done);
        rest, done := rest - {c}, done + {c};
      }
      ChangedContracts(changes, slots);
      assert done == StorageAddresses(slots);
    }

    /** Whatever the order of the writes, the world becomes the overlay. */
    method ApplyWrites(H: Bytes -> Hash, writes: Writes, order: seq<StateKey>) returns (root: map<Address, Account>)
      requires Injective(H, writes) && Enumerates(order, writes)
      modifies this
      ensures View() == Overlay(H, old(View()), writes)
      ensures root == accounts
    {
      if |writes| == 0 {
        NothingWritten(H, View(), writes);
        return accounts;
      }
      ghost var start := View();
      var changes, slots, codes := Collect(H, writes, order);
      TwoPhases(H, start, writes, slots, codes, View());
      Rebuild(changes, slots);
      root := accounts;
    }
  }

  /** An enumeration of the write set's keys, each once. */
  ghost predicate Enumerates(order: seq<StateKey>, m: Writes) {
    && (forall k :: k in m <==> k in order)
    && (forall i, j :: 0 <= i < j < |order| ==> order[i] != order[j])
  }

  ghost function Within(m: Writes, keys: seq<StateKey>): Writes { map k | k in m && k in keys :: m[k] }

  lemma WithinGrows(H: Bytes -> Hash, m: Writes, order: seq<StateKey>, i: nat)
    requires Enumerates(order, m) && i < |order| && Injective(H, m)
    ensures order[i] in m && order[i] !in Within(m, order[..i])
    ensures Within(m, order[..i + 1]) == Within(m, order[..i])[order[i] := m[order[i]]]
    ensures Injective(H, Within(m, order[..i + 1]))
  {
    assert order[..i + 1] == order[..i] + [order[i]];
    InjectiveWithin(H, Within(m, order[..i + 1]), m);
  }

  lemma WithinAll(m: Writes, order: seq<StateKey>)
    requires Enumerates(order, m)
    ensures Within(m, order[..|order|]) == m
  {
    assert order[..|order|] == order;
  }

  lemma NoContract(accounts: map<Address, Account>, slots: Slots)
    ensures Accounts2(accounts, slots, {}) == accounts
  {}

  lemma StartPhase1(H: Bytes -> Hash, w: World)
    ensures AfterPhase1(H, w, map[], map[], map[], w)
    ensures Collects(map[], map[])
  {
    var none: Writes := map[];
    var empty: map<Hash, Bytes> := map[];
    assert forall a :: !FieldTouched(none, a);
    forall a | a in w.accounts ensures FieldsOf(H, none, a, AccountIn(w.accounts, a)) == w.accounts[a] {
      UntouchedFields(H, none, a, w.accounts[a]);
    }
    assert Accounts1(H, w.accounts, none) == w.accounts;
    assert OverlayFlat(w.flat, map[]) == w.flat;
    assert empty + w.code == w.code;
  }

  lemma NothingWritten(H: Bytes -> Hash, w: World, m: Writes)
    requires |m| == 0
    ensures Overlay(H, w, m) == w
  {
    assert m == map[];
    StartPhase1(H, w);
    TwoPhases(H, w, m, map[], map[], w);
    assert StorageAddresses(map[]) == {};
    NoContract(w.accounts, map[]);
  }

  /** Nobody else is touched: an address with no field write and no slot write keeps its account. */
  lemma UnwrittenKept(H: Bytes -> Hash, w: World, m: Writes, a: Address)
    requires Injective(H, m) && !FieldTouched(m, a)
    requires forall k :: k in m && k.StorageKey? ==> k.contract != a
    ensures a in Overlay(H, w, m).accounts <==> a in w.accounts
    ensures a in w.accounts ==> Overlay(H, w, m).accounts[a] == w.accounts[a]
  {
    var slots := SlotsOf(H, m);
    forall p | p in slots ensures p.0 != a {
      assert exists k :: k in m && WritesSlot(m, k) && SlotName(H, k) == p;
    }
    UntouchedFields(H, m, a, AccountIn(w.accounts, a));
    UnlistedTrie(AccountIn(w.accounts, a).storageRoot, slots, a);
  }

  /** Code stays stored under its own hash, and a written code hash resolves. */
  lemma ContentAddressed(H: Bytes -> Hash, w: World, m: Writes)
    requires Injective(H, m) && forall h :: h in w.code ==> H(w.code[h]) == h
    ensures var code := Overlay(H, w, m).code; forall h :: h in code ==> H(code[h]) == h
    ensures var code := Overlay(H, w, m).code; forall k :: WritesCode(m, k) ==> H(m[k].code.value) in code
  {
    CodesByHash(H, m, CodesOf(H, m));
  }

  lemma CodesByHash(H: Bytes -> Hash, m: Writes, codes: map<Hash, Bytes>)
    requires Injective(H, m) && codes == CodesOf(H, m)
    ensures forall h :: h in codes ==> H(codes[h]) == h
    ensures forall k :: WritesCode(m, k) ==> H(m[k].code.value) in codes
  {}

  // ---- flat storage and tries --------------------------------------------------------

  function FlatRead(flat: map<(Address, Hash), Bytes>, c: Address, s: Hash): Option<Bytes> {
    if (c, s) in flat then Some(flat[(c, s)]) else None
  }

  /** A trie read with empty leaves taken for deleted slots. */
  function TrieRead(accounts: map<Address, Account>, c: Address, s: Hash): Option<Bytes> {
    Present(AccountIn(accounts, c).storageRoot, s)
  }

  function Present(t: Trie, s: Hash): Option<Bytes> { if s in t && t[s] != [] then Some(t[s]) else None }

  ghost predicate StoresAgree(flat: map<(Address, Hash), Bytes>, accounts: map<Address, Account>) {
    forall c, s :: FlatRead(flat, c, s) == TrieRead(accounts, c, s)
  }

  predicate NoEmptyValue(m: Writes) {
    forall k :: k in m ==> !(WritesSlot(m, k) && m[k].slot == Some([]))
  }

  lemma OverlayTrieReads(t: Trie, slots: Slots, c: Address, s: Hash)
    ensures Present(OverlayTrie(t, slots, c), s)
            == if (c, s) in slots then (if slots[(c, s)] == Some([]) then None else slots[(c, s)]) else Present(t, s)
  {
    if (c, s) in slots { assert (c, s).1 in SlotsAt(slots, c); }
  }

  lemma OverlayRoot(H: Bytes -> Hash, before: map<Address, Account>, m: Writes, slots: Slots, c: Address)
    ensures AccountIn(OverlayAccounts(H, before, m, slots), c).storageRoot
        == OverlayTrie(AccountIn(before, c).storageRoot, slots, c)
  {
    if c !in OverlayAccounts(H, before, m, slots) {
      UnlistedTrie(AccountIn(before, c).storageRoot, slots, c);
    }
  }

  lemma AgreementBySlots(H: Bytes -> Hash, flat: map<(Address, Hash), Bytes>, before: map<Address, Account>,
                         m: Writes, slots: Slots)
    requires StoresAgree(flat, before)
    ensures StoresAgree(OverlayFlat(flat, slots), OverlayAccounts(H, before, m, slots))
            <==> forall p :: p in slots ==> slots[p] != Some([])
  {
    var flat', after := OverlayFlat(flat, slots), OverlayAccounts(H, before, m, slots);
    forall c: Address, s: Hash
      ensures FlatRead(flat', c, s) == TrieRead(after, c, s) <==> !((c, s) in slots && slots[(c, s)] == Some([]))
    {
      OverlayRoot(H, before, m, slots, c);
      OverlayTrieReads(AccountIn(before, c).storageRoot, slots, c, s);
      assert FlatRead(flat, c, s) == TrieRead(before, c, s);
    }
    forall p | p in slots && slots[p] == Some([]) ensures FlatRead(flat', p.0, p.1) != TrieRead(after, p.0, p.1) {
      assert p == (p.0, p.1);
    }
  }

  /** Flat storage and tries stay in agreement exactly when no write stores an empty value. */
  lemma AgreementKeptIff(H: Bytes -> Hash, w: World, m: Writes)
    requires Injective(H, m) && StoresAgree(w.flat, w.accounts)
    ensures var next := Overlay(H, w, m); StoresAgree(next.flat, next.accounts) <==> NoEmptyValue(m)
  {
    var slots := SlotsOf(H, m);
    AgreementBySlots(H, w.flat, w.accounts, m, slots);
    EmptySlots(H, m);
  }

  lemma EmptySlots(H: Bytes -> Hash, m: Writes)
    requires Injective(H, m)
    ensures (forall p :: p in SlotsOf(H, m) ==> SlotsOf(H, m)[p] != Some([])) <==> NoEmptyValue(m)
  {
    var slots := SlotsOf(H, m);
    forall k | WritesSlot(m, k) ensures SlotName(H, k) in slots && slots[SlotName(H, k)] == m[k].slot {}
  }
}
