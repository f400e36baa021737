/** What a block's writes leave in the world state, address by address and slot by slot, with the
    defaults of a new account written out: `lemma-node/src/block_exec.rs` and
    `lemma-storage/src/account.rs`. */
module WorldLaws {
  import opened Primitives
  import opened Weights
  import opened Committee
  import opened BlockExec

  predicate WritesNonce(m: Writes, a: Address) { NonceKey(a) in m && m[NonceKey(a)].NonceValue? }

  predicate WritesBalance(m: Writes, a: Address) { BalanceKey(a) in m && m[BalanceKey(a)].BalanceValue? }

  predicate WritesCodeOf(m: Writes, a: Address) { CodeKey(a) in m && m[CodeKey(a)].CodeValue? }

  predicate WritesSlotOf(m: Writes, a: Address, x: Bytes) {
    StorageKey(a, x) in m && m[StorageKey(a, x)].StorageValue?
  }

  ghost predicate Written(m: Writes, a: Address) {
    WritesNonce(m, a) || WritesBalance(m, a) || WritesCodeOf(m, a) || exists x :: WritesSlotOf(m, a, x)
  }

  /** Each field is the written one, or the old one, or zero for an account that did not exist. */
  ghost predicate FieldsAre(H: Bytes -> Hash, w: World, m: Writes, a: Address, acct: Account) {
    && acct.nonce == (if WritesNonce(m, a) then m[NonceKey(a)].nonce
                      else if a in w.accounts then w.accounts[a].nonce else 0)
    && acct.balance == (if WritesBalance(m, a) then m[BalanceKey(a)].amount
                        else if a in w.accounts then w.accounts[a].balance else 0)
    && acct.codeHash == (if WritesCodeOf(m, a)
                         then (if m[CodeKey(a)].code.Some? then H(m[CodeKey(a)].code.value) else 0)
                         else if a in w.accounts then w.accounts[a].codeHash else 0)
    && acct.staked == (if a in w.accounts then w.accounts[a].staked else 0)
  }

  lemma SlotOfWrite(H: Bytes -> Hash, m: Writes, a: Address, x: Bytes)
    requires Injective(H, m) && WritesSlotOf(m, a, x)
    ensures (a, H(x)) in SlotsOf(H, m) && SlotsOf(H, m)[(a, H(x))] == m[StorageKey(a, x)].slot
  {
    assert WritesSlot(m, StorageKey(a, x)) && SlotName(H, StorageKey(a, x)) == (a, H(x));
  }

  lemma WriteOfSlot(H: Bytes -> Hash, m: Writes, a: Address, s: Hash) returns (x: Bytes)
    requires Injective(H, m) && (a, s) in SlotsOf(H, m)
    ensures WritesSlotOf(m, a, x) && H(x) == s
  {
    var k :| k in m && WritesSlot(m, k) && SlotName(H, k) == (a, s);
    assert k == StorageKey(a, k.slotKey);
    x := k.slotKey;
  }

  lemma WrittenIff(H: Bytes -> Hash, m: Writes, a: Address)
    requires Injective(H, m)
    ensures Written(m, a) <==> a in FieldAddresses(m) + StorageAddresses(SlotsOf(H, m))
  {
    var slots := SlotsOf(H, m);
    if x :| WritesSlotOf(m, a, x) {
      SlotOfWrite(H, m, a, x);
      assert (a, H(x)).0 in StorageAddresses(slots);
    }
    if a in StorageAddresses(slots) {
      var p :| p in slots && p.0 == a;
      var x := WriteOfSlot(H, m, a, p.1);
    }
  }

  /** An address has an account afterwards exactly when it had one or is written, and its fields are
      the written ones over the old ones or zeros. */
  lemma AccountExact(H: Bytes -> Hash, w: World, m: Writes, a: Address)
    requires Injective(H, m)
    ensures a in Overlay(H, w, m).accounts <==> a in w.accounts || Written(m, a)
    ensures a in Overlay(H, w, m).accounts ==> FieldsAre(H, w, m, a, Overlay(H, w, m).accounts[a])
  {
    WrittenIff(H, m, a);
    FieldsExact(H, w, m, a, SlotsOf(H, m));
  }

  lemma FieldsExact(H: Bytes -> Hash, w: World, m: Writes, a: Address, slots: Slots)
    ensures a in OverlayAccounts(H, w.accounts, m, slots) ==>
              FieldsAre(H, w, m, a, OverlayAccounts(H, w.accounts, m, slots)[a])
  {
    assert SetsField(m, NonceKey(a)) <==> WritesNonce(m, a);
    assert SetsField(m, BalanceKey(a)) <==> WritesBalance(m, a);
    assert SetsField(m, CodeKey(a)) <==> WritesCodeOf(m, a);
  }

  /** What the storage trie held, an account that did not exist having an empty one. */
  function TrieOf(w: World, a: Address): Trie { if a in w.accounts then w.accounts[a].storageRoot else map[] }

  /** A written slot holds its value, or an empty leaf when it was deleted, in the trie; in flat storage
      a deleted slot is gone. */
  lemma SlotWritten(H: Bytes -> Hash, w: World, m: Writes, a: Address, x: Bytes)
    requires Injective(H, m) && WritesSlotOf(m, a, x)
    ensures var (after, slot) := (Overlay(H, w, m), m[StorageKey(a, x)].slot);
            && a in after.accounts && H(x) in after.accounts[a].storageRoot
            && after.accounts[a].storageRoot[H(x)] == (if slot.Some? then slot.value else [])
            && ((a, H(x)) in after.flat <==> slot.Some?)
            && (slot.Some? ==> after.flat[(a, H(x))] == slot.value)
  {
    AccountExact(H, w, m, a);
    SlotOfWrite(H, m, a, x);
    assert (a, H(x)).1 in SlotsAt(SlotsOf(H, m), a);
  }

  /** A slot that is not written stays as it was, in the trie and in flat storage. */
  lemma SlotKept(H: Bytes -> Hash, w: World, m: Writes, a: Address, s: Hash)
    requires Injective(H, m) && forall x :: WritesSlotOf(m, a, x) ==> H(x) != s
    ensures var after := Overlay(H, w, m);
            && (s in TrieOf(after, a) <==> s in TrieOf(w, a))
            && (s in TrieOf(w, a) ==> TrieOf(after, a)[s] == TrieOf(w, a)[s])
            && ((a, s) in after.flat <==> (a, s) in w.flat)
            && ((a, s) in w.flat ==> after.flat[(a, s)] == w.flat[(a, s)])
  {
    var slots := SlotsOf(H, m);
    if (a, s) in slots {
      var x := WriteOfSlot(H, m, a, s);
    }
    AccountExact(H, w, m, a);
    WrittenIff(H, m, a);
    OverlayRoot(H, w.accounts, m, slots, a);
    UnwrittenLeaf(TrieOf(w, a), slots, a, s);
  }

  lemma UnwrittenLeaf(t: Trie, slots: Slots, a: Address, s: Hash)
    requires (a, s) !in slots
    ensures s in OverlayTrie(t, slots, a) <==> s in t
    ensures s in t ==> OverlayTrie(t, slots, a)[s] == t[s]
  {
    assert s !in SlotsAt(slots, a);
  }

  /** The trie of an account that is made by the writes has exactly the written slots. */
  lemma NewTrie(H: Bytes -> Hash, w: World, m: Writes, a: Address, s: Hash)
    requires Injective(H, m) && a !in w.accounts
    ensures s in TrieOf(Overlay(H, w, m), a) <==> exists x :: WritesSlotOf(m, a, x) && H(x) == s
  {
    if x :| WritesSlotOf(m, a, x) && H(x) == s { SlotWritten(H, w, m, a, x); } else { SlotKept(H, w, m, a, s); }
  }

  /** Such an account has what is written and nothing else: zero for each field not written, no stake,
      and a trie of exactly the written slots. */
  lemma NewAccount(H: Bytes -> Hash, w: World, m: Writes, a: Address)
    requires Injective(H, m) && a !in w.accounts && Written(m, a)
    ensures var after := Overlay(H, w, m).accounts;
            && a in after && after[a].staked == 0
            && after[a].nonce == (if WritesNonce(m, a) then m[NonceKey(a)].nonce else 0)
            && after[a].balance == (if WritesBalance(m, a) then m[BalanceKey(a)].amount else 0)
            && (!WritesCodeOf(m, a) ==> after[a].codeHash == 0)
            && forall s :: s in after[a].storageRoot <==> exists x :: WritesSlotOf(m, a, x) && H(x) == s
  {
    AccountExact(H, w, m, a);
    forall s ensures s in TrieOf(Overlay(H, w, m), a) <==> exists x :: WritesSlotOf(m, a, x) && H(x) == s {
      NewTrie(H, w, m, a, s);
    }
  }

  lemma WriteOfCode(H: Bytes -> Hash, m: Writes, h: Hash) returns (a: Address)
    requires Injective(H, m) && h in CodesOf(H, m)
    ensures WritesCodeOf(m, a) && m[CodeKey(a)].code == Some(CodesOf(H, m)[h]) && H(CodesOf(H, m)[h]) == h
  {
    var k :| k in m && WritesCode(m, k) && H(m[k].code.value) == h;
    a := k.addr;
    assert k == CodeKey(a);
  }

  /** Stored code is never replaced, and whatever is new was written under its hash. */
  lemma CodeExact(H: Bytes -> Hash, w: World, m: Writes, h: Hash)
    requires Injective(H, m)
    ensures var code := Overlay(H, w, m).code;
            && (h in w.code ==> h in code && code[h] == w.code[h])
            && (h in code && h !in w.code ==>
                  exists a :: WritesCodeOf(m, a) && m[CodeKey(a)].code == Some(code[h]) && H(code[h]) == h)
  {
    var code := Overlay(H, w, m).code;
    if h in code && h !in w.code {
      var a := WriteOfCode(H, m, h);
      assert m[CodeKey(a)].code == Some(code[h]);
    }
  }

  /** Every written code is stored. */
  lemma CodeStored(H: Bytes -> Hash, w: World, m: Writes, a: Address)
    requires Injective(H, m) && WritesCodeOf(m, a) && m[CodeKey(a)].code.Some?
    ensures H(m[CodeKey(a)].code.value) in Overlay(H, w, m).code
  {
    assert WritesCode(m, CodeKey(a));
    CodesByHash(H, m, CodesOf(H, m));
  }

  // ---- the money ---------------------------------------------------------------------

  function Balances(accounts: map<Address, Account>): map<Address, nat> {
    map a | a in accounts :: accounts[a].balance
  }

  function BalanceKeys(m: Writes): (s: set<Address>)
    ensures forall a :: a in s <==> WritesBalance(m, a)
  {
    var s := set k | k in m && k.BalanceKey? && m[k].BalanceValue? :: k.addr;
    assert forall a :: WritesBalance(m, a) ==> a in s by {
      forall a | WritesBalance(m, a) ensures a in s { assert BalanceKey(a) in m; }
    }
    s
  }

  /** The balances that are written. */
  function WrittenBalances(m: Writes): map<Address, nat> {
    map a | a in BalanceKeys(m) :: m[BalanceKey(a)].amount
  }

  ghost function Money(accounts: map<Address, Account>): nat { Total(Balances(accounts), accounts.Keys) }

  /** No money comes from nowhere: afterwards there are the written balances and the old balances of
      the addresses without a balance write. */
  lemma MoneyExact(H: Bytes -> Hash, w: World, m: Writes)
    requires Injective(H, m)
    ensures Money(Overlay(H, w, m).accounts)
            == Total(WrittenBalances(m), BalanceKeys(m)) + Total(Balances(w.accounts), w.accounts.Keys - BalanceKeys(m))
  {
    var after := Overlay(H, w, m).accounts;
    forall a ensures BalanceIs(w.accounts, m, a, after) {
      AccountExact(H, w, m, a);
    }
    MoneyOf(w.accounts, m, after);
  }

  /** The balance of an address is the written one, the old one or zero. */
  ghost predicate BalanceIs(before: map<Address, Account>, m: Writes, a: Address, after: map<Address, Account>) {
    && (a in before || WritesBalance(m, a) ==> a in after)
    && (a in after ==> after[a].balance == if WritesBalance(m, a) then m[BalanceKey(a)].amount
                                           else if a in before then before[a].balance else 0)
  }

  lemma MoneyOf(before: map<Address, Account>, m: Writes, after: map<Address, Account>)
    requires forall a :: BalanceIs(before, m, a, after)
    ensures Money(after)
            == Total(WrittenBalances(m), BalanceKeys(m)) + Total(Balances(before), before.Keys - BalanceKeys(m))
  {
    var written, kept := BalanceKeys(m), before.Keys - BalanceKeys(m);
    assert written <= after.Keys && kept <= after.Keys by {
      forall a | a in written + kept ensures a in after { assert BalanceIs(before, m, a, after); }
    }
    var made, all := after.Keys - written - kept, Balances(after);
    forall a | a in after ensures BalanceIs(before, m, a, after) {}
    TotalAgree(WrittenBalances(m), all, written);
    TotalAgree(Balances(before), all, kept);
    TotalOfZeros(all, made);
    TotalDisjoint(all, written, kept);
    TotalDisjoint(all, written + kept, made);
    assert written + kept + made == after.Keys;
  }
}
