/** The committee of one epoch: `lemma-core/src/validator_set.rs` and `validator.rs`. */
module Committee {
  import opened Primitives
  import opened Ordered
  import opened Weights

  datatype ConsensusKey = ConsensusKey(classical: seq<Byte>, quantum: seq<Byte>)

  datatype Status = Unbonded | Bonded | Unbonding

  /** The fields of a validator record that the committee and the rewards read or write. */
  datatype Validator = Validator(
    key: ConsensusKey, status: Status, tombstoned: bool, jailedUntil: Option<nat>,
    activeStake: nat, delegated: nat)

  datatype Member = Member(key: ConsensusKey, power: nat)

  datatype ValidatorSet = ValidatorSet(epoch: nat, members: map<Address, Member>, totalPower: nat)

  datatype CoreError = PowerOverflow(address: Address) | EmptyValidatorSet(epoch: nat)

  predicate IsActive(v: Validator) {
    v.status == Bonded && !v.tombstoned && v.jailedUntil.None?
  }

  /** Bonded, and neither barred for ever nor in jail for any time. */
  predicate Serves(v: Validator) {
    match v
    case Validator(_, Bonded, false, None, _, _) => true
    case _ => false
  }

  function Powers(members: map<Address, Member>): map<Address, nat> {
    map a | a in members :: members[a].power
  }

  /** The power of a set of committee members. */
  ghost function Power(vset: ValidatorSet, s: set<Address>): nat
    requires s <= vset.members.Keys
  {
    Total(Powers(vset.members), s)
  }

  /** The cached total is the sum of the members' powers and fits in `u128`. */
  ghost predicate WellFormed(vset: ValidatorSet) {
    vset.totalPower == Power(vset, vset.members.Keys) <= U128_MAX
  }

  /** The members the active validators contribute. */
  ghost function ActiveMembers(validators: map<Address, Validator>): map<Address, Member> {
    map a | a in validators && IsActive(validators[a])
      :: Member(validators[a].key, validators[a].activeStake + validators[a].delegated)
  }

  /** The members are exactly the validators that serve, each with its key and its own and delegated
      stake together. */
  lemma MembersServe(validators: map<Address, Validator>)
    ensures forall a :: a in ActiveMembers(validators) <==> a in validators && Serves(validators[a])
    ensures forall a :: a in ActiveMembers(validators) ==>
              && ActiveMembers(validators)[a].key == validators[a].key
              && ActiveMembers(validators)[a].power == validators[a].activeStake + validators[a].delegated
    ensures ActiveMembers(validators) == map[] <==> forall a :: a in validators ==> !Serves(validators[a])
  {
    forall v ensures IsActive(v) <==> Serves(v) {}
  }

  /** The power each validator contributes: none unless it is active. */
  ghost function Contribution(validators: map<Address, Validator>): (w: map<Address, nat>)
    ensures w.Keys == validators.Keys
  {
    map a | a in validators ::
      if IsActive(validators[a]) then validators[a].activeStake + validators[a].delegated else 0
  }

  lemma {:induction false} TotalOfZeros(w: map<Address, nat>, s: set<Address>)
    requires s <= w.Keys && forall a :: a in s ==> w[a] == 0
    ensures Total(w, s) == 0
  {
    if s != {} {
      var x :| x in s;
      TotalRemove(w, s, x);
      TotalOfZeros(w, s - {x});
    }
  }

  /** The members' powers sum to all contributions. */
  lemma MembersCarryAll(validators: map<Address, Validator>)
    ensures var members := ActiveMembers(validators);
            Total(Powers(members), members.Keys) == Total(Contribution(validators), validators.Keys)
  {
    var w, members := Contribution(validators), ActiveMembers(validators);
    TotalAgree(w, Powers(members), members.Keys);
    TotalOfZeros(w, validators.Keys - members.Keys);
    TotalDisjoint(w, members.Keys, validators.Keys - members.Keys);
    assert members.Keys + (validators.Keys - members.Keys) == validators.Keys;
  }

  /** The running sum in address order first leaves `u128` at `a`. */
  ghost predicate OverflowsAt(w: map<Address, nat>, a: Address) {
    && a in w
    && Total(w, set b | b in w && b < a) <= U128_MAX
    && Total(w, set b | b in w && b <= a) > U128_MAX
  }

  lemma OverflowPoint(w: map<Address, nat>, a: Address, done: set<Address>)
    requires a in w && done == set b | b in w && b < a
    requires Total(w, done) <= U128_MAX < Total(w, done + {a})
    ensures OverflowsAt(w, a)
    ensures Total(w, w.Keys) > U128_MAX
  {
    assert done + {a} == set b | b in w && b <= a;
    TotalMonotone(w, done + {a}, w.Keys);
  }

  /** The members contributed by the validators already visited. */
  ghost function MembersAmong(validators: map<Address, Validator>, done: set<Address>): map<Address, Member> {
    map a | a in validators && IsActive(validators[a]) && a in done
      :: Member(validators[a].key, validators[a].activeStake + validators[a].delegated)
  }

  lemma MembersStep(validators: map<Address, Validator>, done: set<Address>, a: Address)
    requires a in validators && a !in done
    ensures MembersAmong(validators, done + {a})
            == if IsActive(validators[a])
               then MembersAmong(validators, done)
                      [a := Member(validators[a].key, validators[a].activeStake + validators[a].delegated)]
               else MembersAmong(validators, done)
  {
  }

  /** Build the committee from the active validators.

      It succeeds exactly when some validator is active and their powers sum to a `u128`, and
      then the cached total is that sum. On overflow the reported address is the first, in
      address order, at which the running sum leaves `u128`. */
  method FromActiveValidators(epoch: nat, validators: map<Address, Validator>)
    returns (r: Result<ValidatorSet, CoreError>)
    ensures r.Ok? <==> ActiveMembers(validators) != map[]
                       && Total(Contribution(validators), validators.Keys) <= U128_MAX
    ensures r.Ok? ==> r.value.epoch == epoch && r.value.members == ActiveMembers(validators) && WellFormed(r.value)
    ensures r == Err(EmptyValidatorSet(epoch)) <==> ActiveMembers(validators) == map[]
    ensures r.Err? && r.error.PowerOverflow? ==> OverflowsAt(Contribution(validators), r.error.address)
  {
    var members: map<Address, Member> := map[];
    var total := 0;
    var rest := validators.Keys;
    ghost var done: set<Address>, w := {}, Contribution(validators);
    while rest != {}
      invariant done !! rest && done + rest == validators.Keys
      invariant forall x, y :: x in done && y in rest ==> x < y
      invariant members == MembersAmong(validators, done)
      invariant total == Total(w, done) <= U128_MAX
    {
      var a := First(rest);
      TotalAdd(w, done, a);
      MembersStep(validators, done, a);
      if IsActive(validators[a]) {
        var power := CheckedAdd(validators[a].activeStake, validators[a].delegated);
        var sum := if power.None? then None else CheckedAdd(total, power.value);
        if sum.None? {
          OverflowPoint(w, a, done);
          assert a in ActiveMembers(validators);
          return Err(PowerOverflow(a));
        }
        total := sum.value;
        members := members[a := Member(validators[a].key, power.value)];
      }
      done, rest := done + {a}, rest - {a};
    }
    assert done == validators.Keys;
    assert members == ActiveMembers(validators);
    MembersCarryAll(validators);
    if members == map[] {
      return Err(EmptyValidatorSet(epoch));
    }
    r := Ok(ValidatorSet(epoch, members, total));
  }
}
