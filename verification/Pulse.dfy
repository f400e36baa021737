/** The Pulse commit rule, `lemma-consensus/src/pulse/committer.rs`, over the DAG that
    `dag/graph.rs` accepts: what two nodes with different views of it can decide. */
module Pulse {
  import opened Primitives
  import opened Weights
  import opened Stake
  import opened Committee
  import Certificates
  import Reputation

  const WAVE_LENGTH: nat := 3

  datatype Slot = Slot(round: nat, author: Address)

  datatype Block = Block(ref: DagBlockRef, ancestors: seq<DagBlockRef>)

  /** Rounds up to `gcRound` have been dropped. */
  datatype Dag = Dag(blocks: map<DagBlockRef, Block>, bySlot: map<Slot, DagBlockRef>, gcRound: nat)

  datatype Status = Commit(leader: DagBlockRef) | Skip(slot: Slot) | Undecided(slot: Slot)

  datatype DecideError = Stake(cause: StakeError) | ByzantineInvariantBreach(first: Hash, second: Hash)

  predicate At(r: DagBlockRef, slot: Slot) { r.round == slot.round && r.author == slot.author }

  // ---- votes, certificates, blame --------------------------------------------------------

  /** The voter references the leader's block and no other block at its slot. */
  predicate Votes(voter: Block, slot: Slot, leader: DagBlockRef) {
    leader in voter.ancestors && At(leader, slot) && forall a :: a in voter.ancestors && At(a, slot) ==> a == leader
  }

  predicate Blames(voter: Block, slot: Slot) { forall a :: a in voter.ancestors ==> !At(a, slot) }

  ghost predicate QuorumOf(vset: ValidatorSet, s: set<Address>) {
    s <= vset.members.Keys && Exceeds(Power(vset, s), vset.totalPower, Quorum)
  }

  predicate IsVoter(a: DagBlockRef, slot: Slot, leader: DagBlockRef, dag: Dag, vset: ValidatorSet) {
    a.round == slot.round + 1 && a in dag.blocks && Votes(dag.blocks[a], slot, leader) && a.author in vset.members
  }

  ghost function Voters(refs: seq<DagBlockRef>, slot: Slot, leader: DagBlockRef, dag: Dag,
                        vset: ValidatorSet): set<Address> {
    set a | a in refs && IsVoter(a, slot, leader, dag, vset) :: a.author
  }

  /** A decision-round block whose voting-round ancestors carry a quorum of votes. */
  ghost predicate Certifies(b: Block, slot: Slot, leader: DagBlockRef, dag: Dag, vset: ValidatorSet) {
    QuorumOf(vset, Voters(b.ancestors, slot, leader, dag, vset))
  }

  predicate IsBlamer(r: DagBlockRef, slot: Slot, dag: Dag, vset: ValidatorSet) {
    r in dag.blocks && r.round == slot.round + 1 && r.author in vset.members && Blames(dag.blocks[r], slot)
  }

  ghost function Blamers(slot: Slot, dag: Dag, vset: ValidatorSet): set<Address> {
    set r | r in dag.blocks && IsBlamer(r, slot, dag, vset) :: r.author
  }

  ghost function AuthorsAt(round: nat, dag: Dag, vset: ValidatorSet): set<Address> {
    set r | r in dag.blocks && r.round == round && r.author in vset.members :: r.author
  }

  // ---- the decisions -----------------------------------------------------------------------

  ghost predicate CertifiedAt(slot: Slot, leader: DagBlockRef, dag: Dag, vset: ValidatorSet) {
    exists r :: r in dag.blocks && r.round == slot.round + 2 && Certifies(dag.blocks[r], slot, leader, dag, vset)
  }

  /** One certificate suffices, once the decision round holds a quorum of blocks. */
  ghost function Direct(slot: Slot, dag: Dag, vset: ValidatorSet): Status {
    if QuorumOf(vset, Blamers(slot, dag, vset)) then Skip(slot)
    else if slot in dag.bySlot && QuorumOf(vset, AuthorsAt(slot.round + 2, dag, vset))
            && CertifiedAt(slot, dag.bySlot[slot], dag, vset)
    then Commit(dag.bySlot[slot])
    else Undecided(slot)
  }

  /** The anchor references a certificate directly. */
  ghost predicate Linked(anchor: Block, slot: Slot, leader: DagBlockRef, dag: Dag, vset: ValidatorSet) {
    exists c :: c in anchor.ancestors && c.round == slot.round + 2 && c in dag.blocks
                && Certifies(dag.blocks[c], slot, leader, dag, vset)
  }

  ghost function ByAnchor(slot: Slot, anchor: DagBlockRef, dag: Dag, vset: ValidatorSet): Status {
    if anchor !in dag.blocks then Undecided(slot)
    else if slot in dag.bySlot && Linked(dag.blocks[anchor], slot, dag.bySlot[slot], dag, vset)
    then Commit(dag.bySlot[slot])
    else Skip(slot)
  }

  /** The nearest committed leader a wave or more above decides; `above` is nearest first. */
  ghost function Indirect(slot: Slot, above: seq<Status>, dag: Dag, vset: ValidatorSet): Status {
    if above == [] then Undecided(slot) else
      match above[0]
      case Commit(anchor) =>
        if anchor.round >= slot.round + WAVE_LENGTH then ByAnchor(slot, anchor, dag, vset) else Undecided(slot)
      case Skip(_) => Indirect(slot, above[1..], dag, vset)
      case Undecided(_) => Undecided(slot)
  }

  ghost function Decision(slot: Slot, above: seq<Status>, dag: Dag, vset: ValidatorSet): Status {
    var direct := Direct(slot, dag, vset);
    if direct.Undecided? then Indirect(slot, above, dag, vset) else direct
  }

  // ---- the decisions in terms of what the node has -------------------------------------------

  /** No quorum of blame, the block at the slot, a quorum of decision blocks and among all of them
      a certificate for the block. */
  ghost predicate CommitsDirectly(slot: Slot, leader: DagBlockRef, dag: Dag, vset: ValidatorSet) {
    && !QuorumOf(vset, Blamers(slot, dag, vset)) && slot in dag.bySlot && dag.bySlot[slot] == leader
    && QuorumOf(vset, AuthorsAt(slot.round + 2, dag, vset))
    && exists c :: c in dag.blocks && c.round == slot.round + 2 && Certifies(dag.blocks[c], slot, leader, dag, vset)
  }

  /** All the leaders nearer than the anchor were skipped, and it is three or more rounds up. */
  ghost predicate DecidedByAnchor(slot: Slot, above: seq<Status>, anchor: DagBlockRef, dag: Dag) {
    && anchor.round >= slot.round + 3 && anchor in dag.blocks
    && exists i :: 0 <= i < |above| && above[i] == Commit(anchor) && forall j :: 0 <= j < i ==> above[j].Skip?
  }

  /** Among the anchor's references is a decision block with a certificate for the block at the slot. */
  ghost predicate AnchorCommits(slot: Slot, leader: DagBlockRef, anchor: DagBlockRef, dag: Dag, vset: ValidatorSet) {
    && anchor in dag.blocks && slot in dag.bySlot && dag.bySlot[slot] == leader
    && exists c :: c in dag.blocks[anchor].ancestors && c.round == slot.round + 2 && c in dag.blocks
                   && Certifies(dag.blocks[c], slot, leader, dag, vset)
  }

  lemma DirectIff(slot: Slot, dag: Dag, vset: ValidatorSet)
    ensures Direct(slot, dag, vset).Skip? <==> QuorumOf(vset, Blamers(slot, dag, vset))
    ensures forall l :: Direct(slot, dag, vset) == Commit(l) <==> CommitsDirectly(slot, l, dag, vset)
    ensures !Direct(slot, dag, vset).Commit? ==> Direct(slot, dag, vset).slot == slot
  {
    forall l ensures Direct(slot, dag, vset) == Commit(l) <==> CommitsDirectly(slot, l, dag, vset) {
      if slot in dag.bySlot && l == dag.bySlot[slot] {
        assert CertifiedAt(slot, l, dag, vset)
            <==> exists c :: c in dag.blocks && c.round == slot.round + 2
                             && Certifies(dag.blocks[c], slot, l, dag, vset);
      }
    }
  }

  lemma {:induction false} IndirectIff(slot: Slot, above: seq<Status>, dag: Dag, vset: ValidatorSet)
    ensures forall l :: Indirect(slot, above, dag, vset) == Commit(l)
                        <==> exists a :: DecidedByAnchor(slot, above, a, dag) && AnchorCommits(slot, l, a, dag, vset)
    ensures Indirect(slot, above, dag, vset).Skip?
            <==> exists a :: DecidedByAnchor(slot, above, a, dag) && forall l :: !AnchorCommits(slot, l, a, dag, vset)
    ensures !Indirect(slot, above, dag, vset).Commit? ==> Indirect(slot, above, dag, vset).slot == slot
  {
    if above != [] && above[0].Skip? {
      IndirectIff(slot, above[1..], dag, vset);
      forall a ensures DecidedByAnchor(slot, above, a, dag) <==> DecidedByAnchor(slot, above[1..], a, dag) {
        AnchorFurther(slot, above, a, dag);
      }
    } else if above != [] && above[0].Commit? {
      var anchor := above[0].leader;
      assert forall a :: DecidedByAnchor(slot, above, a, dag) ==> a == anchor;
      if anchor.round >= slot.round + 3 && anchor in dag.blocks {
        assert DecidedByAnchor(slot, above, anchor, dag);
        ByAnchorIff(slot, anchor, dag, vset);
      }
    }
  }

  lemma AnchorFurther(slot: Slot, above: seq<Status>, anchor: DagBlockRef, dag: Dag)
    requires above != [] && above[0].Skip?
    ensures DecidedByAnchor(slot, above, anchor, dag) <==> DecidedByAnchor(slot, above[1..], anchor, dag)
  {
    if DecidedByAnchor(slot, above, anchor, dag) {
      var i :| 0 <= i < |above| && above[i] == Commit(anchor) && forall j :: 0 <= j < i ==> above[j].Skip?;
      assert above[1..][i - 1] == Commit(anchor);
    }
    if DecidedByAnchor(slot, above[1..], anchor, dag) {
      var i :| 0 <= i < |above| - 1 && above[1..][i] == Commit(anchor)
               && forall j :: 0 <= j < i ==> above[1..][j].Skip?;
      assert above[i + 1] == Commit(anchor);
      assert forall j :: 0 < j < i + 1 ==> above[j] == above[1..][j - 1];
    }
  }

  lemma ByAnchorIff(slot: Slot, anchor: DagBlockRef, dag: Dag, vset: ValidatorSet)
    requires anchor in dag.blocks
    ensures forall l :: ByAnchor(slot, anchor, dag, vset) == Commit(l) <==> AnchorCommits(slot, l, anchor, dag, vset)
    ensures ByAnchor(slot, anchor, dag, vset) == Skip(slot) <==> forall l :: !AnchorCommits(slot, l, anchor, dag, vset)
    ensures !ByAnchor(slot, anchor, dag, vset).Undecided?
  {
    forall l ensures ByAnchor(slot, anchor, dag, vset) == Commit(l) <==> AnchorCommits(slot, l, anchor, dag, vset) {}
    if ByAnchor(slot, anchor, dag, vset).Commit? {
      assert AnchorCommits(slot, dag.bySlot[slot], anchor, dag, vset);
    }
  }

  /** Every decision in terms of what the node has: commit and skip by direct rule, else by the
      nearest leader above that was not skipped, if that is a committed anchor. */
  lemma DecisionIff(slot: Slot, above: seq<Status>, dag: Dag, vset: ValidatorSet)
    ensures forall l :: Decision(slot, above, dag, vset) == Commit(l)
                        <==>
                   || CommitsDirectly(slot, l, dag, vset)
                   || (&& !QuorumOf(vset, Blamers(slot, dag, vset))
                       && (forall k :: !CommitsDirectly(slot, k, dag, vset))
                       && exists a :: DecidedByAnchor(slot, above, a, dag) && AnchorCommits(slot, l, a, dag, vset))
    ensures Decision(slot, above, dag, vset) == Skip(slot)
            <==> || QuorumOf(vset, Blamers(slot, dag, vset))
                 || (&& (forall k :: !CommitsDirectly(slot, k, dag, vset))
                     && exists a :: DecidedByAnchor(slot, above, a, dag)
                                    && forall l :: !AnchorCommits(slot, l, a, dag, vset))
    ensures !Decision(slot, above, dag, vset).Commit? ==> Decision(slot, above, dag, vset).slot == slot
  {
    DirectIff(slot, dag, vset);
    IndirectIff(slot, above, dag, vset);
    var direct := Direct(slot, dag, vset);
    if direct.Commit? { assert CommitsDirectly(slot, direct.leader, dag, vset); }
    assert !direct.Commit? ==> forall k :: !CommitsDirectly(slot, k, dag, vset);
  }

  /** `elect_leader`: round robin over the sorted committee, then the reputation swap. */
  function ElectLeader(order: seq<Address>, offset: nat, swaps: map<Address, Address>, round: nat): Slot
    requires order != []
  {
    Slot(round, Reputation.Swap(swaps, order[(round + offset) % (U64_MAX + 1) % |order|]))
  }

  /** The decisions of the leader rounds from `round` to `upper`, lowest first. */
  ghost function Leaders(leaderOf: nat -> Slot, round: nat, upper: nat, dag: Dag, vset: ValidatorSet): seq<Status>
    decreases if round <= upper then upper - round + 1 else 0
  {
    if round > upper then [] else
      var above := Leaders(leaderOf, round + 1, upper, dag, vset);
      if round % WAVE_LENGTH != 0 then above else [Decision(leaderOf(round), above, dag, vset)] + above
  }

  function DecidedPrefix(ss: seq<Status>): seq<Status> {
    if ss == [] || ss[0].Undecided? then [] else [ss[0]] + DecidedPrefix(ss[1..])
  }

  // ---- the code ------------------------------------------------------------------------------

  method FindSupportedBlock(slot: Slot, voter: Block) returns (found: Option<DagBlockRef>)
    ensures forall l :: found == Some(l) <==> Votes(voter, slot, l)
  {
    found := None;
    for i := 0 to |voter.ancestors|
      invariant found.None? ==> forall k :: 0 <= k < i ==> !At(voter.ancestors[k], slot)
      invariant found.Some? ==> found.value in voter.ancestors && At(found.value, slot)
      invariant found.Some? ==> forall k :: 0 <= k < i && At(voter.ancestors[k], slot) ==>
          voter.ancestors[k] == found.value
    {
      var a := voter.ancestors[i];
      if At(a, slot) {
        match found
        case None => found := Some(a);
        case Some(prev) =>
          if prev.digest != a.digest {
            assert a in voter.ancestors && prev in voter.ancestors;
            return None;
          }
      }
    }
  }

  lemma QuorumGrows(vset: ValidatorSet, s: set<Address>, t: set<Address>)
    requires s <= t <= vset.members.Keys && Exceeds(Power(vset, s), vset.totalPower, Quorum)
    ensures QuorumOf(vset, t)
  {
    TotalMonotone(Powers(vset.members), s, t);
  }

  /** Counting an author again or for the first time. */
  lemma CountAgain(vset: ValidatorSet, s: set<Address>, a: Address)
    requires s <= vset.members.Keys && a in vset.members && Power(vset, s) <= U128_MAX
    ensures var (t, r) := Counted(Certificates.TallyOf(vset, s), a, vset.members[a].power);
            && (r.Ok? ==> t == Certificates.TallyOf(vset, s + {a}) && r.value == t.reached)
            && (r.Ok? ==> Power(vset, s + {a}) <= U128_MAX)
            && (WellFormed(vset) ==> r.Ok?)
  {
    if a in s {
      assert s + {a} == s;
    } else {
      Certificates.CountMember(vset, s, a);
      TotalMonotone(Powers(vset.members), s + {a}, vset.members.Keys);
    }
  }

  lemma NobodyCounted(vset: ValidatorSet)
    ensures Certificates.TallyOf(vset, {}) == Fresh(Quorum, vset.totalPower) && Power(vset, {}) == 0
  {
  }

  method IsCertificate(b: Block, slot: Slot, leader: DagBlockRef, dag: Dag, vset: ValidatorSet)
    returns (r: Result<bool, StakeError>)
    ensures r.Ok? ==> (r.value <==> Certifies(b, slot, leader, dag, vset))
    ensures WellFormed(vset) ==> r.Ok?
  {
    var q := new StakeAggregator(Quorum, vset.totalPower);
    ghost var all, done := Voters(b.ancestors, slot, leader, dag, vset), {};
    NobodyCounted(vset);
    for i := 0 to |b.ancestors|
      invariant done == Voters(b.ancestors[..i], slot, leader, dag, vset) <= all <= vset.members.Keys
      invariant q.Value() == Certificates.TallyOf(vset, done) && Power(vset, done) <= U128_MAX && !q.reached
    {
      var a := b.ancestors[i];
      VotersNext(b.ancestors, i, slot, leader, dag, vset);
      if a.round == slot.round + 1 && a in dag.blocks {
        var supported := FindSupportedBlock(slot, dag.blocks[a]);
        if supported == Some(leader) && a.author in vset.members {
          CountAgain(vset, done, a.author);
          var reached := q.Add(a.author, vset.members[a.author].power);
          if reached.Err? { return Err(reached.error); }
          done := done + {a.author};
          if reached.value {
            QuorumGrows(vset, done, all);
            return Ok(true);
          }
        }
      }
    }
    assert b.ancestors[..|b.ancestors|] == b.ancestors;
    r := Ok(false);
  }

  lemma VotersNext(refs: seq<DagBlockRef>, i: nat, slot: Slot, leader: DagBlockRef, dag: Dag, vset: ValidatorSet)
    requires i < |refs|
    ensures Voters(refs[..i + 1], slot, leader, dag, vset)
            == Voters(refs[..i], slot, leader, dag, vset)
                + (if IsVoter(refs[i], slot, leader, dag, vset) then {refs[i].author} else {})
    ensures Voters(refs[..i + 1], slot, leader, dag, vset) <= Voters(refs, slot, leader, dag, vset)
  {
    assert refs[..i + 1] == refs[..i] + [refs[i]];
  }

  /** `blame_aggregator`, asked whether it reached a quorum. */
  method BlameReached(slot: Slot, dag: Dag, vset: ValidatorSet) returns (r: Result<bool, StakeError>)
    ensures r.Ok? ==> (r.value <==> QuorumOf(vset, Blamers(slot, dag, vset)))
    ensures WellFormed(vset) ==> r.Ok?
  {
    var agg := new StakeAggregator(Quorum, vset.totalPower);
    var rest := set x | x in dag.blocks && x.round == slot.round + 1;
    ghost var done: set<Address>, seen: set<DagBlockRef> := {}, {};
    NobodyCounted(vset);
    while rest != {}
      invariant seen !! rest && seen + rest == set x | x in dag.blocks && x.round == slot.round + 1
      invariant done == set x | x in seen && IsBlamer(x, slot, dag, vset) :: x.author
      invariant done <= vset.members.Keys
      invariant agg.Value() == Certificates.TallyOf(vset, done) && Power(vset, done) <= U128_MAX
    {
      var x :| x in rest;
      if Blames(dag.blocks[x], slot) && x.author in vset.members {
        CountAgain(vset, done, x.author);
        var reached := agg.Add(x.author, vset.members[x.author].power);
        if reached.Err? { return Err(reached.error); }
        done := done + {x.author};
      }
      rest, seen := rest - {x}, seen + {x};
    }
    assert done == Blamers(slot, dag, vset);
    r := Ok(agg.reached);
  }

  /** `total_stake_at`, asked whether it reached a quorum. */
  method StakeReached(round: nat, dag: Dag, vset: ValidatorSet) returns (r: Result<bool, StakeError>)
    ensures r.Ok? ==> (r.value <==> QuorumOf(vset, AuthorsAt(round, dag, vset)))
    ensures WellFormed(vset) ==> r.Ok?
  {
    var agg := new StakeAggregator(Quorum, vset.totalPower);
    var rest := set x | x in dag.blocks && x.round == round;
    ghost var done: set<Address>, seen: set<DagBlockRef> := {}, {};
    NobodyCounted(vset);
    while rest != {}
      invariant seen !! rest && seen + rest == set x | x in dag.blocks && x.round == round
      invariant done == set x | x in seen && x.author in vset.members :: x.author
      invariant done <= vset.members.Keys
      invariant agg.Value() == Certificates.TallyOf(vset, done) && Power(vset, done) <= U128_MAX
    {
      var x :| x in rest;
      if x.author in vset.members {
        CountAgain(vset, done, x.author);
        var reached := agg.Add(x.author, vset.members[x.author].power);
        if reached.Err? { return Err(reached.error); }
        done := done + {x.author};
      }
      rest, seen := rest - {x}, seen + {x};
    }
    assert done == AuthorsAt(round, dag, vset);
    r := Ok(agg.reached);
  }

  ghost predicate AnyCertificate(refs: set<DagBlockRef>, slot: Slot, leader: DagBlockRef, dag: Dag,
                                 vset: ValidatorSet) {
    exists c :: c in refs && c in dag.blocks && Certifies(dag.blocks[c], slot, leader, dag, vset)
  }

  /** The certified leader among candidate blocks: never two, so the breach is unreachable. */
  method CertifiedAmong(refs: set<DagBlockRef>, slot: Slot, leader: DagBlockRef, dag: Dag, vset: ValidatorSet)
    returns (r: Result<bool, DecideError>)
    ensures r.Ok? ==> (r.value <==> AnyCertificate(refs, slot, leader, dag, vset))
    ensures WellFormed(vset) ==> r.Ok?
    ensures r.Err? ==> r.error.Stake?
  {
    var certified: Option<DagBlockRef> := None;
    var rest := refs;
    while rest != {}
      invariant rest <= refs
      invariant certified in {None, Some(leader)}
      invariant certified.Some? <==> AnyCertificate(refs - rest, slot, leader, dag, vset)
    {
      var c :| c in rest;
      if c in dag.blocks {
        var cert := IsCertificate(dag.blocks[c], slot, leader, dag, vset);
        if cert.Err? { return Err(Stake(cert.error)); }
        if cert.value {
          match certified
          case None => certified := Some(leader);
          case Some(prev) =>
            if prev.digest != leader.digest { return Err(ByzantineInvariantBreach(prev.digest, leader.digest)); }
        }
      }
      rest := rest - {c};
    }
    r := Ok(certified.Some?);
  }

  method TryDirectDecide(slot: Slot, dag: Dag, vset: ValidatorSet) returns (r: Result<Status, DecideError>)
    ensures r.Ok? ==> r.value == Direct(slot, dag, vset)
    ensures r.Ok? ==> (r.value == Skip(slot) <==> QuorumOf(vset, Blamers(slot, dag, vset)))
    ensures r.Ok? ==> forall l :: r.value == Commit(l) <==> CommitsDirectly(slot, l, dag, vset)
    ensures r.Ok? && !r.value.Commit? ==> r.value.slot == slot
    ensures WellFormed(vset) ==> r.Ok?
    ensures r.Err? ==> r.error.Stake?
  {
    DirectIff(slot, dag, vset);
    var blame := BlameReached(slot, dag, vset);
    if blame.Err? { return Err(Stake(blame.error)); }
    if blame.value { return Ok(Skip(slot)); }
    if slot !in dag.bySlot { return Ok(Undecided(slot)); }
    var filled := StakeReached(slot.round + 2, dag, vset);
    if filled.Err? { return Err(Stake(filled.error)); }
    if !filled.value { return Ok(Undecided(slot)); }
    var refs := set x | x in dag.blocks && x.round == slot.round + 2;
    var certified := CertifiedAmong(refs, slot, dag.bySlot[slot], dag, vset);
    if certified.Err? { return Err(certified.error); }
    r := Ok(if certified.value then Commit(dag.bySlot[slot]) else Undecided(slot));
  }

  method TryIndirectDecide(slot: Slot, above: seq<Status>, dag: Dag, vset: ValidatorSet)
    returns (r: Result<Status, DecideError>)
    ensures r.Ok? ==> r.value == Indirect(slot, above, dag, vset)
    ensures r.Ok? ==>
              forall l :: r.value == Commit(l)
                          <==> exists a :: DecidedByAnchor(slot, above, a, dag) && AnchorCommits(slot, l, a, dag, vset)
    ensures r.Ok? ==> (r.value == Skip(slot)
              <==> exists a :: DecidedByAnchor(slot, above, a, dag)
                               && forall l :: !AnchorCommits(slot, l, a, dag, vset))
    ensures r.Ok? && !r.value.Commit? ==> r.value.slot == slot
    ensures WellFormed(vset) ==> r.Ok?
    ensures r.Err? ==> r.error.Stake?
  {
    IndirectIff(slot, above, dag, vset);
    for i := 0 to |above|
      invariant Indirect(slot, above, dag, vset) == Indirect(slot, above[i..], dag, vset)
    {
      match above[i]
      case Commit(anchor) =>
        if anchor.round < slot.round + WAVE_LENGTH { return Ok(Undecided(slot)); }
        if anchor !in dag.blocks { return Ok(Undecided(slot)); }
        if slot in dag.bySlot {
          var refs := set c | c in dag.blocks[anchor].ancestors && c.round == slot.round + 2;
          var certified := CertifiedAmong(refs, slot, dag.bySlot[slot], dag, vset);
          if certified.Err? { return Err(certified.error); }
          if certified.value { return Ok(Commit(dag.bySlot[slot])); }
        }
        return Ok(Skip(slot));
      case Skip(_) =>
      case Undecided(_) => return Ok(Undecided(slot));
    }
    r := Ok(Undecided(slot));
  }

  predicate IsHighest(dag: Dag, h: nat) {
    (forall x :: x in dag.blocks ==> x.round <= h) && (h == 0 || exists x :: x in dag.blocks && x.round == h)
  }

  method HighestAcceptedRound(dag: Dag) returns (h: nat)
    ensures IsHighest(dag, h)
  {
    h := 0;
    var rest := dag.blocks.Keys;
    while rest != {}
      invariant rest <= dag.blocks.Keys
      invariant forall x :: x in dag.blocks && x !in rest ==> x.round <= h
      invariant h == 0 || exists x :: x in dag.blocks && x.round == h
    {
      var x :| x in rest;
      h, rest := Max(h, x.round), rest - {x};
    }
  }

  /** `try_decide`: the longest decided prefix of the leaders above the last decided round whose
      decision round has been seen. */
  method TryDecide(lastDecided: nat, dag: Dag, vset: ValidatorSet, leaderOf: nat -> Slot)
    returns (r: Result<seq<Status>, DecideError>)
    ensures r.Ok? ==> forall h: nat :: IsHighest(dag, h) ==>
              r.value == DecidedPrefix(Leaders(leaderOf, lastDecided + 1, Max(h - 2, 0), dag, vset))
    ensures WellFormed(vset) ==> r.Ok?
    ensures r.Err? ==> r.error.Stake?
  {
    var highest := HighestAcceptedRound(dag);
    assert forall h: nat :: IsHighest(dag, h) ==> h == highest;
    var lower: nat, upper: nat := lastDecided + 1, if highest >= 2 then highest - 2 else 0;
    if lower > upper { return Ok([]); }
    var leaders: seq<Status> := [];
    var round := upper + 1;
    while round > lower
      invariant lower <= round <= upper + 1
      invariant leaders == Leaders(leaderOf, round, upper, dag, vset)
    {
      round := round - 1;
      if round % WAVE_LENGTH == 0 {
        var slot := leaderOf(round);
        var direct := TryDirectDecide(slot, dag, vset);
        if direct.Err? { return Err(direct.error); }
        var status := direct.value;
        if status.Undecided? {
          var indirect := TryIndirectDecide(slot, leaders, dag, vset);
          if indirect.Err? { return Err(indirect.error); }
          status := indirect.value;
        }
        leaders := [status] + leaders;
      }
    }
    var out := TakeDecided(leaders);
    r := Ok(out);
  }

  method TakeDecided(leaders: seq<Status>) returns (out: seq<Status>)
    ensures out == DecidedPrefix(leaders)
  {
    out := [];
    for i := 0 to |leaders|
      invariant DecidedPrefix(leaders) == out + DecidedPrefix(leaders[i..])
    {
      assert leaders[i..][1..] == leaders[i + 1..];
      if leaders[i].Undecided? { return; }
      out := out + [leaders[i]];
    }
  }

  // ---- two nodes -------------------------------------------------------------------------------

  /** The members whose block of the previous round is referenced. */
  ghost function Parents(b: Block, vset: ValidatorSet): set<Address> {
    set a | a in b.ancestors && a.round + 1 == b.ref.round && a.author in vset.members :: a.author
  }

  /** What the acceptance rules keep: members only, one block per slot, known ancestors above the
      garbage-collected rounds, and a quorum of parents. */
  ghost predicate DagOk(dag: Dag, vset: ValidatorSet) {
    && (forall r {:trigger BlockOk(r, dag, vset)} :: r in dag.blocks ==> BlockOk(r, dag, vset))
    && (forall s :: s in dag.bySlot ==> dag.bySlot[s] in dag.blocks && At(dag.bySlot[s], s))
  }

  ghost predicate BlockOk(r: DagBlockRef, dag: Dag, vset: ValidatorSet)
    requires r in dag.blocks
  {
    && dag.blocks[r].ref == r && r.author in vset.members && (r.round == 0 || dag.gcRound < r.round)
    && Slot(r.round, r.author) in dag.bySlot && dag.bySlot[Slot(r.round, r.author)] == r
    && (forall a :: a in dag.blocks[r].ancestors && dag.gcRound < a.round ==> a in dag.blocks)
    && (r.round > 0 ==> QuorumOf(vset, Parents(dag.blocks[r], vset)))
  }

  /** Digests bind contents, and an honest validator makes one block per round. */
  ghost predicate Compatible(honest: set<Address>, d1: Dag, d2: Dag) {
    && (forall r :: r in d1.blocks && r in d2.blocks ==> d1.blocks[r] == d2.blocks[r])
    && (forall r, q :: (r in d1.blocks && q in d2.blocks && SameHonestSlot(honest, r, q)) ==> r == q)
  }

  predicate SameHonestSlot(honest: set<Address>, r: DagBlockRef, q: DagBlockRef) {
    r.author in honest && r.author == q.author && r.round == q.round
  }

  ghost predicate FewFaulty(vset: ValidatorSet, honest: set<Address>) {
    WellFormed(vset) && 3 * Power(vset, vset.members.Keys - honest) <= vset.totalPower
  }

  lemma SharedHonest(vset: ValidatorSet, honest: set<Address>, s1: set<Address>, s2: set<Address>) returns (a: Address)
    requires FewFaulty(vset, honest) && QuorumOf(vset, s1) && QuorumOf(vset, s2)
    ensures a in s1 && a in s2 && a in honest
  {
    var w := Powers(vset.members);
    ThresholdSound(Power(vset, s1), vset.totalPower, Quorum);
    ThresholdSound(Power(vset, s2), vset.totalPower, Quorum);
    TotalUnionIntersection(w, s1, s2);
    TotalMonotone(w, s1 + s2, vset.members.Keys);
    if s1 * s2 <= vset.members.Keys - honest {
      TotalMonotone(w, s1 * s2, vset.members.Keys - honest);
    }
    a :| a in s1 * s2 && a in honest;
  }

  /** Certificates of two nodes for one slot are for the same block. */
  lemma CertificatesAgree(vset: ValidatorSet, honest: set<Address>, slot: Slot,
                          d1: Dag, b1: Block, l1: DagBlockRef, d2: Dag, b2: Block, l2: DagBlockRef)
    requires FewFaulty(vset, honest) && Compatible(honest, d1, d2)
    requires Certifies(b1, slot, l1, d1, vset) && Certifies(b2, slot, l2, d2, vset)
    ensures l1 == l2
  {
    var a := SharedHonest(vset, honest, Voters(b1.ancestors, slot, l1, d1, vset),
                          Voters(b2.ancestors, slot, l2, d2, vset));
    var r :| r in b1.ancestors && IsVoter(r, slot, l1, d1, vset) && r.author == a;
    var q :| q in b2.ancestors && IsVoter(q, slot, l2, d2, vset) && q.author == a;
    assert r == q;
  }

  /** A certificate at one node excludes a quorum of blame at every other. */
  lemma CertificateExcludesBlame(vset: ValidatorSet, honest: set<Address>, slot: Slot, d1: Dag, b1: Block,
                                 l1: DagBlockRef, d2: Dag)
    requires FewFaulty(vset, honest) && Compatible(honest, d1, d2) && Certifies(b1, slot, l1, d1, vset)
    ensures !QuorumOf(vset, Blamers(slot, d2, vset))
  {
    if QuorumOf(vset, Blamers(slot, d2, vset)) {
      var a := SharedHonest(vset, honest, Voters(b1.ancestors, slot, l1, d1, vset), Blamers(slot, d2, vset));
    }
  }

  /** Every commit, direct or by anchor, rests on a certificate for the committed block. */
  lemma {:induction false} CommitHasCertificate(slot: Slot, above: seq<Status>, dag: Dag, vset: ValidatorSet)
    returns (c: DagBlockRef)
    requires Decision(slot, above, dag, vset).Commit?
    ensures c in dag.blocks && c.round == slot.round + 2
    ensures Certifies(dag.blocks[c], slot, Decision(slot, above, dag, vset).leader, dag, vset)
  {
    if Direct(slot, dag, vset).Commit? {
      c :| c in dag.blocks && c.round == slot.round + 2 && Certifies(dag.blocks[c], slot, dag.bySlot[slot], dag, vset);
    } else {
      c := IndirectHasCertificate(slot, above, dag, vset);
    }
  }

  lemma {:induction false} IndirectHasCertificate(slot: Slot, above: seq<Status>, dag: Dag, vset: ValidatorSet)
    returns (c: DagBlockRef)
    requires Indirect(slot, above, dag, vset).Commit?
    ensures c in dag.blocks && c.round == slot.round + 2
    ensures Certifies(dag.blocks[c], slot, Indirect(slot, above, dag, vset).leader, dag, vset)
  {
    if above[0].Skip? {
      c := IndirectHasCertificate(slot, above[1..], dag, vset);
    } else {
      var anchor := dag.blocks[above[0].leader];
      c :| c in anchor.ancestors && c.round == slot.round + 2 && c in dag.blocks
          && Certifies(dag.blocks[c], slot, dag.bySlot[slot], dag, vset);
    }
  }

  /** Whatever two nodes see, their commits of one slot are the same block, and if one commits, the
      other can have skipped only by an anchor. */
  lemma DecisionsAgree(vset: ValidatorSet, honest: set<Address>, slot: Slot, d1: Dag, above1: seq<Status>, d2: Dag,
                       above2: seq<Status>)
    requires FewFaulty(vset, honest) && Compatible(honest, d1, d2) && Decision(slot, above1, d1, vset).Commit?
    ensures Decision(slot, above2, d2, vset).Commit? ==>
        Decision(slot, above2, d2, vset) == Decision(slot, above1, d1, vset)
    ensures !Direct(slot, d2, vset).Skip?
  {
    var c1 := CommitHasCertificate(slot, above1, d1, vset);
    var l1 := Decision(slot, above1, d1, vset).leader;
    CertificateExcludesBlame(vset, honest, slot, d1, d1.blocks[c1], l1, d2);
    if Decision(slot, above2, d2, vset).Commit? {
      var c2 := CommitHasCertificate(slot, above2, d2, vset);
      CertificatesAgree(vset, honest, slot, d1, d1.blocks[c1], l1, d2, d2.blocks[c2],
                        Decision(slot, above2, d2, vset).leader);
    }
  }

  /** What is emitted is, round by round, the decision of the leader slot. */
  lemma {:induction false} EmittedDecision(leaderOf: nat -> Slot, round: nat, upper: nat, dag: Dag,
                                           vset: ValidatorSet, k: nat)
    returns (r: nat)
    requires k < |Leaders(leaderOf, round, upper, dag, vset)|
    ensures round <= r <= upper && r % WAVE_LENGTH == 0
    ensures Leaders(leaderOf, round, upper, dag, vset)[k]
            == Decision(leaderOf(r), Leaders(leaderOf, r + 1, upper, dag, vset), dag, vset)
    decreases upper - round
  {
    var above := Leaders(leaderOf, round + 1, upper, dag, vset);
    if round % WAVE_LENGTH != 0 {
      r := EmittedDecision(leaderOf, round + 1, upper, dag, vset, k);
    } else if k == 0 {
      r := round;
    } else {
      r := EmittedDecision(leaderOf, round + 1, upper, dag, vset, k - 1);
    }
  }

  lemma {:induction false} PrefixOf(ss: seq<Status>, k: nat)
    requires k < |DecidedPrefix(ss)|
    ensures k < |ss| && DecidedPrefix(ss)[k] == ss[k]
  {
    if k > 0 { PrefixOf(ss[1..], k - 1); }
  }

  /** There are as many leaders as multiples of three from `round` to `upper`. */
  lemma {:induction false} LeaderCount(leaderOf: nat -> Slot, round: nat, upper: nat, dag: Dag, vset: ValidatorSet)
    ensures |Leaders(leaderOf, round, upper, dag, vset)| == Max(upper / 3 - (round + 2) / 3 + 1, 0)
    decreases if round <= upper then upper - round + 1 else 0
  {
    if round <= upper { LeaderCount(leaderOf, round + 1, upper, dag, vset); }
  }

  /** They are in the order of their rounds. */
  lemma {:induction false} LeaderAt(leaderOf: nat -> Slot, round: nat, upper: nat, dag: Dag, vset: ValidatorSet,
                                    r: nat)
    requires round <= r <= upper && r % 3 == 0
    ensures var k := r / 3 - (round + 2) / 3;
            && 0 <= k < |Leaders(leaderOf, round, upper, dag, vset)|
            && Leaders(leaderOf, round, upper, dag, vset)[k]
               == Decision(leaderOf(r), Leaders(leaderOf, r + 1, upper, dag, vset), dag, vset)
    decreases r - round
  {
    if round < r { LeaderAt(leaderOf, round + 1, upper, dag, vset, r); }
  }

  /** The decided prefix stops before the first undecided leader and nowhere else. */
  lemma {:induction false} PrefixExact(ss: seq<Status>)
    ensures |DecidedPrefix(ss)| <= |ss| && DecidedPrefix(ss) == ss[..|DecidedPrefix(ss)|]
    ensures forall k :: 0 <= k < |DecidedPrefix(ss)| ==> !ss[k].Undecided?
    ensures |DecidedPrefix(ss)| < |ss| ==> ss[|DecidedPrefix(ss)|].Undecided?
  {
    if ss != [] && !ss[0].Undecided? {
      PrefixExact(ss[1..]);
      var n := |DecidedPrefix(ss[1..])|;
      assert ss[..n + 1] == [ss[0]] + ss[1..][..n];
      assert forall k :: 1 <= k < n + 1 ==> ss[k] == ss[1..][k - 1];
    }
  }

  /** A decision is emitted as soon as it is made and every leader below it is decided. */
  lemma DecidedIsEmitted(leaderOf: nat -> Slot, lower: nat, upper: nat, dag: Dag, vset: ValidatorSet, r: nat)
    requires lower <= r <= upper && r % 3 == 0
    requires forall q :: lower <= q <= r && q % 3 == 0 ==>
               !Decision(leaderOf(q), Leaders(leaderOf, q + 1, upper, dag, vset), dag, vset).Undecided?
    ensures var out, k := DecidedPrefix(Leaders(leaderOf, lower, upper, dag, vset)), r / 3 - (lower + 2) / 3;
            && 0 <= k < |out|
            && out[k] == Decision(leaderOf(r), Leaders(leaderOf, r + 1, upper, dag, vset), dag, vset)
  {
    var ss := Leaders(leaderOf, lower, upper, dag, vset);
    LeaderAt(leaderOf, lower, upper, dag, vset, r);
    PrefixExact(ss);
    LeaderCount(leaderOf, lower, upper, dag, vset);
    var n := |DecidedPrefix(ss)|;
    if n <= r / 3 - (lower + 2) / 3 {
      var q := 3 * ((lower + 2) / 3 + n);
      assert lower <= q <= r && q % 3 == 0;
      LeaderAt(leaderOf, lower, upper, dag, vset, q);
    }
  }

  /** A leader that a quorum blames is skipped whatever was decided above. */
  lemma BlameSkips(slot: Slot, dag: Dag, vset: ValidatorSet, above: seq<Status>)
    requires QuorumOf(vset, Blamers(slot, dag, vset))
    ensures Decision(slot, above, dag, vset) == Skip(slot)
  {
    DecisionIff(slot, above, dag, vset);
  }

  /** The skip is emitted once every leader below is decided. */
  lemma BlameIsEmitted(leaderOf: nat -> Slot, lower: nat, upper: nat, dag: Dag, vset: ValidatorSet, r: nat)
    requires lower <= r <= upper && r % 3 == 0 && QuorumOf(vset, Blamers(leaderOf(r), dag, vset))
    requires forall q :: lower <= q < r && q % 3 == 0 ==>
               !Decision(leaderOf(q), Leaders(leaderOf, q + 1, upper, dag, vset), dag, vset).Undecided?
    ensures var out, k := DecidedPrefix(Leaders(leaderOf, lower, upper, dag, vset)), r / 3 - (lower + 2) / 3;
            0 <= k < |out| && out[k] == Skip(leaderOf(r))
  {
    BlameSkips(leaderOf(r), dag, vset, Leaders(leaderOf, r + 1, upper, dag, vset));
    DecidedIsEmitted(leaderOf, lower, upper, dag, vset, r);
  }

  lemma CertifiedIsAtSlot(vset: ValidatorSet, honest: set<Address>, slot: Slot, b: Block, l: DagBlockRef, dag: Dag)
    requires FewFaulty(vset, honest) && Certifies(b, slot, l, dag, vset)
    ensures At(l, slot)
  {
    var voters := Voters(b.ancestors, slot, l, dag, vset);
    var a := SharedHonest(vset, honest, voters, voters);
    var r :| r in b.ancestors && IsVoter(r, slot, l, dag, vset) && r.author == a;
  }

  /** The committed leaders that two nodes emit never differ at one round. */
  lemma OutputsAgree(vset: ValidatorSet, honest: set<Address>, leaderOf: nat -> Slot,
                     d1: Dag, lower1: nat, upper1: nat, k1: nat, d2: Dag, lower2: nat, upper2: nat, k2: nat)
    requires FewFaulty(vset, honest) && Compatible(honest, d1, d2) && forall r :: leaderOf(r).round == r
    requires k1 < |DecidedPrefix(Leaders(leaderOf, lower1, upper1, d1, vset))|
    requires k2 < |DecidedPrefix(Leaders(leaderOf, lower2, upper2, d2, vset))|
    ensures var s1 := DecidedPrefix(Leaders(leaderOf, lower1, upper1, d1, vset))[k1];
            var s2 := DecidedPrefix(Leaders(leaderOf, lower2, upper2, d2, vset))[k2];
            s1.Commit? && s2.Commit? && s1.leader.round == s2.leader.round ==> s1 == s2
  {
    PrefixOf(Leaders(leaderOf, lower1, upper1, d1, vset), k1);
    PrefixOf(Leaders(leaderOf, lower2, upper2, d2, vset), k2);
    var r1 := EmittedDecision(leaderOf, lower1, upper1, d1, vset, k1);
    var r2 := EmittedDecision(leaderOf, lower2, upper2, d2, vset, k2);
    var a1, a2 := Leaders(leaderOf, r1 + 1, upper1, d1, vset), Leaders(leaderOf, r2 + 1, upper2, d2, vset);
    var s1, s2 := Decision(leaderOf(r1), a1, d1, vset), Decision(leaderOf(r2), a2, d2, vset);
    if s1.Commit? && s2.Commit? && s1.leader.round == s2.leader.round {
      var c1 := CommitHasCertificate(leaderOf(r1), a1, d1, vset);
      CertifiedIsAtSlot(vset, honest, leaderOf(r1), d1.blocks[c1], s1.leader, d1);
      var c2 := CommitHasCertificate(leaderOf(r2), a2, d2, vset);
      CertifiedIsAtSlot(vset, honest, leaderOf(r2), d2.blocks[c2], s2.leader, d2);
      DecisionsAgree(vset, honest, leaderOf(r1), d1, a1, d2, a2);
    }
  }

  /** After a commit at one node, an anchor at another decides the same way exactly when it
      references a certificate for that block directly; otherwise it skips. */
  lemma AnchorAgreesIff(vset: ValidatorSet, honest: set<Address>, slot: Slot, d1: Dag, above1: seq<Status>, d2: Dag,
                        anchor: DagBlockRef)
    requires FewFaulty(vset, honest) && Compatible(honest, d1, d2) && DagOk(d2, vset)
    requires Decision(slot, above1, d1, vset).Commit? && anchor in d2.blocks && d2.gcRound < slot.round
    ensures var l := Decision(slot, above1, d1, vset).leader;
            if Linked(d2.blocks[anchor], slot, l, d2, vset) then ByAnchor(slot, anchor, d2, vset) == Commit(l)
            else ByAnchor(slot, anchor, d2, vset) == Skip(slot)
  {
    var l := Decision(slot, above1, d1, vset).leader;
    var c1 := CommitHasCertificate(slot, above1, d1, vset);
    if Linked(d2.blocks[anchor], slot, l, d2, vset) {
      var c :| c in d2.blocks[anchor].ancestors && c.round == slot.round + 2 && c in d2.blocks
          && Certifies(d2.blocks[c], slot, l, d2, vset);
      LeaderPresent(vset, honest, slot, l, d2, d2.blocks[c]);
    } else if slot in d2.bySlot && Linked(d2.blocks[anchor], slot, d2.bySlot[slot], d2, vset) {
      var c :| c in d2.blocks[anchor].ancestors && c.round == slot.round + 2 && c in d2.blocks
               && Certifies(d2.blocks[c], slot, d2.bySlot[slot], d2, vset);
      CertificatesAgree(vset, honest, slot, d1, d1.blocks[c1], l, d2, d2.blocks[c], d2.bySlot[slot]);
    }
  }

  /** The nearest leader above that was not skipped. */
  function Nearest(above: seq<Status>): Option<Status> {
    if above == [] then None else if above[0].Skip? then Nearest(above[1..]) else Some(above[0])
  }

  /** The nearest leader is a committed anchor a wave or more up that the node has, and it
      references no certificate for the block. */
  ghost predicate Unlinked(slot: Slot, leader: DagBlockRef, above: seq<Status>, dag: Dag, vset: ValidatorSet) {
    && Nearest(above).Some? && Nearest(above).value.Commit?
    && var anchor := Nearest(above).value.leader;
       && anchor.round >= slot.round + WAVE_LENGTH && anchor in dag.blocks
       && !Linked(dag.blocks[anchor], slot, leader, dag, vset)
  }

  lemma {:induction false} IndirectByNearest(slot: Slot, above: seq<Status>, dag: Dag, vset: ValidatorSet)
    ensures Indirect(slot, above, dag, vset)
            == if Nearest(above).Some? && Nearest(above).value.Commit?
                  && Nearest(above).value.leader.round >= slot.round + WAVE_LENGTH
               then ByAnchor(slot, Nearest(above).value.leader, dag, vset)
               else Undecided(slot)
  {
    if above != [] && above[0].Skip? { IndirectByNearest(slot, above[1..], dag, vset); }
  }

  /** After a commit at one node, another node skips the slot if and only if it cannot decide it
      directly and its nearest leader is an anchor without a direct certificate. */
  lemma SkipAfterCommitIff(vset: ValidatorSet, honest: set<Address>, slot: Slot,
                           d1: Dag, above1: seq<Status>, d2: Dag, above2: seq<Status>)
    requires FewFaulty(vset, honest) && Compatible(honest, d1, d2) && DagOk(d2, vset) && d2.gcRound < slot.round
    requires Decision(slot, above1, d1, vset).Commit?
    ensures Decision(slot, above2, d2, vset) == Skip(slot)
            <==> && Direct(slot, d2, vset).Undecided?
                 && Unlinked(slot, Decision(slot, above1, d1, vset).leader, above2, d2, vset)
  {
    DecisionsAgree(vset, honest, slot, d1, above1, d2, above2);
    IndirectByNearest(slot, above2, d2, vset);
    if Nearest(above2).Some? && Nearest(above2).value.Commit? && Nearest(above2).value.leader in d2.blocks {
      AnchorAgreesIff(vset, honest, slot, d1, above1, d2, Nearest(above2).value.leader);
    }
  }

  /** The same of what the nodes emit: where one emits a commit for a round, the other emits a skip
      for that round if and only if its own leaders above leave the slot to such an anchor. */
  lemma EmittedSkipIff(vset: ValidatorSet, honest: set<Address>, leaderOf: nat -> Slot, r: nat,
                       d1: Dag, upper1: nat, d2: Dag, lower2: nat, upper2: nat, k: nat)
    requires FewFaulty(vset, honest) && Compatible(honest, d1, d2) && DagOk(d2, vset) && d2.gcRound < r
    requires (forall q :: leaderOf(q).round == q) && r % WAVE_LENGTH == 0
    requires Decision(leaderOf(r), Leaders(leaderOf, r + 1, upper1, d1, vset), d1, vset).Commit?
    requires k < |DecidedPrefix(Leaders(leaderOf, lower2, upper2, d2, vset))|
    requires RoundOf(DecidedPrefix(Leaders(leaderOf, lower2, upper2, d2, vset))[k]) == r
    ensures DecidedPrefix(Leaders(leaderOf, lower2, upper2, d2, vset))[k].Skip?
            <==> && Direct(leaderOf(r), d2, vset).Undecided?
                 && Unlinked(leaderOf(r),
                             Decision(leaderOf(r), Leaders(leaderOf, r + 1, upper1, d1, vset), d1, vset).leader,
                             Leaders(leaderOf, r + 1, upper2, d2, vset), d2, vset)
  {
    EmittedAt(vset, honest, leaderOf, r, d2, lower2, upper2, k);
    SkipAfterCommitIff(vset, honest, leaderOf(r), d1, Leaders(leaderOf, r + 1, upper1, d1, vset),
                       d2, Leaders(leaderOf, r + 1, upper2, d2, vset));
  }

  /** The status emitted for a round is the decision of its leader slot. */
  lemma EmittedAt(vset: ValidatorSet, honest: set<Address>, leaderOf: nat -> Slot, r: nat, dag: Dag, lower: nat,
                  upper: nat, k: nat)
    requires FewFaulty(vset, honest) && (forall q :: leaderOf(q).round == q)
    requires k < |DecidedPrefix(Leaders(leaderOf, lower, upper, dag, vset))|
    requires RoundOf(DecidedPrefix(Leaders(leaderOf, lower, upper, dag, vset))[k]) == r
    ensures var status := Decision(leaderOf(r), Leaders(leaderOf, r + 1, upper, dag, vset), dag, vset);
            && DecidedPrefix(Leaders(leaderOf, lower, upper, dag, vset))[k] == status
            && (status.Skip? ==> status == Skip(leaderOf(r)))
  {
    PrefixOf(Leaders(leaderOf, lower, upper, dag, vset), k);
    var q := EmittedDecision(leaderOf, lower, upper, dag, vset, k);
    RoundOfDecision(vset, honest, leaderOf(q), Leaders(leaderOf, q + 1, upper, dag, vset), dag);
  }

  function RoundOf(s: Status): nat { if s.Commit? then s.leader.round else s.slot.round }

  lemma RoundOfDecision(vset: ValidatorSet, honest: set<Address>, slot: Slot, above: seq<Status>, dag: Dag)
    requires FewFaulty(vset, honest)
    ensures RoundOf(Decision(slot, above, dag, vset)) == slot.round
    ensures !Decision(slot, above, dag, vset).Commit? ==> Decision(slot, above, dag, vset).slot == slot
  {
    IndirectByNearest(slot, above, dag, vset);
    if Decision(slot, above, dag, vset).Commit? {
      var c := CommitHasCertificate(slot, above, dag, vset);
      CertifiedIsAtSlot(vset, honest, slot, dag.blocks[c], Decision(slot, above, dag, vset).leader, dag);
    }
  }

  /** Blocks reference the previous round only, as the node builds them. */
  ghost predicate PreviousOnly(dag: Dag) {
    forall r, a :: r in dag.blocks && a in dag.blocks[r].ancestors ==> a.round + 1 == r.round
  }

  /** Then an anchor more than one wave up never commits: what is left to it is skipped. */
  lemma FarAnchorAlwaysSkips(vset: ValidatorSet, slot: Slot, above: seq<Status>, dag: Dag, anchor: DagBlockRef)
    requires PreviousOnly(dag) && Direct(slot, dag, vset).Undecided?
    requires Nearest(above) == Some(Commit(anchor)) && anchor in dag.blocks && anchor.round > slot.round + WAVE_LENGTH
    ensures Decision(slot, above, dag, vset) == Skip(slot)
  {
    IndirectByNearest(slot, above, dag, vset);
  }

  /** A certified block is in the DAG, at its slot. */
  lemma LeaderPresent(vset: ValidatorSet, honest: set<Address>, slot: Slot, l: DagBlockRef, dag: Dag, b: Block)
    requires FewFaulty(vset, honest) && DagOk(dag, vset) && dag.gcRound < slot.round && Certifies(b, slot, l, dag, vset)
    ensures slot in dag.bySlot && dag.bySlot[slot] == l
  {
    var voters := Voters(b.ancestors, slot, l, dag, vset);
    var a := SharedHonest(vset, honest, voters, voters);
    var r :| r in b.ancestors && IsVoter(r, slot, l, dag, vset) && r.author == a;
    assert BlockOk(r, dag, vset) && l in dag.blocks[r].ancestors;
    assert BlockOk(l, dag, vset);
    assert Slot(l.round, l.author) == slot;
  }

  // ---- the documented rule -----------------------------------------------------------------------

  /** The members with a certificate for the block in the decision round. */
  ghost function Certifiers(slot: Slot, leader: DagBlockRef, dag: Dag, vset: ValidatorSet): set<Address> {
    set r | r in dag.blocks && r.round == slot.round + 2 && r.author in vset.members
            && Certifies(dag.blocks[r], slot, leader, dag, vset) :: r.author
  }

  /** A certificate seen by one node is one for every node that has it. */
  lemma CertificateTravels(vset: ValidatorSet, honest: set<Address>, slot: Slot, leader: DagBlockRef, d1: Dag,
                           d2: Dag, c: DagBlockRef)
    requires Compatible(honest, d1, d2) && DagOk(d2, vset) && d2.gcRound < slot.round
    requires c in d1.blocks && c in d2.blocks && Certifies(d1.blocks[c], slot, leader, d1, vset)
    ensures Certifies(d2.blocks[c], slot, leader, d2, vset)
  {
    var refs := d1.blocks[c].ancestors;
    var v1, v2 := Voters(refs, slot, leader, d1, vset), Voters(refs, slot, leader, d2, vset);
    forall a | a in refs && IsVoter(a, slot, leader, d1, vset) ensures IsVoter(a, slot, leader, d2, vset) {
      assert BlockOk(c, d2, vset) && a in d2.blocks;
    }
    QuorumGrows(vset, v1, v2);
  }

  /** A quorum of certificates meets every quorum of decision blocks of every node. */
  lemma SharedCertificate(vset: ValidatorSet, honest: set<Address>, slot: Slot, leader: DagBlockRef,
                          d1: Dag, d2: Dag, refs: set<DagBlockRef>) returns (c: DagBlockRef)
    requires FewFaulty(vset, honest) && Compatible(honest, d1, d2)
    requires QuorumOf(vset, Certifiers(slot, leader, d1, vset))
    requires forall r :: r in refs ==> r in d2.blocks && r.round == slot.round + 2
    requires QuorumOf(vset, set r | r in refs :: r.author)
    ensures c in refs && c in d1.blocks && Certifies(d1.blocks[c], slot, leader, d1, vset)
  {
    var a := SharedHonest(vset, honest, Certifiers(slot, leader, d1, vset), set r | r in refs :: r.author);
    c :| c in d1.blocks && c.round == slot.round + 2 && c.author in vset.members
         && Certifies(d1.blocks[c], slot, leader, d1, vset) && c.author == a;
    var q :| q in refs && q.author == a;
    assert c == q;
  }

  /** A certificate that both nodes have settles the slot for the second. */
  lemma SharedCertificateSettles(vset: ValidatorSet, honest: set<Address>, slot: Slot, leader: DagBlockRef,
                                 d1: Dag, d2: Dag, c: DagBlockRef)
    requires FewFaulty(vset, honest) && Compatible(honest, d1, d2) && DagOk(d2, vset) && d2.gcRound < slot.round
    requires c in d1.blocks && c in d2.blocks && Certifies(d1.blocks[c], slot, leader, d1, vset)
    ensures Certifies(d2.blocks[c], slot, leader, d2, vset)
    ensures slot in d2.bySlot && d2.bySlot[slot] == leader && !QuorumOf(vset, Blamers(slot, d2, vset))
  {
    CertificateTravels(vset, honest, slot, leader, d1, d2, c);
    LeaderPresent(vset, honest, slot, leader, d2, d2.blocks[c]);
    CertificateExcludesBlame(vset, honest, slot, d1, d1.blocks[c], leader, d2);
  }

  lemma DirectCommit(vset: ValidatorSet, dag: Dag, slot: Slot, leader: DagBlockRef, c: DagBlockRef)
    requires slot in dag.bySlot && dag.bySlot[slot] == leader && !QuorumOf(vset, Blamers(slot, dag, vset))
    requires QuorumOf(vset, AuthorsAt(slot.round + 2, dag, vset))
    requires c in dag.blocks && c.round == slot.round + 2 && Certifies(dag.blocks[c], slot, leader, dag, vset)
    ensures Direct(slot, dag, vset) == Commit(leader)
  {
  }

  /** When a quorum of certificates stands behind a block, as the documentation demands for a
      direct commit, every node commits the block directly once its decision round is filled. */
  lemma QuorumOfCertificatesDecides(vset: ValidatorSet, honest: set<Address>, slot: Slot, leader: DagBlockRef,
                                    d1: Dag, d2: Dag)
    requires FewFaulty(vset, honest) && Compatible(honest, d1, d2) && DagOk(d2, vset) && d2.gcRound < slot.round
    requires QuorumOf(vset, Certifiers(slot, leader, d1, vset))
    requires QuorumOf(vset, AuthorsAt(slot.round + 2, d2, vset))
    ensures Direct(slot, d2, vset) == Commit(leader)
  {
    var refs := set r | r in d2.blocks && r.round == slot.round + 2 && r.author in vset.members;
    assert (set r | r in refs :: r.author) == AuthorsAt(slot.round + 2, d2, vset);
    var c := SharedCertificate(vset, honest, slot, leader, d1, d2, refs);
    SharedCertificateSettles(vset, honest, slot, leader, d1, d2, c);
    DirectCommit(vset, d2, slot, leader, c);
  }

  /** A round is filled as soon as the node has any block above it. */
  lemma {:induction false} RoundFills(vset: ValidatorSet, honest: set<Address>, round: nat, dag: Dag, r: DagBlockRef)
    requires FewFaulty(vset, honest) && DagOk(dag, vset) && dag.gcRound < round < r.round && r in dag.blocks
    ensures QuorumOf(vset, AuthorsAt(round, dag, vset))
    decreases r.round
  {
    assert BlockOk(r, dag, vset);
    var parents := Parents(dag.blocks[r], vset);
    if r.round == round + 1 {
      forall a | a in parents ensures a in AuthorsAt(round, dag, vset) {
        var q :| q in dag.blocks[r].ancestors && q.round + 1 == r.round && q.author in vset.members && q.author == a;
      }
      QuorumGrows(vset, parents, AuthorsAt(round, dag, vset));
    } else {
      var a := SharedHonest(vset, honest, parents, parents);
      var q :| q in dag.blocks[r].ancestors && q.round + 1 == r.round && q.author in vset.members && q.author == a;
      RoundFills(vset, honest, round, dag, q);
    }
  }

  /** So behind a quorum of certificates every node that has moved past the decision round commits
      the block, whatever it decided above. */
  lemma QuorumOfCertificatesCommits(vset: ValidatorSet, honest: set<Address>, slot: Slot, leader: DagBlockRef,
                                    d1: Dag, d2: Dag, r: DagBlockRef, above: seq<Status>)
    requires FewFaulty(vset, honest) && Compatible(honest, d1, d2) && DagOk(d2, vset) && d2.gcRound < slot.round
    requires QuorumOf(vset, Certifiers(slot, leader, d1, vset))
    requires r in d2.blocks && r.round > slot.round + 2
    ensures Decision(slot, above, d2, vset) == Commit(leader)
  {
    RoundFills(vset, honest, slot.round + 2, d2, r);
    assert QuorumOf(vset, AuthorsAt(slot.round + 2, d2, vset));
    QuorumOfCertificatesDecides(vset, honest, slot, leader, d1, d2);
  }

  /** When a quorum of certificates stands behind a block, as the documentation demands for a
      direct commit, every block of the next leader round references one of them, at every node:
      no anchor there can skip the block. */
  lemma QuorumOfCertificatesBinds(vset: ValidatorSet, honest: set<Address>, slot: Slot, leader: DagBlockRef,
                                  d1: Dag, d2: Dag, anchor: DagBlockRef)
    requires FewFaulty(vset, honest) && Compatible(honest, d1, d2) && DagOk(d2, vset) && d2.gcRound < slot.round
    requires QuorumOf(vset, Certifiers(slot, leader, d1, vset))
    requires anchor in d2.blocks && anchor.round == slot.round + WAVE_LENGTH
    ensures ByAnchor(slot, anchor, d2, vset) == Commit(leader)
  {
    var b := d2.blocks[anchor];
    var refs := set r | r in b.ancestors && r.round + 1 == b.ref.round && r.author in vset.members;
    assert BlockOk(anchor, d2, vset);
    assert (set r | r in refs :: r.author) == Parents(b, vset);
    var c := SharedCertificate(vset, honest, slot, leader, d1, d2, refs);
    SharedCertificateSettles(vset, honest, slot, leader, d1, d2, c);
    assert Linked(b, slot, leader, d2, vset);
  }
}
