/** A run of the Pulse commit rule on which two honest nodes decide one slot differently. */
module PulseSplit {
  import opened Primitives
  import opened Weights
  import opened Committee
  import opened Ordered
  import opened Pulse

  /** Four equal validators. The block of validator 3, which leads round 3, gets the votes of 1, 2
      and 3. Only validator 3's decision block references all three votes; it reaches one node
      early and the others only after they have built on without it. Nobody misbehaves, and every
      block references its author's previous one. */
  const FOUR := ValidatorSet(0, map a: nat | a in {0, 1, 2, 3} :: Member(ConsensusKey([], []), 1), 4)

  function R(round: nat, author: Address): DagBlockRef { DagBlockRef(round, author, 0) }

  predicate SeesThree(round: nat, author: Address) { author != 0 && (round <= 4 || (round == 5 && author == 3)) }

  function BlockAt(r: DagBlockRef): Block {
    Block(r, if r.round == 0 then []
             else if SeesThree(r.round, r.author) then [R(r.round - 1, 1), R(r.round - 1, 2), R(r.round - 1, 3)]
             else [R(r.round - 1, 0), R(r.round - 1, 1), R(r.round - 1, 2)])
  }

  function DagOf(slots: set<Slot>): Dag {
    Dag(map s | s in slots :: R(s.round, s.author) := BlockAt(R(s.round, s.author)),
        map s | s in slots :: R(s.round, s.author), 0)
  }

  function Early(): set<Slot> { set r: nat, a: nat | r <= 5 && a < 4 :: Slot(r, a) }

  function Late(): set<Slot> { set r: nat, a: nat | r <= 8 && a < 4 && !(a == 3 && r >= 5) :: Slot(r, a) }

  const LEADER := Slot(3, 3)
  const ANCHOR := Slot(6, 2)

  lemma {:induction false} UnitPower(s: set<Address>)
    requires s <= FOUR.members.Keys
    ensures Power(FOUR, s) == |s|
    ensures QuorumOf(FOUR, s) <==> |s| >= 3
  {
    if s != {} {
      var x :| x in s;
      UnitPower(s - {x});
      TotalRemove(Powers(FOUR.members), s, x);
    }
  }

  lemma InDag(slots: set<Slot>, r: DagBlockRef)
    ensures r in DagOf(slots).blocks <==> r.digest == 0 && Slot(r.round, r.author) in slots
    ensures r in DagOf(slots).blocks ==> DagOf(slots).blocks[r] == BlockAt(r)
  {
    if r.digest == 0 && Slot(r.round, r.author) in slots {
      assert r == R(Slot(r.round, r.author).round, Slot(r.round, r.author).author);
    }
  }

  lemma ThreeParents(r: DagBlockRef)
    requires r.round > 0
    ensures Parents(BlockAt(r), FOUR) == if SeesThree(r.round, r.author) then {1, 2, 3} else {0, 1, 2}
    ensures QuorumOf(FOUR, Parents(BlockAt(r), FOUR))
  {
    var b, p := BlockAt(r), Parents(BlockAt(r), FOUR);
    assert b.ancestors[0].author in p && b.ancestors[1].author in p && b.ancestors[2].author in p;
    if SeesThree(r.round, r.author) {
      assert p == {1, 2, 3};
    } else {
      assert p == {0, 1, 2};
    }
    UnitPower(p);
  }

  /** Every referenced block is there. */
  predicate Closed(slots: set<Slot>) {
    && (forall s :: s in slots ==> s.author < 4)
    && (forall s, a :: s in slots && a in BlockAt(R(s.round, s.author)).ancestors ==> Slot(a.round, a.author) in slots)
  }

  lemma BuiltBlockOk(slots: set<Slot>, r: DagBlockRef)
    requires Closed(slots) && r in DagOf(slots).blocks
    ensures BlockOk(r, DagOf(slots), FOUR)
  {
    InDag(slots, r);
    if r.round > 0 { ThreeParents(r); }
    assert r == R(r.round, r.author);
    forall a | a in BlockAt(r).ancestors ensures a in DagOf(slots).blocks { InDag(slots, a); }
  }

  lemma BuiltDagOk(slots: set<Slot>)
    requires Closed(slots)
    ensures DagOk(DagOf(slots), FOUR)
  {
    var dag := DagOf(slots);
    forall r | r in dag.blocks ensures BlockOk(r, dag, FOUR) { BuiltBlockOk(slots, r); }
    forall s | s in dag.bySlot ensures dag.bySlot[s] in dag.blocks { InDag(slots, R(s.round, s.author)); }
  }

  lemma EarlyClosed()
    ensures Closed(Early())
  {
  }

  lemma LateClosed()
    ensures Closed(Late())
  {
  }

  lemma NobodyFaulty()
    ensures FewFaulty(FOUR, FOUR.members.Keys)
  {
    UnitPower(FOUR.members.Keys);
    UnitPower({});
    assert FOUR.members.Keys == {0, 1, 2, 3};
    assert FOUR.members.Keys - FOUR.members.Keys == {};
  }

  lemma BuiltCompatible(x: set<Slot>, y: set<Slot>)
    ensures Compatible(FOUR.members.Keys, DagOf(x), DagOf(y))
  {
    forall r | r in DagOf(x).blocks ensures r.digest == 0 && DagOf(x).blocks[r] == BlockAt(r) { InDag(x, r); }
    forall r | r in DagOf(y).blocks ensures r.digest == 0 && DagOf(y).blocks[r] == BlockAt(r) { InDag(y, r); }
  }

  /** At most validator 0 blames the leader, at either node. */
  lemma NoBlame(slots: set<Slot>)
    ensures !QuorumOf(FOUR, Blamers(LEADER, DagOf(slots), FOUR))
  {
    var dag := DagOf(slots);
    forall r | r in dag.blocks && IsBlamer(r, LEADER, dag, FOUR) ensures r.author == 0 {
      InDag(slots, r);
      assert R(3, 3) in BlockAt(r).ancestors <==> r.author != 0;
    }
    assert Blamers(LEADER, dag, FOUR) <= {0};
    SmallSet(Blamers(LEADER, dag, FOUR), {0});
  }

  lemma SmallSet(s: set<Address>, t: set<Address>)
    requires s <= t <= FOUR.members.Keys && |t| <= 2
    ensures !QuorumOf(FOUR, s)
  {
    UnitPower(s);
    UnitPower(t);
    TotalMonotone(Powers(FOUR.members), s, t);
  }

  lemma VoterAt(slots: set<Slot>, x: DagBlockRef, slot: Slot)
    requires x in DagOf(slots).blocks && x.author < 4 && x.round == slot.round + 1
    requires R(slot.round, slot.author) in BlockAt(x).ancestors
    ensures IsVoter(x, slot, R(slot.round, slot.author), DagOf(slots), FOUR)
  {
    InDag(slots, x);
  }

  /** Three parents that all vote make a certificate. */
  lemma ThreeVotes(dag: Dag, b: Block, slot: Slot, leader: DagBlockRef, x: DagBlockRef, y: DagBlockRef, z: DagBlockRef)
    requires x in b.ancestors && y in b.ancestors && z in b.ancestors && |{x.author, y.author, z.author}| == 3
    requires IsVoter(x, slot, leader, dag, FOUR) && IsVoter(y, slot, leader, dag, FOUR)
        && IsVoter(z, slot, leader, dag, FOUR)
    ensures Certifies(b, slot, leader, dag, FOUR)
  {
    UnitPower({x.author, y.author, z.author});
    QuorumGrows(FOUR, {x.author, y.author, z.author}, Voters(b.ancestors, slot, leader, dag, FOUR));
  }

  lemma CertificateAt(slots: set<Slot>, r: DagBlockRef, slot: Slot, x: nat, y: nat, z: nat)
    requires r in DagOf(slots).blocks && r.round == slot.round + 2 && |{x, y, z}| == 3 && x < 4 && y < 4 && z < 4
    requires Slot(slot.round + 1, x) in slots && Slot(slot.round + 1, y) in slots && Slot(slot.round + 1, z) in slots
    requires BlockAt(r).ancestors == [R(slot.round + 1, x), R(slot.round + 1, y), R(slot.round + 1, z)]
    requires R(slot.round, slot.author) in BlockAt(R(slot.round + 1, x)).ancestors
    requires R(slot.round, slot.author) in BlockAt(R(slot.round + 1, y)).ancestors
    requires R(slot.round, slot.author) in BlockAt(R(slot.round + 1, z)).ancestors
    ensures Certifies(DagOf(slots).blocks[r], slot, R(slot.round, slot.author), DagOf(slots), FOUR)
  {
    InDag(slots, r);
    var refs := BlockAt(r).ancestors;
    InDag(slots, refs[0]);
    InDag(slots, refs[1]);
    InDag(slots, refs[2]);
    assert refs[0] in refs && refs[1] in refs && refs[2] in refs;
    VoterAt(slots, refs[0], slot);
    VoterAt(slots, refs[1], slot);
    VoterAt(slots, refs[2], slot);
    ThreeVotes(DagOf(slots), BlockAt(r), slot, R(slot.round, slot.author), refs[0], refs[1], refs[2]);
  }

  /** A slot with a block, no blame, a filled decision round and three votes is committed. */
  lemma CommitAt(slots: set<Slot>, slot: Slot, c: Slot, x: nat, y: nat, z: nat)
    requires slot in slots && c in slots && c.round == slot.round + 2 && |{x, y, z}| == 3 && x < 4 && y < 4 && z < 4
    requires Slot(slot.round + 1, x) in slots && Slot(slot.round + 1, y) in slots && Slot(slot.round + 1, z) in slots
    requires Slot(c.round, 0) in slots && Slot(c.round, 1) in slots && Slot(c.round, 2) in slots
    requires !QuorumOf(FOUR, Blamers(slot, DagOf(slots), FOUR))
    requires BlockAt(R(c.round, c.author)).ancestors
        == [R(slot.round + 1, x), R(slot.round + 1, y), R(slot.round + 1, z)]
    requires R(slot.round, slot.author) in BlockAt(R(slot.round + 1, x)).ancestors
    requires R(slot.round, slot.author) in BlockAt(R(slot.round + 1, y)).ancestors
    requires R(slot.round, slot.author) in BlockAt(R(slot.round + 1, z)).ancestors
    ensures Direct(slot, DagOf(slots), FOUR) == Commit(R(slot.round, slot.author))
  {
    var r := R(c.round, c.author);
    InDag(slots, r);
    CertificateAt(slots, r, slot, x, y, z);
    AllPresent(slots, c.round);
    DirectCommit(FOUR, DagOf(slots), slot, R(slot.round, slot.author), r);
  }

  lemma EarlyCommits()
    ensures Direct(LEADER, DagOf(Early()), FOUR) == Commit(R(3, 3))
  {
    NoBlame(Early());
    CommitAt(Early(), LEADER, Slot(5, 3), 1, 2, 3);
  }

  /** Validators 0, 1 and 2 have a block in the round. */
  lemma AllPresent(slots: set<Slot>, round: nat)
    requires Slot(round, 0) in slots && Slot(round, 1) in slots && Slot(round, 2) in slots
    ensures QuorumOf(FOUR, AuthorsAt(round, DagOf(slots), FOUR))
  {
    InDag(slots, R(round, 0));
    InDag(slots, R(round, 1));
    InDag(slots, R(round, 2));
    assert R(round, 0).author == 0 && R(round, 1).author == 1 && R(round, 2).author == 2;
    UnitPower({0, 1, 2});
    QuorumGrows(FOUR, {0, 1, 2}, AuthorsAt(round, DagOf(slots), FOUR));
  }

  lemma LateAnchor()
    ensures Direct(ANCHOR, DagOf(Late()), FOUR) == Commit(R(6, 2))
  {
    NobodyBlamesAnchor();
    CommitAt(Late(), ANCHOR, Slot(8, 2), 0, 1, 2);
  }

  lemma NobodyBlamesAnchor()
    ensures !QuorumOf(FOUR, Blamers(ANCHOR, DagOf(Late()), FOUR))
  {
    var dag := DagOf(Late());
    forall r | r in dag.blocks ensures !IsBlamer(r, ANCHOR, dag, FOUR) {
      InDag(Late(), r);
      assert r.round == 7 ==> R(6, 2) in BlockAt(r).ancestors;
    }
    assert Blamers(ANCHOR, dag, FOUR) == {};
    SmallSet({}, {});
  }

  /** No decision block of the late view has three votes. */
  lemma LateUncertified(c: DagBlockRef)
    requires c in DagOf(Late()).blocks && c.round == 5
    ensures !Certifies(DagOf(Late()).blocks[c], LEADER, R(3, 3), DagOf(Late()), FOUR)
  {
    var dag := DagOf(Late());
    InDag(Late(), c);
    var voters := Voters(BlockAt(c).ancestors, LEADER, R(3, 3), dag, FOUR);
    forall a | a in BlockAt(c).ancestors && IsVoter(a, LEADER, R(3, 3), dag, FOUR) ensures a.author in {1, 2} {
      InDag(Late(), a);
    }
    assert voters <= {1, 2};
    SmallSet(voters, {1, 2});
  }

  lemma LateSkips()
    ensures Direct(LEADER, DagOf(Late()), FOUR).Undecided?
    ensures ByAnchor(LEADER, R(6, 2), DagOf(Late()), FOUR) == Skip(LEADER)
  {
    var dag := DagOf(Late());
    NoBlame(Late());
    InDag(Late(), R(6, 2));
    assert dag.bySlot[LEADER] == R(3, 3);
    forall c | c in dag.blocks && c.round == 5 ensures !Certifies(dag.blocks[c], LEADER, R(3, 3), dag, FOUR) {
      LateUncertified(c);
    }
  }

  /** All four validators are honest and both views are valid, yet one node commits the leader of
      round 3 and the other skips it. */
  lemma OneCertificateSplits()
    ensures FewFaulty(FOUR, FOUR.members.Keys) && Compatible(FOUR.members.Keys, DagOf(Early()), DagOf(Late()))
    ensures DagOk(DagOf(Early()), FOUR) && DagOk(DagOf(Late()), FOUR)
    ensures Decision(LEADER, [], DagOf(Early()), FOUR) == Commit(R(3, 3))
    ensures Decision(ANCHOR, [], DagOf(Late()), FOUR) == Commit(R(6, 2))
    ensures Decision(LEADER, [Decision(ANCHOR, [], DagOf(Late()), FOUR)], DagOf(Late()), FOUR) == Skip(LEADER)
  {
    EarlyClosed();
    LateClosed();
    BuiltDagOk(Early());
    BuiltDagOk(Late());
    NobodyFaulty();
    BuiltCompatible(Early(), Late());
    EarlyCommits();
    LateAnchor();
    LateSkips();
  }

  lemma NoLeaderHere(leaderOf: nat -> Slot, round: nat, upper: nat, dag: Dag)
    requires round <= upper && round % WAVE_LENGTH != 0
    ensures Leaders(leaderOf, round, upper, dag, FOUR) == Leaders(leaderOf, round + 1, upper, dag, FOUR)
  {
  }

  /** The round-robin schedule of the committee. */
  function Schedule(round: nat): Slot { ElectLeader([0, 1, 2, 3], 0, map[], round) }

  lemma CommitteeOrder()
    ensures Keys(FOUR.members.Keys) == [0, 1, 2, 3]
  {
    assert FOUR.members.Keys == {0, 1, 2, 3};
    FourInOrder({0, 1, 2, 3}, Keys({0, 1, 2, 3}));
  }

  lemma FourInOrder(s: set<nat>, order: seq<nat>)
    requires s == {0, 1, 2, 3} && |order| == |s| && Increasing(order) && forall x :: x in order ==> x in s
    ensures order == [0, 1, 2, 3]
  {
    assert |s| == 4;
    assert order[0] in s && order[1] in s && order[2] in s && order[3] in s;
    assert order[0] < order[1] < order[2] < order[3] < 4;
  }

  /** So, under the schedule the code elects, the two nodes emit different sequences. */
  lemma OutputsSplit()
    ensures Keys(FOUR.members.Keys) == [0, 1, 2, 3]
    ensures DecidedPrefix(Leaders(Schedule, 1, 3, DagOf(Early()), FOUR)) == [Commit(R(3, 3))]
    ensures DecidedPrefix(Leaders(Schedule, 1, 6, DagOf(Late()), FOUR)) == [Skip(LEADER), Commit(R(6, 2))]
  {
    CommitteeOrder();
    assert Schedule(3) == LEADER && Schedule(6) == ANCHOR;
    OneCertificateSplits();
    Emitted(Schedule, DagOf(Early()), DagOf(Late()));
  }

  lemma Emitted(leaderOf: nat -> Slot, early: Dag, late: Dag)
    requires leaderOf(3) == LEADER && leaderOf(6) == ANCHOR
    requires Decision(LEADER, [], early, FOUR) == Commit(R(3, 3)) && Decision(ANCHOR, [], late, FOUR) == Commit(R(6, 2))
    requires Decision(LEADER, [Decision(ANCHOR, [], late, FOUR)], late, FOUR) == Skip(LEADER)
    ensures DecidedPrefix(Leaders(leaderOf, 1, 3, early, FOUR)) == [Commit(R(3, 3))]
    ensures DecidedPrefix(Leaders(leaderOf, 1, 6, late, FOUR)) == [Skip(LEADER), Commit(R(6, 2))]
  {
    EmittedUpTo3(leaderOf, early);
    EmittedUpTo6(leaderOf, late);
    BothDecided([Commit(R(3, 3))]);
    BothDecided([Skip(LEADER), Commit(R(6, 2))]);
  }

  lemma {:induction false} BothDecided(ss: seq<Pulse.Status>)
    requires forall i :: 0 <= i < |ss| ==> !ss[i].Undecided?
    ensures DecidedPrefix(ss) == ss
  {
    if ss != [] { BothDecided(ss[1..]); }
  }

  lemma EmittedUpTo3(leaderOf: nat -> Slot, dag: Dag)
    ensures Leaders(leaderOf, 1, 3, dag, FOUR) == [Decision(leaderOf(3), [], dag, FOUR)]
  {
    NoLeaderHere(leaderOf, 1, 3, dag);
    NoLeaderHere(leaderOf, 2, 3, dag);
    assert Leaders(leaderOf, 4, 3, dag, FOUR) == [];
  }

  lemma EmittedUpTo6(leaderOf: nat -> Slot, dag: Dag)
    ensures var top := Decision(leaderOf(6), [], dag, FOUR);
            Leaders(leaderOf, 1, 6, dag, FOUR) == [Decision(leaderOf(3), [top], dag, FOUR), top]
  {
    NoLeaderHere(leaderOf, 1, 6, dag);
    NoLeaderHere(leaderOf, 2, 6, dag);
    NoLeaderHere(leaderOf, 4, 6, dag);
    NoLeaderHere(leaderOf, 5, 6, dag);
    assert Leaders(leaderOf, 7, 6, dag, FOUR) == [];
    assert Leaders(leaderOf, 6, 6, dag, FOUR) == [Decision(leaderOf(6), [], dag, FOUR)];
  }
}
