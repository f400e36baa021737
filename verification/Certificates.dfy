/** Quorum certificates: verification (`lemma-consensus/src/cert.rs`) and the commit-ack
    accumulator that builds them (`lemma-consensus/src/commit_ack.rs`). */
module Certificates {
  import opened Primitives
  import opened Ordered
  import opened Weights
  import opened Stake
  import opened Committee

  type Signature = nat

  datatype QuorumCert = QuorumCert(height: nat, headerDigest: Hash, signers: map<Address, Signature>)

  datatype CertError =
    | CertDigestMismatch(expected: Hash, got: Hash)
    | NonMemberSigner(signer: Address)
    | CertInvalidSignature(signer: Address)
    | InsufficientQuorum(accumulated: nat, total: nat)
    | CertStakeOverflow(signer: Address)

  /** A signature counts only when the injected results report it valid. */
  predicate SigOk(sigs: map<Address, bool>, a: Address) { a in sigs && sigs[a] }

  /** What it means for a certificate to be accepted. */
  ghost predicate Accepts(qc: QuorumCert, vset: ValidatorSet, digest: Hash, sigs: map<Address, bool>) {
    && qc.headerDigest == digest
    && qc.signers.Keys <= vset.members.Keys
    && (forall a :: a in qc.signers ==> a in sigs && sigs[a] == true)
    && Power(vset, qc.signers.Keys) <= U128_MAX
    && Exceeds(Power(vset, qc.signers.Keys), vset.totalPower, Quorum)
  }

  /** The tally after counting exactly the members in `s`. */
  ghost function TallyOf(vset: ValidatorSet, s: set<Address>): Tally
    requires s <= vset.members.Keys
  {
    Tally(Quorum, vset.totalPower, Power(vset, s), s, Exceeds(Power(vset, s), vset.totalPower, Quorum))
  }

  /** Counting one more member keeps the tally in step with the set of counted members. */
  lemma CountMember(vset: ValidatorSet, s: set<Address>, a: Address)
    requires s <= vset.members.Keys && a in vset.members && a !in s
    ensures Power(vset, s + {a}) == Power(vset, s) + vset.members[a].power
    ensures var r := Counted(TallyOf(vset, s), a, vset.members[a].power);
            if Power(vset, s + {a}) <= U128_MAX
            then r.0 == TallyOf(vset, s + {a}) && r.1 == Ok(r.0.reached)
            else r == (TallyOf(vset, s), Err(StakeOverflow(a)))
  {
    TotalAdd(Powers(vset.members), s, a);
  }

  /** Verification accepts exactly the certificates that cover the expected digest and carry
      only valid member signatures with more than two thirds of the power. A signer blamed
      by an error is the first bad one in address order. */
  method VerifyQuorumCert(qc: QuorumCert, vset: ValidatorSet, expected: Hash, sigs: map<Address, bool>)
    returns (r: Result<(), CertError>)
    ensures r.Ok? <==> Accepts(qc, vset, expected, sigs)
    ensures r == Err(CertDigestMismatch(expected, qc.headerDigest)) <==> qc.headerDigest != expected
    ensures r.Err? && r.error.NonMemberSigner? ==>
              FirstBad(qc, vset, sigs, r.error.signer) && r.error.signer !in vset.members
    ensures r.Err? && r.error.CertInvalidSignature? ==>
              FirstBad(qc, vset, sigs, r.error.signer) && r.error.signer in vset.members
    ensures r.Err? && r.error.InsufficientQuorum? ==>
              && qc.signers.Keys <= vset.members.Keys && (forall a :: a in qc.signers ==> SigOk(sigs, a))
              && r.error == InsufficientQuorum(Power(vset, qc.signers.Keys), vset.totalPower)
    ensures r.Err? && r.error.CertStakeOverflow? ==> OverflowsAtSigner(qc, vset, r.error.signer)
  {
    if qc.headerDigest != expected {
      return Err(CertDigestMismatch(expected, qc.headerDigest));
    }
    var agg := new StakeAggregator(Quorum, vset.totalPower);
    var rest := qc.signers.Keys;
    ghost var done: set<Address> := {};
    while rest != {}
      invariant done !! rest && done + rest == qc.signers.Keys
      invariant forall x, y :: x in done && y in rest ==> x < y
      invariant done <= vset.members.Keys && forall a :: a in done ==> SigOk(sigs, a)
      invariant agg.Value() == TallyOf(vset, done) && Power(vset, done) <= U128_MAX
    {
      var a := First(rest);
      if a !in vset.members {
        return Err(NonMemberSigner(a));
      }
      if !SigOk(sigs, a) {
        return Err(CertInvalidSignature(a));
      }
      CountMember(vset, done, a);
      var counted := agg.Add(a, vset.members[a].power);
      if counted.Err? {
        OverflowRejects(qc, vset, expected, sigs, done + {a});
        assert done + {a} == SignersUpTo(qc, a);
        return Err(CertStakeOverflow(a));
      }
      done, rest := done + {a}, rest - {a};
    }
    assert done == qc.signers.Keys;
    var reached := agg.IsReached();
    if !reached {
      return Err(InsufficientQuorum(agg.accumulated, vset.totalPower));
    }
    r := Ok(());
  }

  ghost predicate FirstBad(qc: QuorumCert, vset: ValidatorSet, sigs: map<Address, bool>, a: Address) {
    && a in qc.signers
    && !(a in vset.members && SigOk(sigs, a))
    && forall b :: b in qc.signers && b < a ==> b in vset.members && SigOk(sigs, b)
  }

  /** The power of the signers up to `a` in address order leaves `u128`. */
  ghost predicate OverflowsAtSigner(qc: QuorumCert, vset: ValidatorSet, a: Address) {
    a in qc.signers && SignersUpTo(qc, a) <= vset.members.Keys && Power(vset, SignersUpTo(qc, a)) > U128_MAX
  }

  ghost function SignersUpTo(qc: QuorumCert, a: Address): set<Address> { set b | b in qc.signers && b <= a }

  lemma OverflowRejects(qc: QuorumCert, vset: ValidatorSet, digest: Hash, sigs: map<Address, bool>, s: set<Address>)
    requires s <= vset.members.Keys && s <= qc.signers.Keys && Power(vset, s) > U128_MAX
    ensures !Accepts(qc, vset, digest, sigs)
  {
    if qc.signers.Keys <= vset.members.Keys {
      TotalMonotone(Powers(vset.members), s, qc.signers.Keys);
    }
  }

  // ---- agreement ---------------------------------------------------------------------

  /** Any two accepted certificates share signers with more than a third of the power. */
  lemma QuorumIntersection(vset: ValidatorSet,
                           qc1: QuorumCert, d1: Hash, sigs1: map<Address, bool>,
                           qc2: QuorumCert, d2: Hash, sigs2: map<Address, bool>)
    requires WellFormed(vset)
    requires Accepts(qc1, vset, d1, sigs1) && Accepts(qc2, vset, d2, sigs2)
    ensures 3 * Power(vset, qc1.signers.Keys * qc2.signers.Keys) > vset.totalPower
  {
    var w, s1, s2 := Powers(vset.members), qc1.signers.Keys, qc2.signers.Keys;
    ThresholdSound(Power(vset, s1), vset.totalPower, Quorum);
    ThresholdSound(Power(vset, s2), vset.totalPower, Quorum);
    TotalUnionIntersection(w, s1, s2);
    TotalMonotone(w, s1 + s2, vset.members.Keys);
  }

  /** Every signature that the verifier was told is valid was really made, for this height. */
  ghost predicate Authentic(qc: QuorumCert, sigs: map<Address, bool>, signed: iset<(Address, nat, Hash)>) {
    forall a :: a in qc.signers && SigOk(sigs, a) ==> (a, qc.height, qc.headerDigest) in signed
  }

  /** An honest validator signs at most one header digest at each height. */
  ghost predicate SignsOnce(honest: set<Address>, signed: iset<(Address, nat, Hash)>) {
    forall a, h, d, e :: a in honest && (a, h, d) in signed && (a, h, e) in signed ==> d == e
  }

  /** With at most a third of the power outside the honest set, two digests at one height are
      never both certifiable. */
  lemma Agreement(vset: ValidatorSet, honest: set<Address>, signed: iset<(Address, nat, Hash)>,
                  qc1: QuorumCert, d1: Hash, sigs1: map<Address, bool>,
                  qc2: QuorumCert, d2: Hash, sigs2: map<Address, bool>)
    requires WellFormed(vset)
    requires 3 * Power(vset, vset.members.Keys - honest) <= vset.totalPower
    requires SignsOnce(honest, signed) && Authentic(qc1, sigs1, signed) && Authentic(qc2, sigs2, signed)
    requires Accepts(qc1, vset, d1, sigs1) && Accepts(qc2, vset, d2, sigs2)
    requires qc1.height == qc2.height
    ensures d1 == d2
  {
    QuorumIntersection(vset, qc1, d1, sigs1, qc2, d2, sigs2);
    var common := qc1.signers.Keys * qc2.signers.Keys;
    if common <= vset.members.Keys - honest {
      TotalMonotone(Powers(vset.members), common, vset.members.Keys - honest);
    }
    var a :| a in common && a in honest;
    assert (a, qc1.height, d1) in signed && (a, qc1.height, d2) in signed;
  }

  /** Conversely, whenever two quorums have no honest member in common, honest validators can
      each sign once and both digests still get a certificate that verifies. */
  lemma DisjointHonestQuorumsDisagree(vset: ValidatorSet, honest: set<Address>, s1: set<Address>, s2: set<Address>,
                                      d1: Hash, d2: Hash)
    returns (signed: iset<(Address, nat, Hash)>, qc1: QuorumCert, qc2: QuorumCert, sigs: map<Address, bool>)
    requires WellFormed(vset) && s1 <= vset.members.Keys && s2 <= vset.members.Keys
    requires Exceeds(Power(vset, s1), vset.totalPower, Quorum) && Exceeds(Power(vset, s2), vset.totalPower, Quorum)
    requires s1 * s2 * honest == {}
    ensures SignsOnce(honest, signed) && Authentic(qc1, sigs, signed) && Authentic(qc2, sigs, signed)
    ensures qc1.height == qc2.height
    ensures Accepts(qc1, vset, d1, sigs) && Accepts(qc2, vset, d2, sigs)
  {
    qc1 := QuorumCert(0, d1, map a | a in s1 :: 0);
    qc2 := QuorumCert(0, d2, map a | a in s2 :: 0);
    sigs := map a | a in s1 + s2 :: true;
    signed := iset x: (Address, nat, Hash) | x.1 == 0 && ((x.2 == d1 && x.0 in s1) || (x.2 == d2 && x.0 in s2));
    assert SignsOnce(honest, signed) by {
      forall a, h, d, e | a in honest && (a, h, d) in signed && (a, h, e) in signed ensures d == e {
        assert a !in s1 * s2 * honest;
      }
    }
    TotalMonotone(Powers(vset.members), s1, vset.members.Keys);
    TotalMonotone(Powers(vset.members), s2, vset.members.Keys);
    assert qc1.signers.Keys == s1 && qc2.signers.Keys == s2;
  }

  /** Both certificates verify for one height, every signature was made, honest validators signed
      once, and the digests differ. */
  ghost predicate Disagree(vset: ValidatorSet, honest: set<Address>, signed: iset<(Address, nat, Hash)>,
                           qc1: QuorumCert, sigs1: map<Address, bool>, qc2: QuorumCert, sigs2: map<Address, bool>) {
    && SignsOnce(honest, signed) && Authentic(qc1, sigs1, signed) && Authentic(qc2, sigs2, signed)
    && Accepts(qc1, vset, qc1.headerDigest, sigs1) && Accepts(qc2, vset, qc2.headerDigest, sigs2)
    && qc1.height == qc2.height && qc1.headerDigest != qc2.headerDigest
  }

  ghost predicate IsQuorum(vset: ValidatorSet, s: set<Address>) {
    s <= vset.members.Keys && Exceeds(Power(vset, s), vset.totalPower, Quorum)
  }

  ghost predicate QuorumsMeet(vset: ValidatorSet, honest: set<Address>) {
    forall s1, s2 :: IsQuorum(vset, s1) && IsQuorum(vset, s2) ==> s1 * s2 * honest != {}
  }

  lemma MeetingQuorumsAgree(vset: ValidatorSet, honest: set<Address>, signed: iset<(Address, nat, Hash)>,
                            qc1: QuorumCert, sigs1: map<Address, bool>, qc2: QuorumCert, sigs2: map<Address, bool>)
    requires QuorumsMeet(vset, honest) && qc1.height == qc2.height
    requires SignsOnce(honest, signed) && Authentic(qc1, sigs1, signed) && Authentic(qc2, sigs2, signed)
    requires Accepts(qc1, vset, qc1.headerDigest, sigs1) && Accepts(qc2, vset, qc2.headerDigest, sigs2)
    ensures qc1.headerDigest == qc2.headerDigest
  {
    assert IsQuorum(vset, qc1.signers.Keys) && IsQuorum(vset, qc2.signers.Keys);
    var a :| a in qc1.signers.Keys * qc2.signers.Keys * honest;
    assert (a, qc1.height, qc1.headerDigest) in signed && (a, qc1.height, qc2.headerDigest) in signed;
  }

  /** No two digests are ever both certified if and only if every two quorums share an honest member. */
  lemma AgreementIff(vset: ValidatorSet, honest: set<Address>)
    requires WellFormed(vset)
    ensures (forall signed: iset<(Address, nat, Hash)>, qc1: QuorumCert, sigs1: map<Address, bool>,
                    qc2: QuorumCert, sigs2: map<Address, bool> ::
               !Disagree(vset, honest, signed, qc1, sigs1, qc2, sigs2))
            <==> QuorumsMeet(vset, honest)
  {
    if QuorumsMeet(vset, honest) {
      forall signed: iset<(Address, nat, Hash)>, qc1: QuorumCert, sigs1: map<Address, bool>,
             qc2: QuorumCert, sigs2: map<Address, bool>
        ensures !Disagree(vset, honest, signed, qc1, sigs1, qc2, sigs2)
      {
        if Disagree(vset, honest, signed, qc1, sigs1, qc2, sigs2) {
          MeetingQuorumsAgree(vset, honest, signed, qc1, sigs1, qc2, sigs2);
        }
      }
    } else {
      var s1, s2 :| IsQuorum(vset, s1) && IsQuorum(vset, s2) && s1 * s2 * honest == {};
      var signed, qc1, qc2, sigs := DisjointHonestQuorumsDisagree(vset, honest, s1, s2, 0, 1);
      assert Disagree(vset, honest, signed, qc1, sigs, qc2, sigs);
    }
  }

  // ---- the accumulator ---------------------------------------------------------------

  datatype CommitAck = CommitAck(height: nat, headerDigest: Hash, signer: Address, signature: Signature)

  datatype AckError =
    | HeightMismatch(expected: nat, got: nat)
    | DigestMismatch(expectedDigest: Hash, gotDigest: Hash)
    | UnknownSigner(signer: Address)
    | InvalidSignature(signer: Address)
    | Equivocation(signer: Address)
    | AckStakeOverflow(signer: Address)

  /** The fields of a `CommitAckAccumulator` as one value. */
  datatype AckState = AckState(height: nat, headerDigest: Hash, inner: Tally, signers: map<Address, Signature>)

  function FreshAcks(height: nat, headerDigest: Hash, totalPower: nat): AckState {
    AckState(height, headerDigest, Fresh(Quorum, totalPower), map[])
  }

  /** What `CommitAckAccumulator::add` does to the fields and what it returns. */
  function Acked(s: AckState, ack: CommitAck, vset: ValidatorSet, sigOk: bool): (AckState, Result<bool, AckError>) {
    if ack.height != s.height then (s, Err(HeightMismatch(s.height, ack.height)))
    else if ack.headerDigest != s.headerDigest then (s, Err(DigestMismatch(s.headerDigest, ack.headerDigest)))
    else if ack.signer !in vset.members then (s, Err(UnknownSigner(ack.signer)))
    else if !sigOk then (s, Err(InvalidSignature(ack.signer)))
    else if ack.signer in s.signers then (s, Err(Equivocation(ack.signer)))
    else
      var (tally, counted) := Counted(s.inner, ack.signer, vset.members[ack.signer].power);
      match counted
      case Err(_) => (s.(inner := tally), Err(AckStakeOverflow(ack.signer)))
      case Ok(reached) => (s.(inner := tally, signers := s.signers[ack.signer := ack.signature]), Ok(reached))
  }

  function TryBuild(s: AckState): Option<QuorumCert> {
    if s.inner.reached then Some(QuorumCert(s.height, s.headerDigest, s.signers)) else None
  }

  class CommitAckAccumulator {
    const height: nat
    const headerDigest: Hash
    const inner: StakeAggregator
    var signers: map<Address, Signature>

    function Value(): AckState
      reads this, inner
    {
      AckState(height, headerDigest, inner.Value(), signers)
    }

    constructor (height: nat, headerDigest: Hash, totalPower: nat)
      ensures Value() == FreshAcks(height, headerDigest, totalPower)
      ensures fresh(inner)
    {
      this.height, this.headerDigest := height, headerDigest;
      inner := new StakeAggregator(Quorum, totalPower);
      signers := map[];
    }

    /** A rejected ack leaves every field as it was. */
    method Add(ack: CommitAck, vset: ValidatorSet, sigOk: bool) returns (r: Result<bool, AckError>)
      modifies this, inner
      ensures (Value(), r) == Acked(old(Value()), ack, vset, sigOk)
      ensures r.Err? ==> Value() == old(Value())
    {
      if ack.height != height {
        return Err(HeightMismatch(height, ack.height));
      }
      if ack.headerDigest != headerDigest {
        return Err(DigestMismatch(headerDigest, ack.headerDigest));
      }
      if ack.signer !in vset.members {
        return Err(UnknownSigner(ack.signer));
      }
      if !sigOk {
        return Err(InvalidSignature(ack.signer));
      }
      if ack.signer in signers {
        return Err(Equivocation(ack.signer));
      }
      var counted := inner.Add(ack.signer, vset.members[ack.signer].power);
      if counted.Err? {
        return Err(AckStakeOverflow(ack.signer));
      }
      signers := signers[ack.signer := ack.signature];
      r := Ok(counted.value);
    }

    method TryBuildQc() returns (qc: Option<QuorumCert>)
      ensures qc == TryBuild(Value())
    {
      var reached := inner.IsReached();
      qc := if reached then Some(QuorumCert(height, headerDigest, signers)) else None;
    }
  }

  /** A delivered ack together with the node's verdict on its signature. */
  datatype Delivery = Delivery(ack: CommitAck, sigOk: bool)

  function AfterAcks(s: AckState, vset: ValidatorSet, log: seq<Delivery>): AckState {
    if log == [] then s else
      var last := log[|log| - 1];
      Acked(AfterAcks(s, vset, log[..|log| - 1]), last.ack, vset, last.sigOk).0
  }

  ghost predicate Valid(d: Delivery, height: nat, digest: Hash, vset: ValidatorSet) {
    d.ack.height == height && d.ack.headerDigest == digest && d.ack.signer in vset.members && d.sigOk
  }

  ghost function ValidSigners(log: seq<Delivery>, height: nat, digest: Hash, vset: ValidatorSet): set<Address> {
    set d | d in log && Valid(d, height, digest, vset) :: d.ack.signer
  }

  /** The accumulator for one header after a delivery log. */
  function Collected(vset: ValidatorSet, height: nat, digest: Hash, log: seq<Delivery>): AckState {
    AfterAcks(FreshAcks(height, digest, vset.totalPower), vset, log)
  }

  /** After any delivery log the accumulator has counted exactly the members with a valid ack
      and caches the right quorum verdict. */
  lemma {:induction false} AccumulatorRun(vset: ValidatorSet, height: nat, digest: Hash, log: seq<Delivery>)
    requires WellFormed(vset)
    ensures var s := Collected(vset, height, digest, log);
            && s.height == height && s.headerDigest == digest
            && s.signers.Keys == ValidSigners(log, height, digest, vset) <= vset.members.Keys
            && s.inner == TallyOf(vset, s.signers.Keys)
  {
    if log != [] {
      var front, last := log[..|log| - 1], log[|log| - 1];
      AccumulatorRun(vset, height, digest, front);
      ValidSignersStep(log, height, digest, vset);
      var s := Collected(vset, height, digest, front);
      if Valid(last, height, digest, vset) && last.ack.signer !in s.signers {
        CountMember(vset, s.signers.Keys, last.ack.signer);
        TotalMonotone(Powers(vset.members), s.signers.Keys + {last.ack.signer}, vset.members.Keys);
      }
    }
  }

  lemma ValidSignersStep(log: seq<Delivery>, height: nat, digest: Hash, vset: ValidatorSet)
    requires log != []
    ensures var last := log[|log| - 1];
            ValidSigners(log, height, digest, vset)
            == ValidSigners(log[..|log| - 1], height, digest, vset)
               + (if Valid(last, height, digest, vset) then {last.ack.signer} else {})
  {
    assert log == log[..|log| - 1] + [log[|log| - 1]];
  }

  /** The answer to the next ack after any delivery log: the first check that fails, a second valid ack
      of a signer, or whether the valid acks now carry a quorum. The tally never overflows. */
  lemma AnswerAfterLog(vset: ValidatorSet, height: nat, digest: Hash, log: seq<Delivery>, d: Delivery)
    requires WellFormed(vset)
    ensures var r := Acked(Collected(vset, height, digest, log), d.ack, vset, d.sigOk).1;
            if d.ack.height != height then r == Err(HeightMismatch(height, d.ack.height))
            else if d.ack.headerDigest != digest then r == Err(DigestMismatch(digest, d.ack.headerDigest))
            else if d.ack.signer !in vset.members then r == Err(UnknownSigner(d.ack.signer))
            else if !d.sigOk then r == Err(InvalidSignature(d.ack.signer))
            else if d.ack.signer in ValidSigners(log, height, digest, vset) then r == Err(Equivocation(d.ack.signer))
            else r == Ok(IsQuorum(vset, ValidSigners(log + [d], height, digest, vset)))
  {
    AccumulatorRun(vset, height, digest, log);
    AccumulatorRun(vset, height, digest, log + [d]);
    assert (log + [d])[..|log|] == log;
  }

  /** `log[i]` is the first valid ack of its signer. */
  ghost predicate FirstValid(log: seq<Delivery>, i: nat, a: Address, height: nat, digest: Hash, vset: ValidatorSet) {
    && i < |log| && Valid(log[i], height, digest, vset) && log[i].ack.signer == a
    && forall j :: 0 <= j < i && Valid(log[j], height, digest, vset) ==> log[j].ack.signer != a
  }

  /** Each recorded signature is the one of its signer's first valid ack. */
  lemma {:induction false} SignaturesDelivered(vset: ValidatorSet, height: nat, digest: Hash, log: seq<Delivery>,
                                               a: Address) returns (i: nat)
    requires WellFormed(vset) && a in Collected(vset, height, digest, log).signers
    ensures FirstValid(log, i, a, height, digest, vset)
    ensures Collected(vset, height, digest, log).signers[a] == log[i].ack.signature
  {
    var front := log[..|log| - 1];
    AccumulatorRun(vset, height, digest, front);
    var s := Collected(vset, height, digest, front);
    assert forall j :: 0 <= j < |front| ==> front[j] == log[j] && log[j] in front;
    if a in s.signers {
      i := SignaturesDelivered(vset, height, digest, front, a);
    } else {
      i := |log| - 1;
    }
  }

  /** Every certificate the accumulator hands out verifies, whatever the deliveries were. */
  lemma BuiltCertVerifies(vset: ValidatorSet, height: nat, digest: Hash, log: seq<Delivery>, sigs: map<Address, bool>)
    requires WellFormed(vset)
    requires var built := TryBuild(Collected(vset, height, digest, log));
             built.Some? && forall a :: a in built.value.signers ==> SigOk(sigs, a)
    ensures var built := TryBuild(Collected(vset, height, digest, log));
            Accepts(built.value, vset, digest, sigs) && built.value.height == height
  {
    AccumulatorRun(vset, height, digest, log);
    var s := Collected(vset, height, digest, log);
    TotalMonotone(Powers(vset.members), s.signers.Keys, vset.members.Keys);
  }

  /** A certificate is available exactly when the valid acks delivered so far carry a quorum. */
  lemma BuiltIffQuorum(vset: ValidatorSet, height: nat, digest: Hash, log: seq<Delivery>)
    requires WellFormed(vset)
    ensures ValidSigners(log, height, digest, vset) <= vset.members.Keys
    ensures TryBuild(Collected(vset, height, digest, log)).Some?
            <==> Exceeds(Power(vset, ValidSigners(log, height, digest, vset)), vset.totalPower, Quorum)
  {
    AccumulatorRun(vset, height, digest, log);
  }

  /** Arrival order and duplication are invisible when each signer has one signature. */
  lemma ArrivalOrderInvisible(vset: ValidatorSet, height: nat, digest: Hash, xs: seq<Delivery>, ys: seq<Delivery>,
                              signature: map<Address, Signature>)
    requires WellFormed(vset)
    requires ValidSigners(xs, height, digest, vset) == ValidSigners(ys, height, digest, vset)
    requires forall d :: (d in xs || d in ys) && Valid(d, height, digest, vset) ==>
               d.ack.signer in signature && d.ack.signature == signature[d.ack.signer]
    ensures Collected(vset, height, digest, xs) == Collected(vset, height, digest, ys)
  {
    AccumulatorRun(vset, height, digest, xs);
    AccumulatorRun(vset, height, digest, ys);
    var s, t := Collected(vset, height, digest, xs).signers, Collected(vset, height, digest, ys).signers;
    forall a | a in s ensures s[a] == t[a] {
      var i := SignaturesDelivered(vset, height, digest, xs, a);
      var j := SignaturesDelivered(vset, height, digest, ys, a);
      assert xs[i] in xs && ys[j] in ys;
    }
    assert s == t;
  }
}
