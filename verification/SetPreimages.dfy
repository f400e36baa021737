/** The digest framing of a validator set: `lemma-core/src/validator_set.rs`. */
module SetPreimages {
  import opened Primitives
  import opened Ordered
  import opened Framing
  import opened Committee

  function MemberBytes(a: Address, m: Member): Bytes { BE(20, a) + m.key.classical + m.key.quantum + BE(16, m.power) }

  function EntriesBytes(members: map<Address, Member>, order: seq<Address>): Bytes
    requires forall i :: 0 <= i < |order| ==> order[i] in members
  {
    if order == [] then [] else MemberBytes(order[0], members[order[0]]) + EntriesBytes(members, order[1..])
  }

  /** The bytes fed to the hasher, in address order. */
  function SetBytes(members: map<Address, Member>): Bytes { EntriesBytes(members, Keys(members.Keys)) }

  /** The sizes of the two halves of a consensus key. */
  datatype KeySize = KeySize(classical: nat, quantum: nat)

  /** An Ed25519 and an ML-DSA-65 key. */
  const HYBRID := KeySize(32, 1952)

  function RecordSize(z: KeySize): nat { 20 + z.classical + z.quantum + 16 }

  predicate HasSize(m: Member, z: KeySize) { |m.key.classical| == z.classical && |m.key.quantum| == z.quantum }

  ghost predicate Typed(a: Address, m: Member) { a < Pow256(20) && m.power <= U128_MAX }

  /** Reads back records of one key size. */
  function MemberIn(bs: Bytes, z: KeySize): Member
    requires |bs| >= RecordSize(z)
  {
    var split, end := 20 + z.classical, 20 + z.classical + z.quantum;
    Member(ConsensusKey(bs[20..split], bs[split..end]), ValueBE(bs[end..end + 16]))
  }

  function ParseSet(z: KeySize, bs: Bytes): map<Address, Member>
    decreases |bs|
  {
    if |bs| < RecordSize(z) then map[] else
      ParseSet(z, bs[RecordSize(z)..])[ValueBE(bs[..20]) := MemberIn(bs, z)]
  }

  lemma Slices(a: Bytes, b: Bytes, c: Bytes, d: Bytes, rest: Bytes)
    ensures var bs, i, j, k := a + b + c + d + rest, |a| + |b|, |a| + |b| + |c|, |a| + |b| + |c| + |d|;
            bs[..|a|] == a && bs[|a|..i] == b && bs[i..j] == c && bs[j..k] == d && bs[k..] == rest
  {
  }

  lemma FieldsBack(a: Address, m: Member)
    requires Typed(a, m)
    ensures ValueBE(BE(20, a)) == a && ValueBE(BE(16, m.power)) == m.power
  {
    MachineWidths();
    BigEndianRoundTrip(20, a);
    BigEndianRoundTrip(16, m.power);
  }

  lemma MemberRoundTrip(z: KeySize, a: Address, m: Member, rest: Bytes)
    requires Typed(a, m) && HasSize(m, z)
    ensures ParseSet(z, MemberBytes(a, m) + rest) == ParseSet(z, rest)[a := m]
  {
    FieldsBack(a, m);
    Slices(BE(20, a), m.key.classical, m.key.quantum, BE(16, m.power), rest);
  }

  lemma {:induction false} EntriesRoundTrip(z: KeySize, members: map<Address, Member>, order: seq<Address>)
    requires forall i :: 0 <= i < |order| ==>
               order[i] in members && Typed(order[i], members[order[i]]) && HasSize(members[order[i]], z)
    ensures ParseSet(z, EntriesBytes(members, order)) == map a | a in order :: members[a]
  {
    if order == [] {
      assert ParseSet(z, []) == map[];
    } else {
      var a, rest := order[0], order[1..];
      EntriesRoundTrip(z, members, rest);
      var bytes := EntriesBytes(members, rest);
      MemberRoundTrip(z, a, members[a], bytes);
      assert ParseSet(z, EntriesBytes(members, order)) == ParseSet(z, bytes)[a := members[a]];
      FirstEntry(members, order);
    }
  }

  lemma FirstEntry(members: map<Address, Member>, order: seq<Address>)
    requires order != [] && forall a :: a in order ==> a in members
    ensures (map a | a in order[1..] :: members[a])[order[0] := members[order[0]]] == map a | a in order :: members[a]
  {
    assert order == [order[0]] + order[1..];
  }

  /** With keys of one size the committee is recovered from its preimage. */
  lemma SetRoundTrip(z: KeySize, members: map<Address, Member>)
    requires forall a :: a in members ==> Typed(a, members[a]) && HasSize(members[a], z)
    ensures ParseSet(z, SetBytes(members)) == members
  {
    var order := Keys(members.Keys);
    forall i | 0 <= i < |order|
      ensures order[i] in members && Typed(order[i], members[order[i]]) && HasSize(members[order[i]], z)
    {
      assert order[i] in order;
    }
    EntriesRoundTrip(z, members, order);
    WholeMap(members, order);
  }

  lemma WholeMap(members: map<Address, Member>, order: seq<Address>)
    requires forall a :: a in order <==> a in members
    ensures (map a | a in order :: members[a]) == members
  {
  }

  /** Each member in address order: its address, the two halves of its key and its power. */
  lemma {:induction false} SetLayout(members: map<Address, Member>, order: seq<Address>, i: nat)
    requires i < |order| && forall k :: 0 <= k < |order| ==> order[k] in members
    ensures var m := members[order[i]];
            EntriesBytes(members, order)
            == EntriesBytes(members, order[..i])
               + (BE(20, order[i]) + m.key.classical + m.key.quantum + BE(16, m.power))
               + EntriesBytes(members, order[i + 1..])
  {
    var head := MemberBytes(order[0], members[order[0]]);
    if i > 0 {
      var rest, j := order[1..], i - 1;
      SetLayout(members, rest, j);
      assert order[..i][1..] == rest[..j] && order[i + 1..] == rest[j + 1..];
      Reassociated(head, EntriesBytes(members, rest[..j]), MemberBytes(rest[j], members[rest[j]]),
                   EntriesBytes(members, rest[j + 1..]));
    }
  }

  lemma Reassociated(a: Bytes, b: Bytes, c: Bytes, d: Bytes)
    ensures a + (b + c + d) == a + b + c + d
  {
  }

  // ---- several key sizes -----------------------------------------------------------------

  /** A committee whose keys have sizes in `S`. */
  ghost predicate SizedIn(members: map<Address, Member>, S: iset<KeySize>) {
    forall a :: a in members ==> Typed(a, members[a]) && SizeOf(members[a]) in S
  }

  function SizeOf(m: Member): KeySize { KeySize(|m.key.classical|, |m.key.quantum|) }

  lemma FourParts(bs: Bytes, i: nat, j: nat, k: nat)
    requires i <= j <= k <= |bs|
    ensures bs[..i] + bs[i..j] + bs[j..k] + bs[k..] == bs
  {
  }

  /** Bytes of a field's width are the field's encoding. */
  lemma FieldOf(bs: Bytes, w: nat)
    requires |bs| == w
    ensures ValueBE(bs) < Pow256(w) && BE(w, ValueBE(bs)) == bs
    ensures w == 16 ==> ValueBE(bs) <= U128_MAX
  {
    BigEndianOfValue(bs);
    MachineWidths();
  }

  lemma RecordOf(head: Bytes, classical: Bytes, quantum: Bytes, power: Bytes)
    requires |head| == 20 && |power| == 16
    ensures MemberBytes(ValueBE(head), Member(ConsensusKey(classical, quantum), ValueBE(power)))
            == head + classical + quantum + power
    ensures Typed(ValueBE(head), Member(ConsensusKey(classical, quantum), ValueBE(power)))
  {
    FieldOf(head, 20);
    FieldOf(power, 16);
  }

  /** The fields of a record of `z`. */
  lemma PartsOf(z: KeySize, bs: Bytes) returns (head: Bytes, x: Bytes, y: Bytes, power: Bytes)
    requires |bs| == RecordSize(z)
    ensures |head| == 20 && |x| == z.classical && |y| == z.quantum && |power| == 16
    ensures head == bs[..20] && MemberIn(bs, z) == Member(ConsensusKey(x, y), ValueBE(power))
    ensures head + x + y + power == bs
  {
    var split, end := 20 + z.classical, 20 + z.classical + z.quantum;
    head, x, y, power := bs[..20], bs[20..split], bs[split..end], bs[end..];
    assert bs[end..end + 16] == power;
    FourParts(bs, 20, split, end);
  }

  /** Any bytes of a record's length are a record. */
  lemma BytesAreRecord(z: KeySize, bs: Bytes)
    requires |bs| == RecordSize(z)
    ensures var a, m := ValueBE(bs[..20]), MemberIn(bs, z);
            Typed(a, m) && SizeOf(m) == z && MemberBytes(a, m) == bs
  {
    var head, x, y, power := PartsOf(z, bs);
    RecordOf(head, x, y, power);
  }

  lemma PairInOrder(a: nat)
    requires a > 0
    ensures Keys({0, a}) == [0, a]
  {
    var order := Keys({0, a});
    assert |{0, a}| == 2;
    assert order[0] in order && order[1] in order;
  }

  /** Bytes read as a record of size `y` at address zero and one of size `z` above it. */
  function ReadAs(y: KeySize, z: KeySize, head: Bytes, tail: Bytes): map<Address, Member>
    requires |head| == RecordSize(y) && |tail| == RecordSize(z)
  {
    map[0 := MemberIn(head, y)][ValueBE(tail[..20]) := MemberIn(tail, z)]
  }

  lemma ReadBack(y: KeySize, z: KeySize, head: Bytes, tail: Bytes)
    requires |head| == RecordSize(y) && |tail| == RecordSize(z)
    requires ValueBE(head[..20]) == 0 && ValueBE(tail[..20]) > 0
    ensures SetBytes(ReadAs(y, z, head, tail)) == head + tail
  {
    BytesAreRecord(y, head);
    BytesAreRecord(z, tail);
    PairBytes(MemberIn(head, y), ValueBE(tail[..20]), MemberIn(tail, z), head, tail);
  }

  lemma ReadSized(y: KeySize, z: KeySize, head: Bytes, tail: Bytes, S: iset<KeySize>)
    requires |head| == RecordSize(y) && |tail| == RecordSize(z) && y in S && z in S
    requires ValueBE(head[..20]) == 0 && ValueBE(tail[..20]) > 0
    ensures SizedIn(ReadAs(y, z, head, tail), S) && SizeOf(ReadAs(y, z, head, tail)[0]) == y
  {
    BytesAreRecord(y, head);
    BytesAreRecord(z, tail);
  }

  lemma PairBytes(m: Member, a: Address, k: Member, head: Bytes, tail: Bytes)
    requires a > 0 && MemberBytes(0, m) == head && MemberBytes(a, k) == tail
    ensures SetBytes(map[0 := m][a := k]) == head + tail
  {
    var c := map[0 := m][a := k];
    PairInOrder(a);
    assert c.Keys == {0, a};
    TwoEntries(c, a);
  }

  lemma TwoEntries(c: map<Address, Member>, a: Address)
    requires 0 in c && a in c
    ensures EntriesBytes(c, [0, a]) == MemberBytes(0, c[0]) + MemberBytes(a, c[a])
  {
    assert [0, a][1..] == [a] && [a][1..] == [];
    assert EntriesBytes(c, [a]) == MemberBytes(a, c[a]) + EntriesBytes(c, []);
  }

  lemma {:induction false} ZerosAreZero(bs: Bytes)
    ensures (forall i :: 0 <= i < |bs| ==> bs[i] == 0) <==> ValueBE(bs) == 0
  {
    if bs != [] {
      var front := bs[..|bs| - 1];
      ZerosAreZero(front);
      assert forall i :: 0 <= i < |front| ==> bs[i] == front[i];
      assert (forall i :: 0 <= i < |bs| ==> bs[i] == 0) <==>
               (forall i :: 0 <= i < |front| ==> front[i] == 0) && bs[|bs| - 1] == 0;
    }
  }

  /** Zeros with a one where the second record of either reading begins. */
  function TwoReadings(y: KeySize, z: KeySize): (bs: Bytes)
    ensures |bs| == RecordSize(y) + RecordSize(z)
  {
    seq(RecordSize(y) + RecordSize(z), i => if i == RecordSize(y) || i == RecordSize(z) then 1 else 0)
  }

  lemma SecondIsNonzero(y: KeySize, z: KeySize) returns (head: Bytes, tail: Bytes)
    ensures |head| == RecordSize(y) && |tail| == RecordSize(z) && head + tail == TwoReadings(y, z)
    ensures ValueBE(head[..20]) == 0 && ValueBE(tail[..20]) > 0
  {
    var bs := TwoReadings(y, z);
    head, tail := bs[..RecordSize(y)], bs[RecordSize(y)..];
    ZerosAreZero(head[..20]);
    ZerosAreZero(tail[..20]);
    assert tail[..20][0] == 1;
  }

  lemma EitherOrder(y: KeySize, z: KeySize)
    ensures TwoReadings(y, z) == TwoReadings(z, y)
  {
  }

  lemma Reading(y: KeySize, z: KeySize, S: iset<KeySize>) returns (c: map<Address, Member>)
    requires y in S && z in S
    ensures SizedIn(c, S) && 0 in c && SizeOf(c[0]) == y && SetBytes(c) == TwoReadings(y, z)
  {
    var head, tail := SecondIsNonzero(y, z);
    ReadBack(y, z, head, tail);
    ReadSized(y, z, head, tail, S);
    c := ReadAs(y, z, head, tail);
  }

  /** For any two different key sizes there are two committees with keys of these sizes that share
      a preimage and differ in the member at address zero. */
  lemma SizesAlias(S: iset<KeySize>, y: KeySize, z: KeySize)
    returns (c: map<Address, Member>, d: map<Address, Member>)
    requires y in S && z in S && y != z
    ensures SizedIn(c, S) && SizedIn(d, S) && SetBytes(c) == SetBytes(d)
    ensures 0 in c && 0 in d && SizeOf(c[0]) == y && SizeOf(d[0]) == z
  {
    c := Reading(y, z, S);
    d := Reading(z, y, S);
    EitherOrder(y, z);
  }

  /** The preimage determines every committee with key sizes in `S`. */
  ghost predicate Binds(S: iset<KeySize>) {
    forall c: map<Address, Member>, d: map<Address, Member> ::
      (SizedIn(c, S) && SizedIn(d, S) && SetBytes(c) == SetBytes(d)) ==> c == d
  }

  /** It does so if and only if `S` has at most one element. */
  lemma PreimageBindsIff(S: iset<KeySize>)
    ensures Binds(S) <==> forall y, z :: y in S && z in S ==> y == z
  {
    if y, z :| y in S && z in S && y != z {
      SizesBreak(S, y, z);
    } else {
      forall c: map<Address, Member>, d: map<Address, Member>
        | SizedIn(c, S) && SizedIn(d, S) && SetBytes(c) == SetBytes(d)
        ensures c == d
      {
        OneSizeBinds(c, d, S);
      }
    }
  }

  lemma SizesBreak(S: iset<KeySize>, y: KeySize, z: KeySize)
    requires y in S && z in S && y != z
    ensures !Binds(S)
  {
    var c, d := SizesAlias(S, y, z);
    AliasBreaks(S, c, d);
  }

  lemma AliasBreaks(S: iset<KeySize>, c: map<Address, Member>, d: map<Address, Member>)
    requires SizedIn(c, S) && SizedIn(d, S) && SetBytes(c) == SetBytes(d)
    requires 0 in c && 0 in d && SizeOf(c[0]) != SizeOf(d[0])
    ensures !Binds(S)
  {
    assert c != d;
  }

  lemma OneSizeBinds(c: map<Address, Member>, d: map<Address, Member>, S: iset<KeySize>)
    requires SizedIn(c, S) && SizedIn(d, S) && SetBytes(c) == SetBytes(d)
    requires forall y, z :: y in S && z in S ==> y == z
    ensures c == d
  {
    var size := if z :| z in S then z else HYBRID;
    SetRoundTrip(size, c);
    SetRoundTrip(size, d);
  }

  /** An instance with one member: nothing separates the two halves of a key. */
  lemma KeyHalvesAlias(a: Address, power: nat)
    ensures var c, d := map[a := Member(ConsensusKey([1], []), power)], map[a := Member(ConsensusKey([], [1]), power)];
            c != d && SetBytes(c) == SetBytes(d)
  {
    var x: Bytes, none: Bytes := [1], [];
    var c, d := map[a := Member(ConsensusKey([1], []), power)], map[a := Member(ConsensusKey([], [1]), power)];
    assert c.Keys == {a} == d.Keys;
    assert |Keys({a})| == 1 && Keys({a})[0] in Keys({a});
    assert Keys({a}) == [a];
    assert BE(20, a) + x + none == BE(20, a) + none + x;
    assert c[a] != d[a];
    EntriesStep(c, [a], 0);
    EntriesStep(d, [a], 0);
    assert [a][..1] == [a];
  }

  // ---- the code --------------------------------------------------------------------------

  lemma {:induction false} EntriesStep(members: map<Address, Member>, order: seq<Address>, i: nat)
    requires i < |order| && forall k :: 0 <= k < |order| ==> order[k] in members
    ensures EntriesBytes(members, order[..i + 1])
        == EntriesBytes(members, order[..i]) + MemberBytes(order[i], members[order[i]])
  {
    if i > 0 {
      EntriesStep(members, order[1..], i - 1);
      assert order[..i + 1][1..] == order[1..][..i] && order[..i][1..] == order[1..][..i - 1];
    } else {
      assert order[..1] == [order[0]] && order[..1][1..] == [];
    }
  }

  method FeedMember(start: Bytes, a: Address, m: Member) returns (fed: Bytes)
    ensures fed == start + MemberBytes(a, m)
  {
    fed := start + BE(20, a);
    fed := fed + m.key.classical;
    fed := fed + m.key.quantum;
    fed := fed + BE(16, m.power);
  }

  /** `ValidatorSet::hash`. */
  method SetHash(D: Bytes -> Hash, vset: ValidatorSet) returns (hash: Hash)
    ensures hash == D(SetBytes(vset.members))
  {
    var fed := FeedMembers(vset.members, Keys(vset.members.Keys));
    hash := D(fed);
  }

  method FeedMembers(members: map<Address, Member>, order: seq<Address>) returns (fed: Bytes)
    requires forall i :: 0 <= i < |order| ==> order[i] in members
    ensures fed == EntriesBytes(members, order)
  {
    fed := [];
    for i := 0 to |order|
      invariant fed == EntriesBytes(members, order[..i])
    {
      EntriesStep(members, order, i);
      fed := FeedMember(fed, order[i], members[order[i]]);
    }
    assert order[..|order|] == order;
  }
}
