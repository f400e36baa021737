/** Who leads under the round-robin schedule of `lemma-consensus/src/pulse/leader.rs` when only every
    third round has a leader (`pulse/committer.rs`). */
module LeaderRotation {
  import opened Primitives
  import opened Arithmetic
  import opened Pulse

  ghost predicate Distinct(order: seq<Address>) { forall i, j :: 0 <= i < j < |order| ==> order[i] != order[j] }

  /** Some leader round, before the round counter wraps, elects `a` when nobody is swapped. */
  ghost predicate Leads(order: seq<Address>, offset: nat, a: Address)
    requires order != []
  {
    exists r: nat :: LeadsAt(order, offset, a, r)
  }

  ghost predicate LeadsAt(order: seq<Address>, offset: nat, a: Address, r: nat)
    requires order != []
  {
    r % 3 == 0 && r + offset <= U64_MAX && ElectLeader(order, offset, map[], r).author == a
  }

  /** Without a wrap the leader of round `r` is the member at `r + offset`, taken around the committee,
      and a swap sends that member to its target. */
  lemma LeaderIs(order: seq<Address>, offset: nat, swaps: map<Address, Address>, r: nat, laps: nat, i: nat)
    requires i < |order| && r + offset <= U64_MAX && r + offset == laps * |order| + i
    ensures var slot := ElectLeader(order, offset, swaps, r);
            slot.round == r && slot.author == if order[i] in swaps then swaps[order[i]] else order[i]
  {
    RemainderIs(r + offset, |order|, laps, i);
  }

  lemma RemainderIs(x: nat, n: nat, laps: nat, i: nat)
    requires i < n && x == laps * n + i
    ensures x % n == i
  {
    QuotientUnique(x, n, laps);
    Remainder(x, n);
  }

  lemma Remainder(x: nat, n: nat)
    requires n > 0
    ensures x == x / n * n + x % n && x % n < n
  {
  }

  /** One of three consecutive laps ends on a leader round, unless the committee has a multiple of
      three members. */
  lemma SomeLap(n: nat, d: nat) returns (r: nat)
    requires n % 3 != 0 && d < n
    ensures r % 3 == 0 && r < 3 * n && r in {d, d + n, d + 2 * n}
  {
    r := if d % 3 == 0 then d else if (d + n) % 3 == 0 then d + n else d + 2 * n;
  }

  /** A leader round that falls on position `i` when counting starts at `start`. */
  lemma LapTo(n: nat, done: nat, start: nat, i: nat) returns (r: nat, laps: nat)
    requires n % 3 != 0 && start < n && i < n
    ensures r % 3 == 0 && r < 3 * n && r + done * n + start == laps * n + i
  {
    var d := if start <= i then i - start else i + n - start;
    r := SomeLap(n, d);
    var more := (if start <= i then 0 else 1) + (if r == d then 0 else if r == d + n then 1 else 2);
    laps := done + more;
    Laps(done, more, n);
    assert r + start == more * n + i;
  }

  lemma Laps(done: nat, more: nat, n: nat)
    ensures (done + more) * n == done * n + more * n
  {
  }

  lemma LapFrom(n: nat, offset: nat, i: nat) returns (r: nat, laps: nat)
    requires n % 3 != 0 && i < n
    ensures r % 3 == 0 && r < 3 * n && r + offset == laps * n + i
  {
    var done, start := offset / n, offset % n;
    Remainder(offset, n);
    r, laps := LapTo(n, done, start, i);
  }

  lemma LeadsWhen(order: seq<Address>, offset: nat, r: nat, laps: nat, i: nat)
    requires i < |order| && r % 3 == 0 && r + offset <= U64_MAX && r + offset == laps * |order| + i
    ensures LeadsAt(order, offset, order[i], r)
  {
    LeaderIs(order, offset, map[], r, laps, i);
  }

  lemma MemberLeads(order: seq<Address>, offset: nat, i: nat)
    requires i < |order| && |order| % 3 != 0 && offset + 3 * |order| <= U64_MAX
    ensures Leads(order, offset, order[i])
  {
    var r, laps := LapFrom(|order|, offset, i);
    LeadsWhen(order, offset, r, laps, i);
  }

  /** In a committee with a multiple of three members the members that lead are a third apart. */
  lemma LeadersAreThirds(order: seq<Address>, offset: nat, i: nat)
    requires i < |order| && |order| % 3 == 0 && Distinct(order) && Leads(order, offset, order[i])
    ensures i % 3 == offset % 3
  {
    var r: nat :| LeadsAt(order, offset, order[i], r);
    var laps := Elected(order, offset, i, r);
    SameThird(r, offset, laps, |order|, i);
  }

  lemma Elected(order: seq<Address>, offset: nat, i: nat, r: nat) returns (laps: nat)
    requires i < |order| && Distinct(order) && LeadsAt(order, offset, order[i], r)
    ensures r + offset == laps * |order| + i
  {
    laps := (r + offset) / |order|;
    var j := (r + offset) % |order|;
    Remainder(r + offset, |order|);
    LeaderIs(order, offset, map[], r, laps, j);
  }

  lemma SameThird(r: nat, offset: nat, laps: nat, n: nat, i: nat)
    requires n % 3 == 0 && r % 3 == 0 && r + offset == laps * n + i
    ensures i % 3 == offset % 3
  {
    ThirdsOf(r + offset, laps, n, i);
  }

  lemma ThirdsOf(x: nat, laps: nat, n: nat, i: nat)
    requires n % 3 == 0 && x == laps * n + i
    ensures x % 3 == i % 3
  {
    var third := n / 3;
    assert laps * n == 3 * (laps * third) by { Reassociate(laps, 3, third); }
  }

  /** Every member leads some round if and only if the size of the committee is not a multiple of
      three: otherwise two thirds of the members never lead. */
  lemma EveryMemberLeadsIff(order: seq<Address>, offset: nat)
    requires order != [] && Distinct(order) && offset + 3 * |order| <= U64_MAX
    ensures (forall a :: a in order ==> Leads(order, offset, a)) <==> |order| % 3 != 0
  {
    if |order| % 3 != 0 {
      forall a | a in order ensures Leads(order, offset, a) {
        var i :| 0 <= i < |order| && order[i] == a;
        MemberLeads(order, offset, i);
      }
    } else {
      var i := (offset + 1) % 3;
      assert order[i] in order;
      if Leads(order, offset, order[i]) { LeadersAreThirds(order, offset, i); }
    }
  }

  /** With a swap table of the committee the leader is a member all the same. */
  lemma LeaderIsMember(scores: map<Address, nat>, committee: set<Address>, swapCount: nat, order: seq<Address>,
                       offset: nat, r: nat)
    requires order != [] && forall a :: a in order <==> a in committee
    ensures ElectLeader(order, offset, Reputation.SwapTable(scores, committee, swapCount), r).author in committee
  {
    var a := order[(r + offset) % (U64_MAX + 1) % |order|];
    Reputation.SwapIsSafe(scores, committee, swapCount, a, a);
  }
}
