/** Reputation scores and the leader swap table: `lemma-consensus/src/reputation.rs`. */
module Reputation {
  import opened Primitives
  import opened Ordered

  /** The author of each block reference of one commit, in order. */
  type CommitAuthors = seq<Address>

  function Occurrences(xs: seq<Address>, a: Address): nat {
    if xs == [] then 0 else Occurrences(xs[..|xs| - 1], a) + (if xs[|xs| - 1] == a then 1 else 0)
  }

  /** All block references of a window of commits. */
  function Flatten(commits: seq<CommitAuthors>): seq<Address> {
    if commits == [] then [] else Flatten(commits[..|commits| - 1]) + commits[|commits| - 1]
  }

  lemma {:induction false} OccurrencesOfConcat(xs: seq<Address>, ys: seq<Address>, a: Address)
    ensures Occurrences(xs + ys, a) == Occurrences(xs, a) + Occurrences(ys, a)
  {
    if ys == [] {
      assert xs + ys == xs;
    } else {
      assert (xs + ys)[..|xs + ys| - 1] == xs + ys[..|ys| - 1];
      OccurrencesOfConcat(xs, ys[..|ys| - 1], a);
    }
  }

  /** The score of an author, zero when unknown. */
  function Score(scores: map<Address, nat>, a: Address): nat {
    if a in scores then scores[a] else 0
  }

  ghost predicate Scores(scores: map<Address, nat>, authors: seq<Address>) {
    forall a :: Score(scores, a) == Min(Occurrences(authors, a), U64_MAX)
                && (a in scores <==> Occurrences(authors, a) > 0)
  }

  /** Where `a` is the author: commit and place in it. */
  ghost function Positions(commits: seq<CommitAuthors>, a: Address): set<(nat, nat)> {
    set i: nat, j: nat | i < |commits| && j < |commits[i]| && commits[i][j] == a :: (i, j)
  }

  ghost function RowPositions(i: nat, row: seq<Address>, a: Address): set<(nat, nat)> {
    set j: nat | j < |row| && row[j] == a :: (i, j)
  }

  lemma {:induction false} RowCounted(i: nat, row: seq<Address>, a: Address)
    ensures |RowPositions(i, row, a)| == Occurrences(row, a)
  {
    if row != [] {
      var n := |row| - 1;
      RowCounted(i, row[..n], a);
      assert RowPositions(i, row, a) == RowPositions(i, row[..n], a) + (if row[n] == a then {(i, n)} else {});
    }
  }

  lemma {:induction false} PositionsCounted(commits: seq<CommitAuthors>, a: Address)
    ensures |Positions(commits, a)| == Occurrences(Flatten(commits), a)
  {
    if commits != [] {
      var n := |commits| - 1;
      PositionsCounted(commits[..n], a);
      RowCounted(n, commits[n], a);
      OccurrencesOfConcat(Flatten(commits[..n]), commits[n], a);
      assert Positions(commits, a) == Positions(commits[..n], a) + RowPositions(n, commits[n], a);
    }
  }

  /** Each committed block earns its author one point, and only authors have a score. */
  method FromCommits(commits: seq<CommitAuthors>) returns (scores: map<Address, nat>)
    ensures Scores(scores, Flatten(commits))
    ensures forall a :: a in scores <==> Positions(commits, a) != {}
    ensures forall a :: a in scores ==> scores[a] == Min(|Positions(commits, a)|, 0xFFFF_FFFF_FFFF_FFFF)
  {
    scores := map[];
    for i := 0 to |commits|
      invariant Scores(scores, Flatten(commits[..i]))
    {
      ghost var base := Flatten(commits[..i]);
      assert base + commits[i][..0] == base;
      for j := 0 to |commits[i]|
        invariant Scores(scores, base + commits[i][..j])
      {
        var author := commits[i][j];
        ghost var before := scores;
        scores := scores[author := SatAdd64(Score(scores, author), 1)];
        OnePoint(before, base + commits[i][..j], author);
        assert base + commits[i][..j + 1] == base + commits[i][..j] + [author];
      }
      assert commits[i][..|commits[i]|] == commits[i];
      assert commits[..i + 1][..i] == commits[..i];
    }
    assert commits[..|commits|] == commits;
    ScoresByPosition(scores, commits);
  }

  lemma ScoresByPosition(scores: map<Address, nat>, commits: seq<CommitAuthors>)
    requires Scores(scores, Flatten(commits))
    ensures forall a :: a in scores <==> Positions(commits, a) != {}
    ensures forall a :: a in scores ==> scores[a] == Min(|Positions(commits, a)|, 0xFFFF_FFFF_FFFF_FFFF)
  {
    forall a ensures a in scores <==> Positions(commits, a) != {}
      ensures a in scores ==> scores[a] == Min(|Positions(commits, a)|, 0xFFFF_FFFF_FFFF_FFFF)
    {
      PositionsCounted(commits, a);
      assert Score(scores, a) == Min(Occurrences(Flatten(commits), a), U64_MAX);
    }
  }

  lemma OnePoint(scores: map<Address, nat>, authors: seq<Address>, author: Address)
    requires Scores(scores, authors)
    ensures Scores(scores[author := SatAdd64(Score(scores, author), 1)], authors + [author])
  {
    forall a ensures Occurrences(authors + [author], a) == Occurrences(authors, a) + (if a == author then 1 else 0) {
      assert (authors + [author])[..|authors|] == authors;
    }
  }

  // ---- the swap table ----------------------------------------------------------------

  /** The committee order: score first, address second. */
  predicate Worse(scores: map<Address, nat>, a: Address, b: Address) {
    Score(scores, a) < Score(scores, b) || (Score(scores, a) == Score(scores, b) && a < b)
  }

  function Ranking(scores: map<Address, nat>, committee: set<Address>): (order: seq<Address>)
    ensures forall i, j :: 0 <= i < j < |order| ==>
              || Score(scores, order[i]) < Score(scores, order[j])
              || (Score(scores, order[i]) == Score(scores, order[j]) && order[i] < order[j])
    ensures forall a :: a in order <==> a in committee
    ensures |order| == |committee|
  {
    var worse := (a, b) => Worse(scores, a, b);
    assert StrictOrder(worse);
    var order := Sorted(committee, worse);
    assert forall i, j :: 0 <= i < j < |order| ==> worse(order[i], order[j]) && Worse(scores, order[i], order[j]);
    order
  }

  function SwapsOf(scores: map<Address, nat>, order: seq<Address>, count: nat): map<Address, Address>
    requires 2 * count <= |order|
  {
    if count == 0 then map[] else
      var swaps := SwapsOf(scores, order, count - 1);
      var bad, good := order[count - 1], order[|order| - count];
      if Score(scores, bad) < Score(scores, good) then swaps[bad := good] else swaps
  }

  /** The table built from scores: pairs of the ranking, capped at half the committee. */
  function SwapTable(scores: map<Address, nat>, committee: set<Address>, swapCount: nat): map<Address, Address> {
    SwapsOf(scores, Ranking(scores, committee), Min(swapCount, |committee| / 2))
  }

  /** Swap the worst for the best, the second worst for the second best, and so on, where the
      scores really differ. */
  method FromScores(scores: map<Address, nat>, committee: set<Address>, swapCount: nat)
    returns (swaps: map<Address, Address>)
    ensures swaps == SwapTable(scores, committee, swapCount)
  {
    if swapCount == 0 || committee == {} {
      return map[];
    }
    var order := Ranking(scores, committee);
    swaps := CrossPair(scores, order, Min(swapCount, |order| / 2));
  }

  method CrossPair(scores: map<Address, nat>, order: seq<Address>, actual: nat) returns (swaps: map<Address, Address>)
    requires 2 * actual <= |order|
    ensures swaps == SwapsOf(scores, order, actual)
  {
    swaps := map[];
    for i := 0 to actual
      invariant swaps == SwapsOf(scores, order, i)
    {
      var bad, good := order[i], order[|order| - 1 - i];
      if Score(scores, bad) < Score(scores, good) {
        swaps := swaps[bad := good];
      }
    }
  }

  function Swap(swaps: map<Address, Address>, candidate: Address): Address {
    if candidate in swaps then swaps[candidate] else candidate
  }

  /** The position of the last pair, among the first `count`, that really differs. Scores rise
      along the ranking, so all pairs before it differ too. */
  function PrefixLength(scores: map<Address, nat>, order: seq<Address>, count: nat): (k: nat)
    requires 2 * count <= |order|
    ensures k <= count
  {
    if count == 0 then 0
    else if Score(scores, order[count - 1]) < Score(scores, order[|order| - count]) then count
    else PrefixLength(scores, order, count - 1)
  }

  /** What the proofs need of a ranking: rising scores and no repeats. */
  ghost predicate Ranked(scores: map<Address, nat>, order: seq<Address>) {
    && (forall i, j :: 0 <= i <= j < |order| ==> Score(scores, order[i]) <= Score(scores, order[j]))
    && (forall i, j :: 0 <= i < j < |order| ==> order[i] != order[j])
  }

  lemma RankingIsRanked(scores: map<Address, nat>, committee: set<Address>)
    ensures Ranked(scores, Ranking(scores, committee))
  {
    var order := Ranking(scores, committee);
    forall i, j | 0 <= i < j < |order|
      ensures Score(scores, order[i]) <= Score(scores, order[j]) && order[i] != order[j]
    {
    }
  }

  /** The swapped-out members are exactly the `k` lowest of the ranking, their targets exactly
      the `k` highest in reverse order, and each target scores strictly higher. */
  ghost predicate Crossed(scores: map<Address, nat>, order: seq<Address>, swaps: map<Address, Address>, k: nat) {
    && 2 * k <= |order|
    && (forall a :: a in swaps <==> a in order[..k])
    && (forall i :: 0 <= i < k ==> order[i] in swaps && swaps[order[i]] == order[|order| - 1 - i])
    && (forall i :: 0 <= i < k ==> Score(scores, order[i]) < Score(scores, order[|order| - 1 - i]))
  }

  lemma {:induction false} SwapsAreCrossed(scores: map<Address, nat>, order: seq<Address>, count: nat)
    requires Ranked(scores, order) && 2 * count <= |order|
    ensures Crossed(scores, order, SwapsOf(scores, order, count), PrefixLength(scores, order, count))
  {
    if count == 0 {
      NothingCrossed(scores, order);
    } else {
      SwapsAreCrossed(scores, order, count - 1);
      var before, after := SwapsOf(scores, order, count - 1), SwapsOf(scores, order, count);
      if Score(scores, order[count - 1]) < Score(scores, order[|order| - count]) {
        AllDiffer(scores, order, count - 1, count - 1);
        PairAdded(scores, order, before, count, after, PrefixLength(scores, order, count));
      } else {
        assert after == before && PrefixLength(scores, order, count) == PrefixLength(scores, order, count - 1);
      }
    }
  }

  lemma NothingCrossed(scores: map<Address, nat>, order: seq<Address>)
    ensures Crossed(scores, order, map[], 0)
  {
  }

  lemma PairAdded(scores: map<Address, nat>, order: seq<Address>, swaps: map<Address, Address>, count: nat,
                  after: map<Address, Address>, k: nat)
    requires Ranked(scores, order) && 0 < count && 2 * count <= |order| && Crossed(scores, order, swaps, count - 1)
    requires Score(scores, order[count - 1]) < Score(scores, order[|order| - count])
    requires k == count && after == swaps[order[count - 1] := order[|order| - count]]
    ensures Crossed(scores, order, after, k)
  {
    assert order[..count] == order[..count - 1] + [order[count - 1]];
    forall i | 0 <= i < count ensures order[i] in after && after[order[i]] == order[|order| - 1 - i] {
      assert i < count - 1 ==> order[i] != order[count - 1];
    }
  }

  /** If the pair at `count` differs, every pair outside it differs too. */
  lemma {:induction false} AllDiffer(scores: map<Address, nat>, order: seq<Address>, count: nat, m: nat)
    requires Ranked(scores, order) && m <= count && 2 * count < |order|
    requires Score(scores, order[count]) < Score(scores, order[|order| - 1 - count])
    ensures PrefixLength(scores, order, m) == m
  {
    if m > 0 {
      assert Score(scores, order[m - 1]) <= Score(scores, order[count]);
      assert Score(scores, order[|order| - 1 - count]) <= Score(scores, order[|order| - m]);
    }
  }

  lemma CrossedSwap(scores: map<Address, nat>, order: seq<Address>, swaps: map<Address, Address>, k: nat, a: Address)
    returns (i: nat)
    requires Ranked(scores, order) && Crossed(scores, order, swaps, k) && a in swaps
    ensures i < k && order[i] == a && Swap(swaps, a) == order[|order| - 1 - i]
    ensures a in order && Swap(swaps, a) in order && Swap(swaps, a) !in swaps
    ensures Score(scores, a) < Score(scores, Swap(swaps, a))
  {
    assert a in order[..k];
    i :| 0 <= i < k && order[i] == a;
    forall j | 0 <= j < k ensures order[j] != order[|order| - 1 - i] {
      assert j < |order| - 1 - i;
    }
  }

  /** What the table guarantees: the crossing shape for all pairs up to the capped count that differ;
      the pair after them, if the count allows one, does not. */
  lemma SwapTableShape(scores: map<Address, nat>, committee: set<Address>, swapCount: nat) returns (k: nat)
    ensures k <= swapCount && 2 * k <= |committee|
    ensures k < swapCount && 2 * k + 1 < |committee| ==>
              var order := Ranking(scores, committee);
              Score(scores, order[k]) == Score(scores, order[|order| - 1 - k])
    ensures Crossed(scores, Ranking(scores, committee), SwapTable(scores, committee, swapCount), k)
  {
    RankingIsRanked(scores, committee);
    SwapsAreCrossed(scores, Ranking(scores, committee), Min(swapCount, |committee| / 2));
    k := PrefixLength(scores, Ranking(scores, committee), Min(swapCount, |committee| / 2));
    PairAfter(scores, Ranking(scores, committee), Min(swapCount, |committee| / 2));
  }

  lemma {:induction false} PairAfter(scores: map<Address, nat>, order: seq<Address>, count: nat)
    requires Ranked(scores, order) && 2 * count <= |order|
    ensures var k := PrefixLength(scores, order, count);
            k < count ==> Score(scores, order[k]) == Score(scores, order[|order| - 1 - k])
  {
    if count > 0 && PrefixLength(scores, order, count) != count { PairAfter(scores, order, count - 1); }
  }

  lemma CrossedIsSafe(scores: map<Address, nat>, order: seq<Address>, swaps: map<Address, Address>, k: nat,
                      a: Address, b: Address)
    requires Ranked(scores, order) && Crossed(scores, order, swaps, k)
    ensures Swap(swaps, Swap(swaps, a)) == Swap(swaps, a)
    ensures a in order ==> Swap(swaps, a) in order
    ensures a in swaps ==> a in order && Score(scores, a) < Score(scores, Swap(swaps, a))
    ensures a in swaps && b in swaps && a != b ==> Swap(swaps, a) != Swap(swaps, b)
  {
    if a in swaps {
      var i := CrossedSwap(scores, order, swaps, k, a);
      if b in swaps {
        var j := CrossedSwap(scores, order, swaps, k, b);
      }
    }
  }

  /** So swapping stays in the committee, strictly raises the score of whoever is swapped,
      never chains and never sends two members to the same target. */
  lemma SwapIsSafe(scores: map<Address, nat>, committee: set<Address>, swapCount: nat, a: Address, b: Address)
    ensures var swaps := SwapTable(scores, committee, swapCount);
            && Swap(swaps, Swap(swaps, a)) == Swap(swaps, a)
            && (a in committee ==> Swap(swaps, a) in committee)
            && (a in swaps ==> a in committee && Score(scores, a) < Score(scores, Swap(swaps, a)))
            && (a in swaps && b in swaps && a != b ==> Swap(swaps, a) != Swap(swaps, b))
  {
    RankingIsRanked(scores, committee);
    var k := SwapTableShape(scores, committee, swapCount);
    CrossedIsSafe(scores, Ranking(scores, committee), SwapTable(scores, committee, swapCount), k, a, b);
  }

  /** The table is the identity exactly when no swap is allowed or all scores are equal. */
  lemma IdentityIff(scores: map<Address, nat>, committee: set<Address>, swapCount: nat)
    ensures SwapTable(scores, committee, swapCount) == map[]
            <==> || swapCount == 0 || |committee| < 2
                 || forall a, b :: a in committee && b in committee ==> Score(scores, a) == Score(scores, b)
  {
    var order := Ranking(scores, committee);
    var count := Min(swapCount, |committee| / 2);
    RankingIsRanked(scores, committee);
    if count > 0 {
      SwapsAreCrossed(scores, order, count);
      assert order[0] in order && order[|order| - 1] in order;
      if Score(scores, order[0]) < Score(scores, order[|order| - 1]) {
        FirstPairCounts(scores, order, count);
        assert order[0] in SwapsOf(scores, order, count);
      } else {
        EqualEnds(scores, order);
        NoPairCounts(scores, order, count);
        forall a, b | a in committee && b in committee ensures Score(scores, a) == Score(scores, b) {
          assert a in order && b in order;
        }
      }
    }
  }

  lemma EqualEnds(scores: map<Address, nat>, order: seq<Address>)
    requires Ranked(scores, order) && order != [] && !(Score(scores, order[0]) < Score(scores, order[|order| - 1]))
    ensures forall a :: a in order ==> Score(scores, a) == Score(scores, order[0])
  {
    forall a | a in order ensures Score(scores, a) == Score(scores, order[0]) {
      var i :| 0 <= i < |order| && order[i] == a;
      assert Score(scores, order[0]) <= Score(scores, order[i]) <= Score(scores, order[|order| - 1]);
    }
  }

  lemma {:induction false} NoPairCounts(scores: map<Address, nat>, order: seq<Address>, count: nat)
    requires 2 * count <= |order| && forall a :: a in order ==> Score(scores, a) == Score(scores, order[0])
    ensures SwapsOf(scores, order, count) == map[]
  {
    if count > 0 {
      NoPairCounts(scores, order, count - 1);
      assert order[count - 1] in order && order[|order| - count] in order;
    }
  }

  lemma {:induction false} FirstPairCounts(scores: map<Address, nat>, order: seq<Address>, count: nat)
    requires 0 < count && 2 * count <= |order| && Score(scores, order[0]) < Score(scores, order[|order| - 1])
    ensures PrefixLength(scores, order, count) >= 1
  {
    if count > 1 {
      FirstPairCounts(scores, order, count - 1);
    }
  }
}
