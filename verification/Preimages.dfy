/** The digest framing of commits (`lemma-consensus/src/commit.rs`) and commit acknowledgements
    (`commit_ack.rs`). */
module Preimages {
  import opened Primitives
  import opened Framing

  // ---- commits -------------------------------------------------------------------------

  datatype Commit = Commit(index: nat, previousDigest: Hash, timestampMs: nat, leader: DagBlockRef,
                           blocks: seq<DagBlockRef>)

  const REF_WIDTHS: seq<nat> := [8, 20, 32]
  const COMMIT_WIDTHS: seq<nat> := [8, 32, 8, 8, 20, 32, 8]

  function RefNumbers(r: DagBlockRef): seq<nat> { [r.round, r.author, r.digest] }

  function CommitNumbers(c: Commit): seq<nat> {
    [c.index, c.previousDigest, c.timestampMs, c.leader.round, c.leader.author, c.leader.digest, |c.blocks|]
  }

  ghost predicate CommitTyped(c: Commit) {
    && AllFit(COMMIT_WIDTHS, CommitNumbers(c))
    && forall i :: 0 <= i < |c.blocks| ==> AllFit(REF_WIDTHS, RefNumbers(c.blocks[i]))
  }

  function RefBytes(r: DagBlockRef): Bytes { Fields(REF_WIDTHS, RefNumbers(r)) }

  function RefsBytes(rs: seq<DagBlockRef>): Bytes { if rs == [] then [] else RefBytes(rs[0]) + RefsBytes(rs[1..]) }

  function CommitBytes(c: Commit): Bytes { Fields(COMMIT_WIDTHS, CommitNumbers(c)) + RefsBytes(c.blocks) }

  function ParseRefs(n: nat, bs: Bytes): Option<seq<DagBlockRef>> {
    if n == 0 then (if bs == [] then Some([]) else None)
    else
      match Split(REF_WIDTHS, bs)
      case None => None
      case Some((v, rest)) =>
        if |v| != 3 then None else
          match ParseRefs(n - 1, rest)
          case None => None
          case Some(rs) => Some([DagBlockRef(v[0], v[1], v[2])] + rs)
  }

  function ParseCommit(bs: Bytes): Option<Commit> {
    match Split(COMMIT_WIDTHS, bs)
    case None => None
    case Some((v, rest)) =>
      if |v| != 7 then None else
        match ParseRefs(v[6], rest)
        case None => None
        case Some(rs) => Some(Commit(v[0], v[1], v[2], DagBlockRef(v[3], v[4], v[5]), rs))
  }

  lemma {:induction false} RefsRoundTrip(rs: seq<DagBlockRef>)
    requires forall i :: 0 <= i < |rs| ==> AllFit(REF_WIDTHS, RefNumbers(rs[i]))
    ensures ParseRefs(|rs|, RefsBytes(rs)) == Some(rs)
  {
    if rs != [] {
      FieldsRoundTrip(REF_WIDTHS, RefNumbers(rs[0]), RefsBytes(rs[1..]));
      RefsRoundTrip(rs[1..]);
      assert rs == [rs[0]] + rs[1..];
    }
  }

  lemma CommitRoundTrip(c: Commit)
    requires CommitTyped(c)
    ensures ParseCommit(CommitBytes(c)) == Some(c)
  {
    FieldsRoundTrip(COMMIT_WIDTHS, CommitNumbers(c), RefsBytes(c.blocks));
    RefsRoundTrip(c.blocks);
  }

  lemma {:induction false} RefsStep(rs: seq<DagBlockRef>, i: nat)
    requires i < |rs|
    ensures RefsBytes(rs[..i + 1]) == RefsBytes(rs[..i]) + RefBytes(rs[i])
  {
    if i > 0 {
      RefsStep(rs[1..], i - 1);
      assert rs[..i + 1][1..] == rs[1..][..i] && rs[..i][1..] == rs[1..][..i - 1];
    } else {
      assert rs[..1] == [rs[0]] && rs[..1][1..] == [];
    }
  }

  lemma RefUnfold(r: DagBlockRef)
    ensures RefBytes(r) == BE(8, r.round) + BE(20, r.author) + BE(32, r.digest)
  {
    var v := RefNumbers(r);
    FeedThree(REF_WIDTHS, v, 0, []);
    assert REF_WIDTHS[..3] == REF_WIDTHS && v[..3] == v;
  }

  lemma FixedUnfold(c: Commit)
    ensures Fields(COMMIT_WIDTHS, CommitNumbers(c))
            == BE(8, c.index) + BE(32, c.previousDigest) + BE(8, c.timestampMs)
               + BE(8, c.leader.round) + BE(20, c.leader.author) + BE(32, c.leader.digest) + BE(8, |c.blocks|)
  {
    var v := CommitNumbers(c);
    var head := FirstThree(c);
    FeedThree(COMMIT_WIDTHS, v, 3, head);
    FieldsStep(COMMIT_WIDTHS, v, 6);
    assert COMMIT_WIDTHS[..7] == COMMIT_WIDTHS && v[..7] == v;
  }

  lemma FirstThree(c: Commit) returns (head: Bytes)
    ensures head == BE(8, c.index) + BE(32, c.previousDigest) + BE(8, c.timestampMs)
    ensures head == Fields(COMMIT_WIDTHS[..3], CommitNumbers(c)[..3])
  {
    head := BE(8, c.index) + BE(32, c.previousDigest) + BE(8, c.timestampMs);
    FeedThree(COMMIT_WIDTHS, CommitNumbers(c), 0, []);
  }

  method FeedRef(start: Bytes, r: DagBlockRef) returns (fed: Bytes)
    ensures fed == start + RefBytes(r)
  {
    RefUnfold(r);
    fed := start + BE(8, r.round);
    fed := fed + BE(20, r.author);
    fed := fed + BE(32, r.digest);
  }

  /** `Commit::digest`. */
  method CommitDigest(D: Bytes -> Hash, c: Commit) returns (digest: Hash)
    ensures digest == D(CommitBytes(c))
  {
    var fixed := FeedFixed(c);
    var fed := fixed;
    for i := 0 to |c.blocks|
      invariant fed == fixed + RefsBytes(c.blocks[..i])
    {
      RefsStep(c.blocks, i);
      fed := FeedRef(fed, c.blocks[i]);
    }
    assert c.blocks[..|c.blocks|] == c.blocks;
    digest := D(fed);
  }

  method FeedFixed(c: Commit) returns (fed: Bytes)
    ensures fed == Fields(COMMIT_WIDTHS, CommitNumbers(c))
  {
    FixedUnfold(c);
    fed := BE(8, c.index);
    fed := fed + BE(32, c.previousDigest);
    fed := fed + BE(8, c.timestampMs);
    fed := fed + BE(8, c.leader.round);
    fed := fed + BE(20, c.leader.author);
    fed := fed + BE(32, c.leader.digest);
    fed := fed + BE(8, |c.blocks|);
  }

  // ---- commit acknowledgements -----------------------------------------------------------

  /** The ASCII bytes of "commit-ack". */
  const DOMAIN: Bytes := [99, 111, 109, 109, 105, 116, 45, 97, 99, 107]

  function AckBytes(height: nat, headerDigest: Hash): Bytes { DOMAIN + LE(8, height) + BE(32, headerDigest) }

  function ParseAck(bs: Bytes): Option<(nat, Hash)> {
    if |bs| != 50 || bs[..10] != DOMAIN then None else Some((ValueLE(bs[10..18]), ValueBE(bs[18..])))
  }

  lemma AckRoundTrip(height: nat, headerDigest: Hash)
    requires height <= U64_MAX && headerDigest < Pow256(32)
    ensures ParseAck(AckBytes(height, headerDigest)) == Some((height, headerDigest))
  {
    MachineWidths();
    LittleEndianRoundTrip(8, height);
    BigEndianRoundTrip(32, headerDigest);
    var bs := AckBytes(height, headerDigest);
    assert bs[..10] == DOMAIN && bs[10..18] == LE(8, height) && bs[18..] == BE(32, headerDigest);
  }

  /** The domain, then the height with its lowest byte first, then the digest with its highest byte
      first: fifty bytes. */
  lemma AckLayout(height: nat, headerDigest: Hash, i: nat)
    requires i < 32
    ensures var bs := AckBytes(height, headerDigest);
            && |bs| == 50 && bs[..10] == [99, 111, 109, 109, 105, 116, 45, 97, 99, 107]
            && (i < 8 ==> bs[10 + i] == height / Pow256(i) % 256)
            && bs[18 + i] == headerDigest / Pow256(31 - i) % 256
  {
    if i < 8 { LittleEndianDigit(8, height, i); }
    BigEndianDigit(32, headerDigest, i);
  }

  /** Index, previous digest, time, leader and number of blocks, then the blocks. */
  lemma CommitLayout(c: Commit)
    ensures CommitBytes(c) == BE(8, c.index) + BE(32, c.previousDigest) + BE(8, c.timestampMs)
                              + BE(8, c.leader.round) + BE(20, c.leader.author) + BE(32, c.leader.digest)
                              + BE(8, |c.blocks|) + RefsBytes(c.blocks)
    ensures forall i :: 0 <= i < |c.blocks| ==>
              60 * i + 60 <= |RefsBytes(c.blocks)|
              && RefsBytes(c.blocks)[60 * i..60 * i + 60]
                 == BE(8, c.blocks[i].round) + BE(20, c.blocks[i].author) + BE(32, c.blocks[i].digest)
  {
    FixedUnfold(c);
    forall i | 0 <= i < |c.blocks|
      ensures 60 * i + 60 <= |RefsBytes(c.blocks)|
      ensures RefsBytes(c.blocks)[60 * i..60 * i + 60]
              == BE(8, c.blocks[i].round) + BE(20, c.blocks[i].author) + BE(32, c.blocks[i].digest)
    {
      RefAt(c.blocks, i);
      RefUnfold(c.blocks[i]);
    }
  }

  lemma {:induction false} RefAt(rs: seq<DagBlockRef>, i: nat)
    requires i < |rs|
    ensures 60 * i + 60 <= |RefsBytes(rs)| && RefsBytes(rs)[60 * i..60 * i + 60] == RefBytes(rs[i])
  {
    RefUnfold(rs[0]);
    if i > 0 {
      RefAt(rs[1..], i - 1);
      Behind(RefBytes(rs[0]), RefsBytes(rs[1..]), 60 * i - 60, 60);
    }
  }
}
