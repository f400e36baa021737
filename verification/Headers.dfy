/** The block header and its digest framing: `lemma-core/src/header.rs`. */
module Headers {
  import opened Primitives
  import opened Framing
  import Fees

  datatype Header = Header(
    height: nat, timestamp: nat, parentHash: Hash, transactionsRoot: Hash, stateRoot: Hash, receiptsRoot: Hash,
    proposer: Address, epoch: nat, protocolVersion: nat, dagRound: nat, dagAnchor: Hash,
    validatorsHash: Hash, nextValidatorsHash: Hash, gasLimit: nat, gasUsed: nat, baseFee: nat, extraData: seq<Byte>)

  function GasOf(h: Header): Fees.GasHeader { Fees.GasHeader(h.gasLimit, h.gasUsed, h.baseFee) }

  const WIDTHS: seq<nat> := [8, 8, 32, 32, 32, 32, 20, 8, 4, 8, 32, 32, 32, 8, 8, 16, 8]

  /** The numeric fields in framing order, the length of `extraData` last. */
  function Numbers(h: Header): (vs: seq<nat>)
    ensures |vs| == |WIDTHS|
  {
    [h.height, h.timestamp, h.parentHash, h.transactionsRoot, h.stateRoot, h.receiptsRoot, h.proposer, h.epoch,
     h.protocolVersion, h.dagRound, h.dagAnchor, h.validatorsHash, h.nextValidatorsHash, h.gasLimit, h.gasUsed,
     h.baseFee, |h.extraData|]
  }

  /** Every field is within its machine type. */
  ghost predicate Typed(h: Header) { AllFit(WIDTHS, Numbers(h)) }

  /** The bytes fed to the hasher. */
  function Preimage(h: Header): Bytes { Fields(WIDTHS, Numbers(h)) + h.extraData }

  function Parse(bs: Bytes): Option<Header> {
    match Split(WIDTHS, bs)
    case None => None
    case Some((v, rest)) =>
      if |v| != |WIDTHS| || v[16] != |rest| then None
      else Some(Header(v[0], v[1], v[2], v[3], v[4], v[5], v[6], v[7], v[8], v[9], v[10], v[11], v[12],
                       v[13], v[14], v[15], rest))
  }

  lemma HeaderRoundTrip(h: Header)
    requires Typed(h)
    ensures Parse(Preimage(h)) == Some(h)
  {
    FieldsRoundTrip(WIDTHS, Numbers(h), h.extraData);
  }

  /** With a collision-free hash, equal digests mean equal headers. */
  lemma DigestBindsHeader(D: Bytes -> Hash, g: Header, h: Header)
    requires Typed(g) && Typed(h)
    requires D(Preimage(g)) == D(Preimage(h)) ==> Preimage(g) == Preimage(h)
    ensures D(Preimage(g)) == D(Preimage(h)) <==> g == h
  {
    HeaderRoundTrip(g);
    HeaderRoundTrip(h);
  }

  // ---- the layout ------------------------------------------------------------------------

  function LinkBytes(h: Header): Bytes { BE(8, h.height) + BE(8, h.timestamp) + BE(32, h.parentHash) }

  function RootBytes(h: Header): Bytes { BE(32, h.transactionsRoot) + BE(32, h.stateRoot) + BE(32, h.receiptsRoot) }

  function EpochBytes(h: Header): Bytes { BE(20, h.proposer) + BE(8, h.epoch) + BE(4, h.protocolVersion) }

  function DagBytes(h: Header): Bytes { BE(8, h.dagRound) + BE(32, h.dagAnchor) + BE(32, h.validatorsHash) }

  function LimitBytes(h: Header): Bytes { BE(32, h.nextValidatorsHash) + BE(8, h.gasLimit) + BE(8, h.gasUsed) }

  /** Three more fields. */
  lemma NextThree(ws: seq<nat>, vs: seq<nat>, i: nat, fed: Bytes, a: Bytes, b: Bytes, c: Bytes)
    requires |ws| == |vs| && i + 3 <= |ws| && fed == Fields(ws[..i], vs[..i])
    requires a == BE(ws[i], vs[i]) && b == BE(ws[i + 1], vs[i + 1]) && c == BE(ws[i + 2], vs[i + 2])
    ensures fed + (a + b + c) == Fields(ws[..i + 3], vs[..i + 3])
  {
    FeedThree(ws, vs, i, fed);
    assert fed + (a + b + c) == fed + a + b + c;
  }

  /** The fields in the order and with the widths of the format, then the length of the extra data and
      the extra data. */
  lemma HeaderLayout(h: Header)
    ensures Preimage(h) == LinkBytes(h) + RootBytes(h) + EpochBytes(h) + DagBytes(h) + LimitBytes(h)
                           + BE(16, h.baseFee) + BE(8, |h.extraData|) + h.extraData
  {
    var ws, vs := WIDTHS, Numbers(h);
    var fed := FirstFifteen(h);
    FieldsStep(ws, vs, 15);
    FieldsStep(ws, vs, 16);
    assert ws[..17] == ws && vs[..17] == vs;
  }

  lemma FirstFifteen(h: Header) returns (fed: Bytes)
    ensures fed == LinkBytes(h) + RootBytes(h) + EpochBytes(h) + DagBytes(h) + LimitBytes(h)
    ensures fed == Fields(WIDTHS[..15], Numbers(h)[..15])
  {
    var ws, vs := WIDTHS, Numbers(h);
    fed := FirstNine(h);
    NextThree(ws, vs, 9, fed, BE(8, h.dagRound), BE(32, h.dagAnchor), BE(32, h.validatorsHash));
    fed := fed + DagBytes(h);
    NextThree(ws, vs, 12, fed, BE(32, h.nextValidatorsHash), BE(8, h.gasLimit), BE(8, h.gasUsed));
    fed := fed + LimitBytes(h);
  }

  lemma FirstNine(h: Header) returns (fed: Bytes)
    ensures fed == LinkBytes(h) + RootBytes(h) + EpochBytes(h) && fed == Fields(WIDTHS[..9], Numbers(h)[..9])
  {
    fed := FirstSix(h);
    NextThree(WIDTHS, Numbers(h), 6, fed, BE(20, h.proposer), BE(8, h.epoch), BE(4, h.protocolVersion));
    fed := fed + EpochBytes(h);
  }

  lemma FirstSix(h: Header) returns (fed: Bytes)
    ensures fed == LinkBytes(h) + RootBytes(h) && fed == Fields(WIDTHS[..6], Numbers(h)[..6])
  {
    fed := FirstThree(h);
    NextThree(WIDTHS, Numbers(h), 3, fed, BE(32, h.transactionsRoot), BE(32, h.stateRoot), BE(32, h.receiptsRoot));
    fed := fed + RootBytes(h);
  }

  lemma FirstThree(h: Header) returns (fed: Bytes)
    ensures fed == LinkBytes(h) && fed == Fields(WIDTHS[..3], Numbers(h)[..3])
  {
    NextThree(WIDTHS, Numbers(h), 0, [], BE(8, h.height), BE(8, h.timestamp), BE(32, h.parentHash));
    assert [] + LinkBytes(h) == LinkBytes(h);
    fed := LinkBytes(h);
  }

  /** `BlockHeader::digest`, field by field. */
  method Digest(D: Bytes -> Hash, h: Header) returns (digest: Hash)
    ensures digest == D(Preimage(h))
  {
    ghost var ws, vs := WIDTHS, Numbers(h);
    var fed := FeedRoots(h);
    FeedThree(ws, vs, 6, fed);
    fed := fed + BE(20, h.proposer);
    fed := fed + BE(8, h.epoch);
    fed := fed + BE(4, h.protocolVersion);
    fed := FeedDag(h, fed);
    fed := FeedGas(h, fed);
    fed := fed + h.extraData;
    digest := D(fed);
  }

  method FeedRoots(h: Header) returns (fed: Bytes)
    ensures fed == Fields(WIDTHS[..6], Numbers(h)[..6])
  {
    fed := FeedLink(h);
    FeedThree(WIDTHS, Numbers(h), 3, fed);
    fed := fed + BE(32, h.transactionsRoot);
    fed := fed + BE(32, h.stateRoot);
    fed := fed + BE(32, h.receiptsRoot);
  }

  method FeedLink(h: Header) returns (fed: Bytes)
    ensures fed == Fields(WIDTHS[..3], Numbers(h)[..3])
  {
    fed := [];
    FeedThree(WIDTHS, Numbers(h), 0, fed);
    fed := fed + BE(8, h.height);
    fed := fed + BE(8, h.timestamp);
    fed := fed + BE(32, h.parentHash);
  }

  method FeedDag(h: Header, start: Bytes) returns (fed: Bytes)
    requires start == Fields(WIDTHS[..9], Numbers(h)[..9])
    ensures fed == Fields(WIDTHS[..12], Numbers(h)[..12])
  {
    FeedThree(WIDTHS, Numbers(h), 9, start);
    fed := start + BE(8, h.dagRound);
    fed := fed + BE(32, h.dagAnchor);
    fed := fed + BE(32, h.validatorsHash);
  }

  method FeedGas(h: Header, start: Bytes) returns (fed: Bytes)
    requires start == Fields(WIDTHS[..12], Numbers(h)[..12])
    ensures fed == Fields(WIDTHS, Numbers(h))
  {
    ghost var ws, vs := WIDTHS, Numbers(h);
    FeedThree(ws, vs, 12, start);
    fed := start + BE(32, h.nextValidatorsHash);
    fed := fed + BE(8, h.gasLimit);
    fed := fed + BE(8, h.gasUsed);
    FieldsStep(ws, vs, 15);
    fed := fed + BE(16, h.baseFee);
    FieldsStep(ws, vs, 16);
    fed := fed + BE(8, |h.extraData|);
    assert ws[..17] == ws && vs[..17] == vs;
  }
}
