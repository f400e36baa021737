/** Chain growth by the timer-driven producer: `lemma-node/src/producer.rs`, over the block
    store of `lemma-storage/src/chain.rs` and the genesis block of `genesis_boot.rs`.
    The block hash is an arbitrary function `B` of the header (producer blocks are empty). */
module Producer {
  import opened Primitives
  import opened Arithmetic
  import opened Fees
  import opened Headers

  const U64_RANGE: nat := U64_MAX + 1

  datatype Chain = Chain(blocks: map<nat, Header>, byHash: map<Hash, Header>, tip: Option<(nat, Hash)>)

  const EMPTY := Chain(map[], map[], None)

  datatype BuildError = Uninitialised | TipMissing(height: nat) | BaseFee(cause: AmountError) | BadGas

  /** `put_block`: both indexes always, the tip only at or above the current one. */
  function Put(c: Chain, h: Header, hash: Hash): Chain {
    Chain(c.blocks[h.height := h], c.byHash[hash := h],
          if c.tip.None? || h.height >= c.tip.value.0 then Some((h.height, hash)) else c.tip)
  }

  /** Release builds wrap `u64` additions. */
  function Successor64(x: nat): nat { (x + 1) % U64_RANGE }

  function Child(parent: Header, height: nat, parentHash: Hash, proposer: Address, clock: nat, baseFee: nat): Header {
    Header(Successor64(height), Max(clock, Successor64(parent.timestamp)), parentHash, 0, parent.stateRoot, 0, proposer,
           parent.epoch, parent.protocolVersion, 0, 0, parent.validatorsHash, parent.nextValidatorsHash,
           parent.gasLimit, 0, baseFee, [])
  }

  function Build(B: Header -> Hash, c: Chain, proposer: Address, clock: nat): Result<(Header, Hash), BuildError> {
    if c.tip.None? then Err(Uninitialised)
    else if c.tip.value.0 !in c.blocks then Err(TipMissing(c.tip.value.0))
    else
      var (height, hash) := c.tip.value;
      var parent := c.blocks[height];
      match NextBaseFee(GasOf(parent))
      case Err(e) => Err(BaseFee(e))
      case Ok(fee) =>
        var child := Child(parent, height, hash, proposer, clock, fee);
        if Validated(GasOf(child)) then Ok((child, B(child))) else Err(BadGas)
  }

  /** One timer tick: a failed build is skipped. */
  function Tick(B: Header -> Hash, c: Chain, proposer: Address, clock: nat): Chain {
    match Build(B, c, proposer, clock)
    case Err(_) => c
    case Ok((block, hash)) => Put(c, block, hash)
  }

  function Run(B: Header -> Hash, c: Chain, proposer: Address, clocks: seq<nat>): Chain {
    if clocks == [] then c else Tick(B, Run(B, c, proposer, clocks[..|clocks| - 1]), proposer, clocks[|clocks| - 1])
  }

  class ChainStore {
    var blocks: map<nat, Header>
    var byHash: map<Hash, Header>
    var latest: Option<(nat, Hash)>

    function View(): Chain
      reads this
    {
      Chain(blocks, byHash, latest)
    }

    constructor ()
      ensures View() == EMPTY
    {
      blocks, byHash, latest := map[], map[], None;
    }

    method PutBlock(block: Header, hash: Hash)
      modifies this
      ensures View() == Put(old(View()), block, hash)
    {
      blocks, byHash := blocks[block.height := block], byHash[hash := block];
      var advance := match latest case None => true case Some(current) => block.height >= current.0;
      if advance { latest := Some((block.height, hash)); }
    }

    method BuildNextBlock(B: Header -> Hash, proposer: Address, clock: nat)
      returns (r: Result<(Header, Hash), BuildError>)
      ensures r == Build(B, View(), proposer, clock)
    {
      if latest.None? { return Err(Uninitialised); }
      var (height, hash) := latest.value;
      if height !in blocks { return Err(TipMissing(height)); }
      var parent := blocks[height];
      var fee := NextBaseFee(GasOf(parent));
      if fee.Err? { return Err(BaseFee(fee.error)); }
      var timestamp := Max(clock, Successor64(parent.timestamp));
      var header := Header(Successor64(height), timestamp, hash, 0, parent.stateRoot, 0, proposer, parent.epoch,
                           parent.protocolVersion, 0, 0, parent.validatorsHash, parent.nextValidatorsHash,
                           parent.gasLimit, 0, fee.value, []);
      if !Validated(GasOf(header)) { return Err(BadGas); }
      r := Ok((header, B(header)));
    }

    /** The producer loop over a sequence of wall-clock readings. */
    method Produce(B: Header -> Hash, proposer: Address, clocks: seq<nat>)
      modifies this
      ensures View() == Run(B, old(View()), proposer, clocks)
    {
      for i := 0 to |clocks|
        invariant View() == Run(B, old(View()), proposer, clocks[..i])
      {
        assert clocks[..i + 1][..i] == clocks[..i];
        var r := BuildNextBlock(B, proposer, clocks[i]);
        if r.Ok? { PutBlock(r.value.0, r.value.1); }
      }
      assert clocks[..|clocks|] == clocks;
    }
  }

  // ---- the store -----------------------------------------------------------------------

  type Puts = seq<(Header, Hash)>

  function AfterPuts(puts: Puts): Chain {
    if puts == [] then EMPTY else
      var last := puts[|puts| - 1];
      Put(AfterPuts(puts[..|puts| - 1]), last.0, last.1)
  }

  /** The last block stored at its height. */
  ghost predicate LastAtHeight(puts: Puts, i: nat) {
    i < |puts| && forall j :: i < j < |puts| ==> puts[j].0.height != puts[i].0.height
  }

  ghost predicate LastWithHash(puts: Puts, i: nat) {
    i < |puts| && forall j :: i < j < |puts| ==> puts[j].1 != puts[i].1
  }

  /** After any sequence of blocks each height finds the last block stored there, */
  lemma {:induction false} HeightFindsLast(puts: Puts, i: nat)
    requires LastAtHeight(puts, i)
    ensures var (c, h) := (AfterPuts(puts), puts[i].0); h.height in c.blocks && c.blocks[h.height] == h
  {
    if i < |puts| - 1 { HeightFindsLast(puts[..|puts| - 1], i); }
  }

  /** each hash finds the last block stored under it, */
  lemma {:induction false} HashFindsLast(puts: Puts, i: nat)
    requires LastWithHash(puts, i)
    ensures var (c, hash) := (AfterPuts(puts), puts[i].1); hash in c.byHash && c.byHash[hash] == puts[i].0
  {
    if i < |puts| - 1 { HashFindsLast(puts[..|puts| - 1], i); }
  }

  /** and nothing else is found. */
  lemma {:induction false} OnlyStoredIsFound(puts: Puts, n: nat, hash: Hash)
    ensures n in AfterPuts(puts).blocks ==> exists i: nat :: i < |puts| && puts[i].0.height == n
    ensures hash in AfterPuts(puts).byHash ==> exists i: nat :: i < |puts| && puts[i].1 == hash
  {
    if puts != [] {
      var front := puts[..|puts| - 1];
      OnlyStoredIsFound(front, n, hash);
      assert forall i :: 0 <= i < |front| ==> front[i] == puts[i];
    }
  }

  /** The tip is the last of the highest blocks: one below it never moves it. */
  lemma {:induction false} TipIsHighest(puts: Puts) returns (i: nat)
    requires puts != []
    ensures LastAtHeight(puts, i) && forall j :: 0 <= j < |puts| ==> puts[j].0.height <= puts[i].0.height
    ensures AfterPuts(puts).tip == Some((puts[i].0.height, puts[i].1))
  {
    var n := |puts| - 1;
    if n == 0 {
      i := 0;
    } else {
      var front := puts[..n];
      var k := TipIsHighest(front);
      assert forall j :: 0 <= j < n ==> front[j] == puts[j];
      i := if puts[n].0.height >= puts[k].0.height then n else k;
    }
  }

  /** A build fails exactly when there is no tip, the tip's block is missing, the fee calculation
      fails, or the parent has no gas limit. */
  lemma BuildFailsIff(B: Header -> Hash, c: Chain, proposer: Address, clock: nat)
    ensures Build(B, c, proposer, clock).Err?
            <==> || c.tip.None? || c.tip.value.0 !in c.blocks
                 || NextBaseFee(GasOf(c.blocks[c.tip.value.0])).Err? || c.blocks[c.tip.value.0].gasLimit == 0
    ensures Build(B, c, proposer, clock).Ok? ==>
              Build(B, c, proposer, clock).value.1 == B(Build(B, c, proposer, clock).value.0)
  {
  }

  // ---- chain safety ------------------------------------------------------------------

  /** A genesis header as `init_chain` assembles it. */
  predicate IsGenesis(g: Header) {
    g.height == 0 && g.gasUsed == 0 && 0 < g.gasLimit <= U64_MAX && g.timestamp <= U64_MAX && g.baseFee <= U128_MAX
  }

  /** The base fee after an empty parent block. */
  function EmptyNext(gasLimit: nat, b: nat): nat {
    if gasLimit < 2 then Max(b, MIN_BASE_FEE) else Max(b - b / 8, MIN_BASE_FEE)
  }

  /** The base-fee product of an empty block does not overflow. */
  ghost predicate Fits(gasLimit: nat, b: nat) { b * (gasLimit / 2) <= U128_MAX }

  lemma EmptyFee(gasLimit: nat, b: nat)
    requires gasLimit <= U64_MAX
    ensures Fits(gasLimit, b) ==> NextBaseFee(GasHeader(gasLimit, 0, b)) == Ok(EmptyNext(gasLimit, b))
    ensures !Fits(gasLimit, b) ==> NextBaseFee(GasHeader(gasLimit, 0, b)) == Err(Overflow(b, gasLimit / 2))
    ensures Fits(gasLimit, b) ==> Fits(gasLimit, EmptyNext(gasLimit, b))
  {
    var t := gasLimit / 2;
    if t > 0 {
      QuotientExact(b, t);
      MulMonotone(t, b - b / 8, b);
      MulMonotone(MIN_BASE_FEE, t, U64_MAX);
    }
  }

  /** What one block owes to its parent. The timestamp rises unless the parent's is the last `u64`. */
  ghost predicate Follows(B: Header -> Hash, parent: Header, child: Header) {
    && child.height == parent.height + 1
    && child.parentHash == B(parent)
    && (parent.timestamp < child.timestamp <==> parent.timestamp < U64_MAX)
    && child.timestamp <= U64_MAX
    && child.stateRoot == parent.stateRoot && child.epoch == parent.epoch
    && child.protocolVersion == parent.protocolVersion
    && child.validatorsHash == parent.validatorsHash && child.nextValidatorsHash == parent.nextValidatorsHash
    && child.gasLimit == parent.gasLimit && child.gasUsed == 0
    && child.transactionsRoot == child.receiptsRoot == child.dagRound == child.dagAnchor == 0 && child.extraData == []
    && child.baseFee == EmptyNext(parent.gasLimit, parent.baseFee)
  }

  /** The chain holds blocks 0 to n, each following its parent and resolvable by its hash. */
  ghost predicate Grown(B: Header -> Hash, g: Header, c: Chain, n: nat) {
    && (forall i :: i in c.blocks <==> 0 <= i <= n)
    && c.blocks[0] == g
    && c.tip == Some((n, B(c.blocks[n])))
    && (forall i :: 0 <= i <= n ==> Sound(B, g, c, i))
    && (forall i, j :: 0 <= i && j == i + 1 && j <= n ==> Follows(B, c.blocks[i], c.blocks[j]))
  }

  ghost predicate Sound(B: Header -> Hash, g: Header, c: Chain, i: nat)
    requires i in c.blocks
  {
    && c.blocks[i].height == i && c.blocks[i].gasUsed == 0 && c.blocks[i].timestamp <= U64_MAX
    && c.blocks[i].gasLimit == g.gasLimit && Fits(g.gasLimit, c.blocks[i].baseFee)
    && B(c.blocks[i]) in c.byHash && B(c.byHash[B(c.blocks[i])]) == B(c.blocks[i])
  }

  lemma ChildFollows(B: Header -> Hash, parent: Header, proposer: Address, clock: nat)
    requires parent.height < U64_MAX && parent.timestamp <= U64_MAX && clock <= U64_MAX
    requires parent.gasUsed == 0 && 0 < parent.gasLimit <= U64_MAX && Fits(parent.gasLimit, parent.baseFee)
    ensures NextBaseFee(GasOf(parent)).Ok?
    ensures var child := Child(parent, parent.height, B(parent), proposer, clock, NextBaseFee(GasOf(parent)).value);
            Follows(B, parent, child) && Validated(GasOf(child)) && Fits(child.gasLimit, child.baseFee)
  {
    EmptyFee(parent.gasLimit, parent.baseFee);
  }

  /** One tick on a grown chain appends one block. */
  lemma TickGrows(B: Header -> Hash, g: Header, c: Chain, n: nat, proposer: Address, clock: nat)
    requires IsGenesis(g) && Grown(B, g, c, n) && n < U64_MAX && clock <= U64_MAX
    ensures Grown(B, g, Tick(B, c, proposer, clock), n + 1)
    ensures forall i :: 0 <= i <= n ==> Tick(B, c, proposer, clock).blocks[i] == c.blocks[i]
    ensures Tick(B, c, proposer, clock).blocks[n + 1].timestamp == Max(clock, Successor64(c.blocks[n].timestamp))
    ensures Tick(B, c, proposer, clock).blocks[n + 1].proposer == proposer
  {
    assert Sound(B, g, c, n);
    var parent := c.blocks[n];
    ChildFollows(B, parent, proposer, clock);
    var child := Child(parent, n, B(parent), proposer, clock, NextBaseFee(GasOf(parent)).value);
    var next := Tick(B, c, proposer, clock);
    assert next == Put(c, child, B(child));
    forall i | 0 <= i <= n + 1 ensures Sound(B, g, next, i) {
      if i <= n { assert Sound(B, g, c, i); }
    }
  }

  /** From genesis, whatever the clock says, every tick appends a well-linked block, provided
      the genesis fee fits; otherwise no tick ever appends anything. */
  lemma {:induction false} RunGrows(B: Header -> Hash, g: Header, proposer: Address, clocks: seq<nat>)
    requires IsGenesis(g) && |clocks| <= U64_MAX && forall i :: 0 <= i < |clocks| ==> clocks[i] <= U64_MAX
    ensures var start := Put(EMPTY, g, B(g)); var end := Run(B, start, proposer, clocks);
            if Fits(g.gasLimit, g.baseFee) then Grown(B, g, end, |clocks|) else end == start
  {
    var start := Put(EMPTY, g, B(g));
    if clocks == [] {
      if Fits(g.gasLimit, g.baseFee) { assert Sound(B, g, start, 0); }
    } else {
      var n := |clocks| - 1;
      RunGrows(B, g, proposer, clocks[..n]);
      if Fits(g.gasLimit, g.baseFee) {
        TickGrows(B, g, Run(B, start, proposer, clocks[..n]), n, proposer, clocks[n]);
      } else {
        EmptyFee(g.gasLimit, g.baseFee);
      }
    }
  }

  /** The timestamp after a sequence of readings. */
  function Stamp(t: nat, clocks: seq<nat>): nat {
    if clocks == [] then t else Max(clocks[|clocks| - 1], Successor64(Stamp(t, clocks[..|clocks| - 1])))
  }

  /** The blocks up to `n` carry the timestamps of the readings. */
  ghost predicate Stamped(c: Chain, t: nat, clocks: seq<nat>) {
    forall i :: 0 <= i <= |clocks| ==> i in c.blocks && c.blocks[i].timestamp == Stamp(t, clocks[..i])
  }

  /** What a tick does to the timestamps. */
  lemma TickStamps(B: Header -> Hash, g: Header, c: Chain, n: nat, proposer: Address, clock: nat)
    requires IsGenesis(g) && Grown(B, g, c, n) && n < U64_MAX && clock <= U64_MAX
    ensures var next := Tick(B, c, proposer, clock);
            && (forall i :: 0 <= i <= n ==> i in c.blocks && i in next.blocks && next.blocks[i] == c.blocks[i])
            && n + 1 in next.blocks && next.blocks[n + 1].timestamp == Max(clock, Successor64(c.blocks[n].timestamp))
  {
    TickGrows(B, g, c, n, proposer, clock);
  }

  lemma StampedNext(c: Chain, next: Chain, t: nat, clocks: seq<nat>)
    requires clocks != [] && Stamped(c, t, clocks[..|clocks| - 1])
    requires forall i :: 0 <= i <= |clocks| - 1 ==> i in c.blocks && i in next.blocks && next.blocks[i] == c.blocks[i]
    requires |clocks| in next.blocks
    requires next.blocks[|clocks|].timestamp == Max(clocks[|clocks| - 1], Successor64(c.blocks[|clocks| - 1].timestamp))
    ensures Stamped(next, t, clocks)
  {
    var n := |clocks| - 1;
    forall i | 0 <= i <= |clocks| ensures i in next.blocks && next.blocks[i].timestamp == Stamp(t, clocks[..i]) {
      if i <= n {
        assert clocks[..n][..i] == clocks[..i];
      } else {
        assert clocks[..n][..n] == clocks[..n] && clocks[..i] == clocks;
        assert c.blocks[n].timestamp == Stamp(t, clocks[..n][..n]);
      }
    }
  }

  lemma {:induction false} RunStamped(B: Header -> Hash, g: Header, proposer: Address, clocks: seq<nat>)
    requires IsGenesis(g) && Fits(g.gasLimit, g.baseFee) && |clocks| <= U64_MAX
    requires forall i :: 0 <= i < |clocks| ==> clocks[i] <= U64_MAX
    ensures Stamped(Run(B, Put(EMPTY, g, B(g)), proposer, clocks), g.timestamp, clocks)
  {
    if clocks != [] {
      var n := |clocks| - 1;
      RunStamped(B, g, proposer, clocks[..n]);
      RunGrows(B, g, proposer, clocks[..n]);
      var c := Run(B, Put(EMPTY, g, B(g)), proposer, clocks[..n]);
      TickStamps(B, g, c, n, proposer, clocks[n]);
      StampedNext(c, Tick(B, c, proposer, clocks[n]), g.timestamp, clocks);
    }
  }

  /** Whether the timestamps can rise along the whole run: neither genesis nor a reading comes so
      close to the last `u64` that the blocks after it have no room. */
  predicate RoomForStamps(t: nat, clocks: seq<nat>) {
    && t + |clocks| <= U64_MAX
    && forall i :: 0 <= i < |clocks| ==> clocks[i] + (|clocks| - 1 - i) <= U64_MAX
  }

  /** Each timestamp is greater than the one before. */
  predicate Rising(t: nat, clocks: seq<nat>) {
    clocks == [] ||
    var front := clocks[..|clocks| - 1];
    Rising(t, front) && Stamp(t, front) < Stamp(t, clocks)
  }

  /** The last timestamp is the largest that genesis or a reading leads to. */
  ghost predicate StampIs(t: nat, clocks: seq<nat>, stamp: nat) {
    && t + |clocks| <= stamp
    && (forall i :: 0 <= i < |clocks| ==> clocks[i] + (|clocks| - 1 - i) <= stamp)
    && (stamp == t + |clocks| || exists i :: 0 <= i < |clocks| && stamp == clocks[i] + (|clocks| - 1 - i))
  }

  lemma StampNext(t: nat, clocks: seq<nat>, before: nat, stamp: nat)
    requires clocks != [] && StampIs(t, clocks[..|clocks| - 1], before)
        && stamp == Max(clocks[|clocks| - 1], before + 1)
    ensures StampIs(t, clocks, stamp)
  {
    var n := |clocks| - 1;
    var front := clocks[..n];
    assert forall i :: 0 <= i < n ==> clocks[i] == front[i];
    if stamp == clocks[n] {
      assert stamp == clocks[n] + (|clocks| - 1 - n);
    } else if before != t + n {
      var i :| 0 <= i < n && before == front[i] + (n - 1 - i);
      assert stamp == clocks[i] + (|clocks| - 1 - i);
    }
  }

  lemma RoomStep(t: nat, clocks: seq<nat>, last: nat)
    requires clocks != [] && StampIs(t, clocks[..|clocks| - 1], last) && clocks[|clocks| - 1] <= U64_MAX
    ensures RoomForStamps(t, clocks) <==> last < U64_MAX
  {
    var n := |clocks| - 1;
    var front := clocks[..n];
    assert forall i :: 0 <= i < n ==> clocks[i] == front[i];
    if RoomForStamps(t, clocks) && last != t + n {
      var i :| 0 <= i < n && last == front[i] + (n - 1 - i);
      assert clocks[i] + (|clocks| - 1 - i) <= U64_MAX;
    }
  }

  lemma RoomBefore(t: nat, clocks: seq<nat>)
    requires clocks != []
    ensures RoomForStamps(t, clocks) ==> RoomForStamps(t, clocks[..|clocks| - 1])
  {
    var front := clocks[..|clocks| - 1];
    assert forall i :: 0 <= i < |front| ==> front[i] == clocks[i];
  }

  lemma {:induction false} StampInRange(t: nat, clocks: seq<nat>)
    requires t <= U64_MAX && forall i :: 0 <= i < |clocks| ==> clocks[i] <= U64_MAX
    ensures Stamp(t, clocks) <= U64_MAX
  {
    if clocks != [] { StampInRange(t, clocks[..|clocks| - 1]); }
  }

  /** While the timestamps rise, the last one is what genesis and the readings lead to. */
  lemma {:induction false} RisingStamp(t: nat, clocks: seq<nat>)
    requires t <= U64_MAX && (forall i :: 0 <= i < |clocks| ==> clocks[i] <= U64_MAX) && Rising(t, clocks)
    ensures StampIs(t, clocks, Stamp(t, clocks))
  {
    if clocks != [] {
      var front := clocks[..|clocks| - 1];
      RisingStamp(t, front);
      StampInRange(t, clocks);
      StampNext(t, clocks, Stamp(t, front), Stamp(t, clocks));
    }
  }

  lemma {:induction false} RoomGivesRising(t: nat, clocks: seq<nat>)
    requires t <= U64_MAX && (forall i :: 0 <= i < |clocks| ==> clocks[i] <= U64_MAX) && RoomForStamps(t, clocks)
    ensures Rising(t, clocks)
  {
    if clocks != [] {
      var front := clocks[..|clocks| - 1];
      RoomBefore(t, clocks);
      RoomGivesRising(t, front);
      LastHasRoom(t, clocks);
      StampAbove(t, clocks);
    }
  }

  lemma StampAbove(t: nat, clocks: seq<nat>)
    requires clocks != [] && Stamp(t, clocks[..|clocks| - 1]) < U64_MAX && Rising(t, clocks[..|clocks| - 1])
    ensures Rising(t, clocks)
  {
    var last := Stamp(t, clocks[..|clocks| - 1]);
    assert Successor64(last) == last + 1;
  }

  lemma LastHasRoom(t: nat, clocks: seq<nat>)
    requires t <= U64_MAX && (forall i :: 0 <= i < |clocks| ==> clocks[i] <= U64_MAX) && RoomForStamps(t, clocks)
    requires clocks != [] && Rising(t, clocks[..|clocks| - 1])
    ensures Stamp(t, clocks[..|clocks| - 1]) < U64_MAX
  {
    RisingStamp(t, clocks[..|clocks| - 1]);
    RoomStep(t, clocks, Stamp(t, clocks[..|clocks| - 1]));
  }

  /** The timestamps rise exactly when there is room for them. */
  lemma RisingIff(t: nat, clocks: seq<nat>)
    requires t <= U64_MAX && forall i :: 0 <= i < |clocks| ==> clocks[i] <= U64_MAX
    ensures Rising(t, clocks) <==> RoomForStamps(t, clocks)
  {
    StampInRange(t, clocks);
    if Rising(t, clocks) { RisingStamp(t, clocks); }
    if RoomForStamps(t, clocks) { RoomGivesRising(t, clocks); }
  }

  lemma {:induction false} StampsRise(t: nat, clocks: seq<nat>, i: nat, j: nat)
    requires Rising(t, clocks) && i < j <= |clocks|
    ensures Stamp(t, clocks[..i]) < Stamp(t, clocks[..j])
  {
    var n := |clocks| - 1;
    var front := clocks[..n];
    assert front[..i] == clocks[..i];
    if j <= n {
      assert front[..j] == clocks[..j];
      StampsRise(t, front, i, j);
    } else {
      assert clocks[..j] == clocks;
      if i < n { StampsRise(t, front, i, n); }
      assert front[..n] == front;
    }
  }

  /** If some timestamp does not rise, two neighbours show it. */
  lemma {:induction false} StampsFall(t: nat, clocks: seq<nat>) returns (i: nat)
    requires !Rising(t, clocks)
    ensures i < |clocks| && Stamp(t, clocks[..i]) >= Stamp(t, clocks[..i + 1])
  {
    var n := |clocks| - 1;
    var front := clocks[..n];
    if Rising(t, front) {
      i := n;
      assert clocks[..n + 1] == clocks;
    } else {
      i := StampsFall(t, front);
      assert front[..i] == clocks[..i] && front[..i + 1] == clocks[..i + 1];
    }
  }

  /** Timestamps strictly increase along the whole run if and only if there is room for them, which
      genesis and the readings tell before the run. */
  lemma TimestampsIncreaseIff(B: Header -> Hash, g: Header, proposer: Address, clocks: seq<nat>)
    requires IsGenesis(g) && Fits(g.gasLimit, g.baseFee) && |clocks| <= U64_MAX
    requires forall i :: 0 <= i < |clocks| ==> clocks[i] <= U64_MAX
    ensures var c := Run(B, Put(EMPTY, g, B(g)), proposer, clocks);
            && Grown(B, g, c, |clocks|)
            && ((forall i, j :: 0 <= i < j <= |clocks| ==> c.blocks[i].timestamp < c.blocks[j].timestamp)
                <==> RoomForStamps(g.timestamp, clocks))
  {
    RunGrows(B, g, proposer, clocks);
    RunStamped(B, g, proposer, clocks);
    RisingIff(g.timestamp, clocks);
    OrderOfBlocks(Run(B, Put(EMPTY, g, B(g)), proposer, clocks), g.timestamp, clocks);
  }

  lemma OrderOfBlocks(c: Chain, t: nat, clocks: seq<nat>)
    requires Stamped(c, t, clocks)
    ensures (forall i, j :: 0 <= i < j <= |clocks| ==> c.blocks[i].timestamp < c.blocks[j].timestamp)
        <==> Rising(t, clocks)
  {
    if Rising(t, clocks) {
      forall i, j | 0 <= i < j <= |clocks| ensures c.blocks[i].timestamp < c.blocks[j].timestamp {
        StampsRise(t, clocks, i, j);
      }
    } else {
      var i := StampsFall(t, clocks);
      assert !(c.blocks[i].timestamp < c.blocks[i + 1].timestamp);
    }
  }

  /** A clock reading of the last `u64` makes the next addition wrap and time run backwards. */
  lemma TimestampWraps(B: Header -> Hash, g: Header, proposer: Address)
    requires IsGenesis(g) && Fits(g.gasLimit, g.baseFee)
    ensures var c := Run(B, Put(EMPTY, g, B(g)), proposer, [U64_MAX, 5]);
            Grown(B, g, c, 2) && c.blocks[1].timestamp == U64_MAX && c.blocks[2].timestamp == 5
  {
    var start := Put(EMPTY, g, B(g));
    RunGrows(B, g, proposer, []);
    assert Run(B, start, proposer, []) == start;
    TickGrows(B, g, start, 0, proposer, U64_MAX);
    var c1 := Tick(B, start, proposer, U64_MAX);
    assert [U64_MAX][..0] == [];
    assert Run(B, start, proposer, [U64_MAX]) == c1;
    TickGrows(B, g, c1, 1, proposer, 5);
    assert [U64_MAX, 5][..1] == [U64_MAX];
  }

  // ---- base fees along the chain -----------------------------------------------------

  function FeeAt(gasLimit: nat, b: nat, i: nat): nat {
    if i == 0 then b else EmptyNext(gasLimit, FeeAt(gasLimit, b, i - 1))
  }

  lemma {:induction false} ChainFees(B: Header -> Hash, g: Header, c: Chain, n: nat, i: nat)
    requires Grown(B, g, c, n) && i <= n
    ensures c.blocks[i].baseFee == FeeAt(g.gasLimit, g.baseFee, i)
  {
    if i > 0 {
      ChainFees(B, g, c, n, i - 1);
      assert Sound(B, g, c, i - 1);
      assert Follows(B, c.blocks[i - 1], c.blocks[i]);
    }
  }

  /** From block 1 on, fees are at least the floor and never rise. */
  lemma {:induction false} FeesFall(gasLimit: nat, b: nat, i: nat, j: nat)
    requires 1 <= i <= j
    ensures MIN_BASE_FEE <= FeeAt(gasLimit, b, j) <= FeeAt(gasLimit, b, i)
  {
    if i < j { FeesFall(gasLimit, b, i, j - 1); }
  }

  /** With a gas limit of at least 2 the fee reaches the floor and stays there; with a gas limit
      of 1 it keeps its clamped genesis value for ever. */
  lemma {:induction false} FeesSettle(gasLimit: nat, b: nat, i: nat)
    requires i >= 1
    ensures gasLimit < 2 ==> FeeAt(gasLimit, b, i) == Max(b, MIN_BASE_FEE)
    ensures gasLimit >= 2 ==> FeeAt(gasLimit, b, i) <= Max(MIN_BASE_FEE, b - i)
    ensures gasLimit >= 2 && i + MIN_BASE_FEE >= b ==> FeeAt(gasLimit, b, i) == MIN_BASE_FEE
  {
    FeesFall(gasLimit, b, i, i);
    if i > 1 { FeesSettle(gasLimit, b, i - 1); }
  }

  /** All of it on one chain: the fee schedule of a run of any length. */
  lemma RunFees(B: Header -> Hash, g: Header, proposer: Address, clocks: seq<nat>)
    requires IsGenesis(g) && Fits(g.gasLimit, g.baseFee) && |clocks| <= U64_MAX
    requires forall i :: 0 <= i < |clocks| ==> clocks[i] <= U64_MAX
    ensures var c := Run(B, Put(EMPTY, g, B(g)), proposer, clocks);
            && Grown(B, g, c, |clocks|)
            && (forall i, j :: 1 <= i <= j <= |clocks| ==> MIN_BASE_FEE <= c.blocks[j].baseFee <= c.blocks[i].baseFee)
            && (forall i :: 1 <= i <= |clocks| && g.gasLimit >= 2 && i + MIN_BASE_FEE >= g.baseFee ==>
                  c.blocks[i].baseFee == MIN_BASE_FEE)
            && (forall i :: 1 <= i <= |clocks| && g.gasLimit == 1 ==>
                c.blocks[i].baseFee == Max(g.baseFee, MIN_BASE_FEE))
  {
    RunGrows(B, g, proposer, clocks);
    var c := Run(B, Put(EMPTY, g, B(g)), proposer, clocks);
    forall i | 1 <= i <= |clocks| ensures c.blocks[i].baseFee == FeeAt(g.gasLimit, g.baseFee, i) {
      ChainFees(B, g, c, |clocks|, i);
    }
    forall i, j | 1 <= i <= j <= |clocks|
      ensures MIN_BASE_FEE <= FeeAt(g.gasLimit, g.baseFee, j) <= FeeAt(g.gasLimit, g.baseFee, i)
    {
      FeesFall(g.gasLimit, g.baseFee, i, j);
    }
    forall i | 1 <= i <= |clocks|
      ensures g.gasLimit == 1 ==> FeeAt(g.gasLimit, g.baseFee, i) == Max(g.baseFee, MIN_BASE_FEE)
      ensures g.gasLimit >= 2 && i + MIN_BASE_FEE >= g.baseFee ==> FeeAt(g.gasLimit, g.baseFee, i) == MIN_BASE_FEE
    {
      FeesSettle(g.gasLimit, g.baseFee, i);
    }
  }
}
