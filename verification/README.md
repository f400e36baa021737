# Lemma node: verified models

A Dafny model of the deterministic core of the Lemma node, and proofs about it. `dafny verify
dfyconfig.toml` checks everything. Each module follows one component:

- **Parallel execution** (`Flux`, `FluxCaches`, `FluxProgress`, `FluxVersions`, `FluxSolo`, `FluxLeaks`): the
  optimistic multi-version executor as a state machine whose steps are the single accesses of any
  number of workers to shared state: the store, and the executor's two shared caches of warm code
  and safety manifests. For every block, no schedule deadlocks or goes on for ever, and no
  transaction is executed more than twice. Every completed run has the receipts and final writes of
  sequential execution when nothing that other transactions can change escapes validation;
  `FluxLeaks` proves that reads outside the capture set and queries to the shared caches are exactly
  what can break it, with two workers or more; with one worker nothing can (`FluxSolo`).
- **Mempool** (`PoolIndex`, `Pool`, `Admission`, `Breaker`, `RateLimit`, `LocalFees`): three redundant
  indexes under admission, replacement, eviction, removal and block ticks; what exactly an admission
  answers and does; the token bucket; the moving-average fee market.
- **Commit rule** (`Pulse`, `PulseSplit`, `LeaderRotation`): votes, certificates, blame, direct and
  anchored decisions over a DAG, and what two nodes with different views can decide. Commits never
  differ; a commit and an anchored skip of the same slot can, even with no faulty validator.
- **Certificates** (`Stake`, `Committee`, `Certificates`): stake tallies, committees, certificate
  building and verification, quorum intersection and agreement.
- **Money** (`Rewards`, `RewardBound`, `Fees`): proportional rewards, base-fee control, fee split
  and admission.
- **Commit execution** (`Batches`, `BlockExec`, `WorldLaws`, `Producer`): payload resolution,
  two-phase state application, chain growth.
- **Leader reputation** (`Reputation`) and **digest framing** (`Framing`, `Headers`, `Preimages`,
  `SetPreimages`).

`Primitives`, `Ordered`, `Weights` and `Arithmetic` hold shared definitions: machine-integer
bounds with explicit checked and saturating operations, `BTreeMap` iteration order, sums over
finite sets, rounding division.

Classes and methods follow the code's loops and in-place updates; each is proved equal to a
specification function, and the lemmas speak about that function over every input or every run.

## Conventions

- Addresses and hashes are naturals in their byte order. Blake3, the block hash and signature
  checks are parameters; injectivity is a precondition exactly where it is used
  (`BlockExec.ApplyWrites`, `Headers.DigestBindsHeader`).
- A trie root is represented by the contents it commits to, so equal roots mean equal contents.
- Tokens of the rate limiter are exact reals instead of `f64`; time is a real number of seconds.
- In the pool, a transaction hash determines sender and nonce, and `next_seq` stays below the
  largest `u64`; both are stated as preconditions of the run lemmas.
- In `Flux`, a transaction is a deterministic function of the answers to its reads and to its
  queries of the two shared caches, and gas bounds their number. A safety manifest is a number that
  stands for what was parsed from the code at hand. Scheduler actions that the code performs under
  one lock are split into smaller steps, which only adds interleavings. A worker that polls and
  finds no task takes no step.

## Where code and documentation differ

The model follows the code; each difference is proved.

- The burned remainder of a reward distribution is documented as always below one Drip per member
  (`rewards.rs:140-145`). Two members of 1.5 Drips and a pool of 6 Drips burn two Drips
  (`RewardBound.HalvesBurnTwoDrips`); one member of half a Drip burns every pool
  (`RewardBound.HalfDripBurnsAll`). The bound holds for every pool the code can process if and only if
  the total is at least one Drip and the powers, each rounded to whole Drips, sum to the rounded total
  (`RewardBound.BurnedBelowOneDripIff`), unless the powers are so large that the pool that would show
  it overflows (`RewardBound.GiantsStayBelow`).
- The local fee average under a constant rate `x` is documented to settle at `x`; it settles at
  `max(0, x - 7)` (`LocalFees.ConstantRateSettles`).
- Replace-by-fee is documented as a 10 % bump; below ten Drops it demands no raise (`Pool.RbfBump`).
- The base fee is documented to move by at most an eighth. For a gas limit of at least 2 that holds
  for every block and every fee if and only if the limit is even (`Fees.BandIff`).
- The saturating quorum comparison is exact only while the scaled total is below the largest
  `u128` (`Stake.ThresholdExactIff`); the Emergency tier is exactly a full pool only while
  100 times the capacity fits in `u64` (`Breaker.EmergencyIsFullIff`).
- A wall-clock reading of the largest `u64` makes the parent's successor timestamp wrap in release
  builds and time runs backwards (`Producer.TimestampWraps`); `Producer.TimestampsIncreaseIff` says for
  which readings timestamps rise. A genesis base fee whose product with
  half the gas limit overflows `u128` stops the producer for ever (`Producer.RunGrows`).
- Parallel execution is documented as identical to sequential execution for every block. Contract
  calls and deployments read through a cloned view whose reads are not captured
  (`lemma-vm/src/executor/scratch.rs:134-179`); the first toucher of a code hash in a block, over all
  workers and incarnations, pays a surcharge (`lemma-vm/src/executor/call.rs:125-136`); and a call is
  charged and checked by the manifest cached for its address, which a speculative call or deployment
  may have left there (`lemma-vm/src/executor/call.rs:105-115`, `deploy.rs:243-250`). Each is enough to
  break the identity and without them it holds (`FluxLeaks.CaptureIff`). A transaction that reads
  nothing a lower one can write may ask caches that no other asks (`Flux.ParallelEqualsSequential`),
  so independent contract calls run as in sequence (`FluxProgress.IndependentRunIsSequential`).
- A direct commit is documented as needing certificates of more than two thirds of the stake
  (`committer.rs:218`); the code takes one certificate once the decision round is filled. Then
  one node can commit a leader that another skips (`PulseSplit.OneCertificateSplits`); exactly when is
  `Pulse.SkipAfterCommitIff`. Where a quorum of certificates does stand behind a block, every node
  commits it (`Pulse.QuorumOfCertificatesCommits`).
- The leader schedule is documented as a round robin over the committee; only every third round has a
  leader, so in a committee whose size is a multiple of three, two thirds of the members never lead
  (`LeaderRotation.EveryMemberLeadsIff`).
- A clock that goes backwards is documented to add no tokens; it also moves the last refill back, so
  that the same time is refilled twice (`RateLimit.BackwardClockRefillsTwice`).
- Storing an empty value makes flat storage and the storage trie disagree
  (`BlockExec.AgreementKeptIff`).
- The hash preimage of a validator set determines the set, over all sets with key sizes from some
  collection, if and only if the collection has at most one element
  (`SetPreimages.PreimageBindsIff`); `ConsensusKey::from_bytes` checks no size
  (`lemma-core/src/validator.rs:48-61`).

## Model

| member | source | states |
|---|---|---|
| Flux.RunKeeps | crates/lemma-vm/src/parallel/scheduler/worker.rs:64-135 | After every interleaving of any number of workers on a confined block, the committed prefix holds exactly the sequential writes and receipts, and every other slot belongs to one well-formed speculative run |
| Flux.StepKeeps | crates/lemma-vm/src/parallel/scheduler/state.rs:90-171 | Each dispatch, read, query, publication, record, claim, check, abort, re-execution and commit step keeps that invariant |
| Flux.ResolvePrefix | crates/lemma-vm/src/parallel/mvstate.rs:195-214 | Over a committed prefix a multi-version read is never an estimate and returns the sequential value |
| Flux.CheckKeeps | crates/lemma-vm/src/parallel/conflict.rs:84-105 | Validating read by read and accepting commits only the sequential outcome, although other workers act in between |
| Flux.AdvanceKeeps | crates/lemma-vm/src/parallel/mvview.rs:139-169 | A read by any worker, estimates falling through to base, keeps the invariant; a re-execution by the committer reads sequential values |
| Flux.PassedAgrees | crates/lemma-vm/src/parallel/conflict.rs:92-105 | A logged read that validation passes over a committed prefix has the sequential value, captured or not |
| Flux.RejectedAsksNothing | crates/lemma-vm/src/parallel/conflict.rs:84-105 | A transaction that reads nothing a lower one can write is never rejected, so one that is has asked no cache |
| Flux.ParallelEqualsSequential | crates/lemma-vm/src/parallel/scheduler.rs:193-249 | Every completed run has the receipts and the final write map of sequential execution when uncaptured reads are of keys no lower transaction can write, and caches are asked only by one transaction each that reads nothing a lower one can write |
| Flux.SnapshotIsSequential | crates/lemma-vm/src/parallel/mvstate.rs:262-270 | The highest write per key over committed slots is the sequential write map |
| Flux.RunIncarnation | crates/lemma-vm/src/parallel/scheduler.rs:98-117 | One incarnation over a committed prefix of the store computes the reference outcome, which `FluxCaches.ReferenceIsSerial` says is serial |
| Flux.ExecuteSequentially | crates/lemma-vm/src/parallel/scheduler.rs:132-155 | The sequential scheduler over the multi-version store returns the reference receipts and writes, which `FluxCaches.ReferenceIsSerial` says are serial |
| FluxCaches.ReferenceIsSerial | crates/lemma-vm/src/parallel/scheduler.rs:132-155 | There are answers on which every transaction runs to its end, each read getting the last write of the transactions before it or the base state and the caches answering in order, and the reference receipts and writes are those of these runs |
| FluxCaches.RunAnswersInOrder | crates/lemma-vm/src/executor/call.rs:105-136 | Over every run, of the touches of a code exactly the first one served is told to pay, and a recall is told the manifest of the latest note of its address, else of the first recall, else its own |
| FluxCaches.ServedInOrder | crates/lemma-vm/src/executor/deploy.rs:243-250 | Serving one query keeps the caches in step with the order of the queries; a note overwrites |
| FluxCaches.AskIsAnswered | crates/lemma-vm/src/executor/call.rs:105-136 | No query goes without an answer, and the program finds that answer next in its history |
| FluxProgress.RunKeepsShape | crates/lemma-vm/src/parallel/scheduler/state.rs:90-171 | For every block and every interleaving, each transaction before the cursor has a result, each after the dispatch point none, and each between is either with one worker or has a result |
| FluxProgress.NoDeadlock | crates/lemma-vm/src/parallel/scheduler/worker.rs:64-83 | In every reachable unfinished state of every block some worker can step, even with one worker |
| FluxProgress.TasksWithinPool | crates/lemma-vm/src/parallel/scheduler/worker.rs:64-83 | No run ever has more executions and commits under way than workers |
| FluxProgress.StepDescends | crates/lemma-vm/src/parallel/scheduler/worker.rs:64-135 | Every step of every metered block lowers a lexicographic measure |
| FluxProgress.NoEndlessRun | crates/lemma-vm/src/parallel/scheduler/worker.rs:64-135 | No schedule of any metered block has endlessly many steps; polling without finding a task is no step |
| FluxProgress.MaximalRunCompletes | crates/lemma-vm/src/parallel/scheduler/worker.rs:64-135 | A run of any block that cannot go on has executed and committed every transaction |
| FluxProgress.MaximalRunIsSequential | crates/lemma-vm/src/parallel/scheduler.rs:193-266 | On a confined block its output is sequential |
| FluxProgress.IndependentRunIsSequential | crates/lemma-vm/src/parallel/scheduler.rs:193-266 | When no transaction can write what another reads and no two ask the same cache, every maximal run is sequential, captured or not |
| FluxVersions.RunKeepsVersions | crates/lemma-vm/src/parallel/mvstate.rs:195-258 | For every block and every interleaving, the entries of an executed transaction are exactly its write keys, live and of its incarnation; those of a rejected run are estimates once marked, and gone before it runs again |
| FluxVersions.RejectedIsHidden | crates/lemma-vm/src/parallel/mvstate.rs:195-214 | While the writes of a rejected run are being removed no read finds any of them |
| FluxVersions.FoundIsCurrent | crates/lemma-vm/src/parallel/mvstate.rs:195-214 | Otherwise a read that finds a version finds the current incarnation of the highest writer below |
| FluxVersions.ExecutedAtMostTwice | crates/lemma-vm/src/parallel/scheduler/state.rs:90-171 | In every run of every block each transaction is executed at most twice, the second time exactly when it was rejected |
| FluxSolo.OneWorkerIsSequential | crates/lemma-vm/src/parallel/scheduler.rs:193-266 | With one worker every completed run of every metered block is sequential, whatever escapes validation |
| FluxLeaks.UntrackedReadDiverges | crates/lemma-vm/src/parallel/mvview.rs:70-91 | For every key, one uncaptured read of it lets a two-transaction block complete with a receipt that is not the sequential one; the code's uncaptured view reads storage, balances and code, and no nonces |
| FluxLeaks.SharedAskDiverges | crates/lemma-vm/src/executor/call.rs:100-136 | For every warm-code entry and every cached manifest, two transactions that ask it and capture everything can complete with receipts that are not the sequential ones |
| FluxLeaks.CaptureIff | crates/lemma-vm/src/parallel/scheduler.rs:10-14 | Every completed run of every metered block whose uncaptured reads lie in U and cache queries in W is sequential if and only if U and W are empty |
| FluxLeaks.CaptureByWorkersIff | crates/lemma-vm/src/parallel/scheduler.rs:10-14 | For a given number of workers the same holds if and only if there is at most one worker or U and W are empty |
| Pulse.FindSupportedBlock | crates/lemma-consensus/src/pulse/committer.rs:118-131 | A voter supports a block exactly when it references that block and no other at the slot |
| Pulse.IsCertificate | crates/lemma-consensus/src/pulse/committer.rs:150-173 | The early-exit loop decides whether the voting ancestors carry a quorum of distinct members |
| Pulse.TryDirectDecide | crates/lemma-consensus/src/pulse/committer.rs:228-289 | Skip if and only if a quorum blames; commit of a block if and only if none does, the block is at the slot, the decision round is filled and one of its blocks certifies it; the Byzantine breach error is unreachable |
| Pulse.TryIndirectDecide | crates/lemma-consensus/src/pulse/committer.rs:310-402 | The nearest leader above that was not skipped decides if it is a committed anchor three or more rounds up that the node has: commit if and only if it references a certificate of the block at the slot directly, else skip |
| Pulse.TryDecide | crates/lemma-consensus/src/pulse/committer.rs:432-499 | The high-to-low loop emits the longest decided prefix of the leader decisions |
| Pulse.DecisionIff | crates/lemma-consensus/src/pulse/committer.rs:228-402 | When exactly the whole rule commits a block and when exactly it skips, in terms of blocks, votes and references |
| Pulse.LeaderCount | crates/lemma-consensus/src/pulse/committer.rs:442-499 | As many leaders are considered as there are multiples of three from the round after the last decided one to two below the highest |
| Pulse.LeaderAt | crates/lemma-consensus/src/pulse/committer.rs:442-499 | They stand in the order of their rounds, each with the decision of its slot |
| Pulse.PrefixExact | crates/lemma-consensus/src/pulse/committer.rs:442-499 | What is emitted stops before the first undecided leader and nowhere else |
| Pulse.DecidedIsEmitted | crates/lemma-consensus/src/pulse/committer.rs:442-499 | A decision is emitted, at its place, once every leader below it is decided |
| Pulse.BlameSkips | crates/lemma-consensus/src/pulse/committer.rs:240-252 | Under a blame quorum the decision is a skip whatever was decided above |
| Pulse.BlameIsEmitted | crates/lemma-consensus/src/pulse/committer.rs:240-252 | That skip is emitted once every leader below is decided |
| Pulse.CertificatesAgree | crates/lemma-consensus/src/pulse/committer.rs:150-173 | With at most a third faulty, certificates of two nodes for one slot are for the same block |
| Pulse.CertificateExcludesBlame | crates/lemma-consensus/src/pulse/committer.rs:182-211 | A certificate at one node excludes a blame quorum at every other |
| Pulse.DecisionsAgree | crates/lemma-consensus/src/pulse/committer.rs:228-402 | Two nodes' commits of a slot, direct or anchored, are the same block, and a commit excludes a direct skip elsewhere |
| Pulse.OutputsAgree | crates/lemma-consensus/src/pulse/committer.rs:432-499 | The committed leaders two nodes emit never differ at one round |
| Pulse.AnchorAgreesIff | crates/lemma-consensus/src/pulse/committer.rs:328-383 | After a commit at one node, an anchor at another commits the same block if and only if it references a certificate for it directly; otherwise it skips |
| Pulse.SkipAfterCommitIff | crates/lemma-consensus/src/pulse/committer.rs:310-402 | After a commit at one node, another decides Skip if and only if it cannot decide directly and its nearest leader not skipped is a committed anchor a wave up without a direct certificate |
| Pulse.EmittedSkipIff | crates/lemma-consensus/src/pulse/committer.rs:432-499 | The same condition for the statuses the two nodes emit at one round |
| Pulse.QuorumOfCertificatesBinds | crates/lemma-consensus/src/pulse/committer.rs:216-222 | With the documented quorum of certificates every next-wave anchor at every node commits the block |
| Pulse.QuorumOfCertificatesDecides | crates/lemma-consensus/src/pulse/committer.rs:216-222 | With the documented quorum of certificates at one node, every node whose decision round is filled commits the block directly |
| Pulse.QuorumOfCertificatesCommits | crates/lemma-consensus/src/pulse/committer.rs:216-222 | So does the decision of every node that has any block above the decision round, whatever was decided above |
| Pulse.FarAnchorAlwaysSkips | crates/lemma-node/src/dag_driver.rs:856-860 | When blocks reference the previous round only, an anchor more than one wave up skips whatever was not decided directly |
| PulseSplit.OneCertificateSplits | crates/lemma-consensus/src/pulse/committer.rs:257-287 | Two valid views of four honest validators on which one node commits a leader and the other skips it |
| PulseSplit.OutputsSplit | crates/lemma-consensus/src/pulse/leader.rs:148-163 | Under the round-robin schedule of that committee the two nodes emit different sequences |
| LeaderRotation.EveryMemberLeadsIff | crates/lemma-consensus/src/pulse/leader.rs:148-163 | Under an unswapped schedule every member leads some round if and only if the size of the committee is not a multiple of three |
| LeaderRotation.LeaderIs | crates/lemma-consensus/src/pulse/leader.rs:148-163 | The leader is the member at round plus offset, counted around the committee, or whoever it is swapped for |
| LeaderRotation.LeaderIsMember | crates/lemma-consensus/src/pulse/leader.rs:148-163 | With any swap table of the committee the leader is a member |
| PoolIndex.SenderIndexLaws | crates/lemma-mempool/src/pool.rs:622-637 | Adding and dropping a nonce changes one lookup only and leaves no empty sender map |
| PoolIndex.RemoveKeeps | crates/lemma-mempool/src/pool.rs:622-637 | Removing an entry keeps the three indexes mutually inverse and shrinks them by one |
| PoolIndex.InsertKeeps | crates/lemma-mempool/src/pool.rs:392-414 | Inserting into a free sender and nonce keeps the indexes mutually inverse and grows them by one |
| PoolIndex.RoomWhenFull | crates/lemma-mempool/src/pool.rs:360-379 | In a full pool room is refused exactly when the newcomer beats no entry; otherwise the lowest entry goes, the oldest of the lowest priority |
| PoolIndex.TakeEntries | crates/lemma-mempool/src/pool.rs:490-497 | The take and filter loop returns the entries of the first keys, skipping keys without one |
| PoolIndex.PendingExact | crates/lemma-mempool/src/pool.rs:490-497 | Retrieval returns exactly the min(limit, len) highest entries, falling by priority and then from newer to older, each outranking everything left out |
| PoolIndex.RemoveKeepsOrder | crates/lemma-mempool/src/pool.rs:428-435 | A removal takes one transaction out of the retrieval order and moves nothing else |
| Pool.RbfBump | crates/lemma-mempool/src/pool.rs:651-658 | The replacement price is the old price plus a tenth rounded down, a strict raise exactly from ten up, and the largest u128 on overflow |
| Pool.PlacedKeeps | crates/lemma-mempool/src/pool.rs:300-420 | Replacement, eviction and insertion keep the indexes consistent, a refusal changes none of them, and the desynchronised branch is unreachable; which of them happens is `Admission.ReplacesIff` and `Admission.NewcomerOutcome` |
| Pool.PlacedNewEffect | crates/lemma-mempool/src/pool.rs:360-379 | A new sender and nonce is added while there is room; in a full pool it is refused or takes the place of the lowest entry |
| Pool.FailedAdmissionInvisible | crates/lemma-mempool/src/pool.rs:271-421 | A failed admission changes nothing except perhaps the sender's token bucket |
| Pool.RunConsistent | crates/lemma-mempool/src/pool.rs:193-217 | After every run of admissions, removals and ticks the three indexes describe the same transactions, with every sequence number below the next one |
| Pool.RunPendingExact | crates/lemma-mempool/src/pool.rs:490-497 | After every run retrieval returns exactly the highest entries and the pool is within capacity |
| Pool.RunTopK | crates/lemma-mempool/src/pool.rs:360-379 | Over any run of new admissions, every priority refused or evicted is at most that of every transaction pooled from then on |
| Pool.OnlyStakingEvicts | crates/lemma-mempool/src/pool.rs:287-295 | While percentages do not saturate, only Stake and Unstake can evict, and only from a full pool |
| Pool.CommitRemovesExactly | crates/lemma-node/src/block_exec.rs:488-497 | After a commit none of its hashes is pooled and all other transactions keep their order |
| Pool.Mempool.constructor | crates/lemma-mempool/src/pool.rs:225-244 | A new pool is empty |
| Pool.Mempool.RemoveInternal | crates/lemma-mempool/src/pool.rs:622-637 | The in-place removal is the removal on the index value |
| Pool.Mempool.AdmitAsNew | crates/lemma-mempool/src/pool.rs:554-611 | Eviction, fee recording and insertion of a transaction that replaces nothing |
| Pool.Mempool.RecordAndInsert | crates/lemma-mempool/src/pool.rs:381-414 | Fee recording and insertion into the three indexes |
| Pool.Mempool.Admit | crates/lemma-mempool/src/pool.rs:271-421 | The whole pipeline equals the admission function on pool, buckets and loads, error by error, which `Admission` states in terms of the transaction |
| Pool.Mempool.Remove | crates/lemma-mempool/src/pool.rs:428-435 | Removal by hash returns the entry and drops it, and nothing for an unknown hash |
| Pool.Mempool.PendingByPriority | crates/lemma-mempool/src/pool.rs:490-497 | On consistent indexes the list is exactly the min(limit, len) highest entries, highest first, each pooled, everything left out being below |
| Pool.Mempool.OnNewBlock | crates/lemma-mempool/src/pool.rs:508-512 | A block tick prunes buckets, ages loads and leaves the indexes alone |
| Pool.MempoolPostCommit | crates/lemma-node/src/block_exec.rs:488-497 | The removal loop and the tick leave exactly the entries that were not committed |
| Admission.ValidateIff | crates/lemma-mempool/src/validation.rs:100-152 | Validation passes exactly when all nine checks do and reports the first one that does not, with its figures |
| Admission.GatesDecide | crates/lemma-mempool/src/pool.rs:271-299 | The first of validation, load and rate limit that does not open answers, and nothing changes but a rate-limited sender's bucket |
| Admission.PastGates | crates/lemma-mempool/src/pool.rs:298-304 | Past the gates one token is spent and the indexes decide with the score |
| Admission.ReplacesIff | crates/lemma-mempool/src/pool.rs:303-358 | A transaction that meets an entry of its sender and nonce replaces it if and only if it pays a tenth more, rounded down, or the largest u128 where the product overflows; then exactly that entry is exchanged, and otherwise the indexes stay and both prices are reported |
| Admission.NewcomerOutcome | crates/lemma-mempool/src/pool.rs:360-379 | One that meets none is added while there is room, and in a full pool takes the place of the lowest entry or is refused, by priority |
| Admission.LoadsCounted | crates/lemma-mempool/src/pool.rs:381-388 | An admitted call or deployment counts once towards its target, and nothing else does |
| Admission.TickEffect | crates/lemma-mempool/src/pool.rs:508-512 | A tick moves no entry, turns every load into an eighth of seven averages and the count, and changes no token level |
| Breaker.LoadOnlySheds | crates/lemma-mempool/src/circuit_breaker.rs:118-180 | More load never lowers the tier and never admits more |
| Breaker.EmergencyIsFullIff | crates/lemma-mempool/src/circuit_breaker.rs:118-134 | Emergency is exactly a full pool, for every load, if and only if 100 times the capacity fits in u64 |
| Breaker.TierByLoad | crates/lemma-mempool/src/circuit_breaker.rs:118-134 | Normal below 70 %, Busy below 90 %, Critical below 100 %, else Emergency |
| Breaker.AdmittedAtIff | crates/lemma-mempool/src/circuit_breaker.rs:118-180 | Deployments are admitted exactly below 70 % load, calls below 90 %, transfers and votes below 100 %, staking always |
| Breaker.PriorityExact | crates/lemma-mempool/src/qos.rs:124-153 | Three saturations come to one: price plus one point per whole token staked, at most a million, within u64 |
| Breaker.PriorityMonotone | crates/lemma-mempool/src/qos.rs:124-153 | Priority rises with price and stake, and the stake bonus never outweighs a price gap of its cap |
| RateLimit.RateLimiter.constructor | crates/lemma-mempool/src/rate_limit.rs:175-183 | Capacity and refill are kept from one up and set to one below |
| RateLimit.RateLimiter.TryAcquire | crates/lemma-mempool/src/rate_limit.rs:205-220 | The bucket map after an acquire, and its answer; the rate is `LevelLater`, `WindowBound` and `RetryExactIff` |
| RateLimit.RateLimiter.PruneFull | crates/lemma-mempool/src/rate_limit.rs:228-241 | The loop drops exactly the buckets that are full once refilled |
| RateLimit.AcquireByLevel | crates/lemma-mempool/src/rate_limit.rs:103-130 | An acquire is granted exactly when the level is at least one, takes one token then, and touches no other account |
| RateLimit.LevelLater | crates/lemma-mempool/src/rate_limit.rs:103-108 | Between events a level rises by elapsed seconds times refill, up to the capacity |
| RateLimit.PruneByLevel | crates/lemma-mempool/src/rate_limit.rs:228-241 | Pruning forgets exactly the full buckets and changes no level |
| RateLimit.BurstGranted | crates/lemma-mempool/src/rate_limit.rs:198-199 | The first `capacity` calls of an account are always granted |
| RateLimit.WindowBound | crates/lemma-mempool/src/rate_limit.rs:103-130 | In every window an account is granted at most capacity plus window length times refill, whatever others and pruning do |
| RateLimit.RetryHint | crates/lemma-mempool/src/rate_limit.rs:103-130 | The retry hint is between 1 and 1000 ms, long enough, and no whole millisecond less would do |
| RateLimit.RetryHonoured | crates/lemma-mempool/src/rate_limit.rs:205-220 | A call made after the hinted delay succeeds if nothing was granted in between |
| RateLimit.LevelWithoutGrants | crates/lemma-mempool/src/rate_limit.rs:103-113 | With nothing granted to an account its level rises by elapsed seconds times refill, whatever happens in between |
| RateLimit.RetryExactIff | crates/lemma-mempool/src/rate_limit.rs:103-130 | After a rejection, with nothing granted in between, a call succeeds if and only if elapsed time times refill makes up for the missing part of a token |
| RateLimit.BackwardAddsNothing | crates/lemma-mempool/src/rate_limit.rs:98-113 | A clock before the last refill adds nothing |
| RateLimit.BackwardClockRefillsTwice | crates/lemma-mempool/src/rate_limit.rs:98-113 | But the time it went back is refilled again, so the window bound does need a forward clock |
| RateLimit.PruneInvisible | crates/lemma-mempool/src/rate_limit.rs:228-241 | Dropping every prune from a run changes no answer |
| LocalFees.LocalFeeMarket.constructor | crates/lemma-mempool/src/local_fees.rs:225-227 | A new market tracks nothing |
| LocalFees.LocalFeeMarket.Record | crates/lemma-mempool/src/local_fees.rs:245-249 | One more call is counted for one contract |
| LocalFees.LocalFeeMarket.Tick | crates/lemma-mempool/src/local_fees.rs:265-280 | The loop ages every load |
| LocalFees.LocalFeeMarket.PruneIdle | crates/lemma-mempool/src/local_fees.rs:289-292 | The retain loop changes no contract's load, untracked meaning zero, and leaves no idle contract tracked |
| LocalFees.LocalFeeMarket.LocalBaseFee | crates/lemma-mempool/src/local_fees.rs:325-341 | On u64 values the saturating computation lies between the base and ten times the base, and is the base for a load of at most 800 or none |
| LocalFees.EmaBetween | crates/lemma-mempool/src/local_fees.rs:265-280 | The new average lies between the old one and the block's count, so no saturation or clamp fires |
| LocalFees.QuietContractPaysBase | crates/lemma-mempool/src/local_fees.rs:325-341 | A contract never above 800 calls per block always pays the global base |
| LocalFees.ConstantRate | crates/lemma-mempool/src/local_fees.rs:265-280 | A constant rate rises monotonically and gains at least one per block below its limit |
| LocalFees.ConstantRateSettles | crates/lemma-mempool/src/local_fees.rs:265-280 | It settles at max(0, x - 7) |
| LocalFees.IdleReachesZero | crates/lemma-mempool/src/local_fees.rs:265-280 | An idle load loses at least one per block until zero |
| LocalFees.FeeBand | crates/lemma-mempool/src/local_fees.rs:325-341 | The fee is monotone in the load and between the base and ten times the base, capped at u64 |
| LocalFees.SurchargeIff | crates/lemma-mempool/src/local_fees.rs:325-341 | No base is surcharged exactly when the load is at most 800 |
| LocalFees.PruneInvisible | crates/lemma-mempool/src/local_fees.rs:289-356 | The pruned map agrees with the unpruned total market on every contract and fee after every run |
| LocalFees.CountIsCalls | crates/lemma-mempool/src/local_fees.rs:245-249 | After every run the count of a contract is the number of its calls since the last tick, within u64 |
| LocalFees.AverageMovesAtTicks | crates/lemma-mempool/src/local_fees.rs:265-280 | The average moves at ticks only, to an eighth of seven averages and the calls since the last tick |
| LocalFees.LoadsStayInRange | crates/lemma-mempool/src/local_fees.rs:245-280 | Averages and counts stay in u64 along every run |
| Stake.ThresholdSound | crates/lemma-consensus/src/stake.rs:208-214 | Saturation never reports a threshold that is not truly exceeded |
| Stake.ThresholdExactIff | crates/lemma-consensus/src/stake.rs:208-214 | The comparison is exact, two thirds for a quorum and one third for validity, for every stake if and only if the scaled total is below the largest u128 |
| Stake.StakeAggregator.constructor | crates/lemma-consensus/src/stake.rs:98-106 | A new tally is empty |
| Stake.StakeAggregator.Add | crates/lemma-consensus/src/stake.rs:133-155 | A repeat is ignored, an overflow is refused without effect, otherwise the author is counted and the flag refreshed |
| Stake.StakeAggregator.Clear | crates/lemma-consensus/src/stake.rs:185-189 | Back to an empty tally |
| Stake.RunExact | crates/lemma-consensus/src/stake.rs:133-189 | After any run the stake is the sum over distinct counted authors of a power added since the last clear, and the flag is a fresh comparison |
| Stake.OrderAndRepeatsInvisible | crates/lemma-consensus/src/stake.rs:133-155 | With one power per author and no overflow the tally depends on the set of authors alone |
| Stake.OverflowShowsOrder | crates/lemma-consensus/src/stake.rs:133-155 | For every set of authors whose powers overflow there are two orders that count different authors |
| Stake.OrderInvisibleIff | crates/lemma-consensus/src/stake.rs:133-155 | The tally is the same for every order and repetition of a set of authors if and only if their powers sum to a u128 |
| Committee.FromActiveValidators | crates/lemma-core/src/validator_set.rs:100-143 | Succeeds exactly when some validator is active and the powers sum to a u128; then the cached total is that sum; an overflow blames the first address at which the sum leaves u128 |
| Committee.MembersServe | crates/lemma-core/src/validator.rs:259-276 | The members are exactly the bonded validators that are neither tombstoned nor jailed, each with its key and its own and delegated stake |
| Certificates.VerifyQuorumCert | crates/lemma-consensus/src/cert.rs:126-175 | Accepts exactly certificates over the expected digest with only valid member signatures and more than two thirds of the power; a blamed signer is the first bad one, or the one at which the power leaves u128; a short quorum is reported with its power |
| Certificates.QuorumIntersection | crates/lemma-consensus/src/cert.rs:126-175 | Two accepted certificates share signers with more than a third of the power |
| Certificates.Agreement | crates/lemma-consensus/src/cert.rs:126-175 | With at most a third of the power dishonest and one signature per honest validator and height, no two digests at one height are both certifiable |
| Certificates.DisjointHonestQuorumsDisagree | crates/lemma-consensus/src/cert.rs:126-175 | Whenever two quorums share no honest member, both digests can be certified |
| Certificates.AgreementIff | crates/lemma-consensus/src/cert.rs:126-175 | No two digests at one height are ever both certified if and only if every two quorums share an honest member |
| Certificates.CommitAckAccumulator.constructor | crates/lemma-consensus/src/commit_ack.rs:254-262 | A new accumulator is empty |
| Certificates.CommitAckAccumulator.Add | crates/lemma-consensus/src/commit_ack.rs:323-375 | The accumulator after one ack; a failed add changes nothing |
| Certificates.CommitAckAccumulator.TryBuildQc | crates/lemma-consensus/src/commit_ack.rs:391-400 | The certificate of the current signers, once the quorum is reached |
| Certificates.AccumulatorRun | crates/lemma-consensus/src/commit_ack.rs:323-375 | After any deliveries the recorded signers are exactly the counted authors, which are the members with a valid ack |
| Certificates.AnswerAfterLog | crates/lemma-consensus/src/commit_ack.rs:323-375 | The answer to the next ack after any deliveries: the first failing check, equivocation on a second valid ack of a signer, else whether the valid acks now carry a quorum; never an overflow |
| Certificates.SignaturesDelivered | crates/lemma-consensus/src/commit_ack.rs:323-375 | Every recorded signature is the one of its signer's first valid ack |
| Certificates.BuiltCertVerifies | crates/lemma-consensus/src/commit_ack.rs:391-400 | Every certificate built is accepted by the verifier |
| Certificates.BuiltIffQuorum | crates/lemma-consensus/src/commit_ack.rs:391-400 | A certificate is available exactly when the valid acks carry a quorum |
| Certificates.ArrivalOrderInvisible | crates/lemma-consensus/src/commit_ack.rs:323-400 | Arrival order and duplicates do not change the certificate |
| Rewards.InflationExact | crates/lemma-consensus/src/rewards.rs:180-201 | The mint is the yearly rate per epoch rounded down once, never grows with the epoch, and fails only on overflow |
| Rewards.ScheduleExact | crates/lemma-consensus/src/rewards.rs:64-70 | 200, 170, 140, 120, 100 and then 80 basis points in years of 365 epochs |
| Rewards.ShareIsLargest | crates/lemma-consensus/src/rewards.rs:262-290 | A share is the largest whole number of Drips within the member's proportion of the pool |
| Rewards.SharesNearProportion | crates/lemma-consensus/src/rewards.rs:262-290 | The shares of any set of members differ from the exact proportion by less than one Drip each |
| Rewards.LostPowerShows | crates/lemma-consensus/src/rewards.rs:262-290 | T·d ≥ pool·(T−Σp): power lost to rounding shows as dust in proportion to the pool |
| RewardBound.ProcessableIff | crates/lemma-consensus/src/rewards.rs:262-304 | No product overflows exactly when the distribution over members without own stake succeeds |
| RewardBound.BurnedBelowOneDripIff | crates/lemma-consensus/src/rewards.rs:140-145 | Less than one Drip per member is burned for every processable pool if and only if the total is at least one Drip and no power is lost to rounding, given that the pool that would show it (⌈nT/(T−Σp)⌉ Drips, or n) is processable |
| RewardBound.HalvesBurnTwoDrips | crates/lemma-consensus/src/rewards.rs:242-330 | A distribution to two members that burns two Drips |
| RewardBound.HalfDripBurnsAll | crates/lemma-consensus/src/rewards.rs:250-256 | A total below one Drip burns every pool |
| RewardBound.GiantsStayBelow | crates/lemma-consensus/src/rewards.rs:262-290 | A committee that loses a Drip to rounding and still burns less than one Drip per member for every processable pool |
| Rewards.MemberShare | crates/lemma-consensus/src/rewards.rs:262-290 | A member's share, absent exactly when the product or the share overflows |
| Rewards.PayMembers | crates/lemma-consensus/src/rewards.rs:262-312 | The loop pays every member, or stops at the first one whose arithmetic overflows |
| Rewards.DistributeRewards | crates/lemma-consensus/src/rewards.rs:242-330 | Succeeds exactly when the arithmetic fits and the shares are within the pool; then every member present is credited its share and the rest is burned; an overflow error names the first member in address order and leaves exactly those before it credited, and itself when only the running total overflowed |
| Rewards.CreditConserves | crates/lemma-consensus/src/rewards.rs:292-304 | Total active stake rises by exactly the shares of the members present in the map |
| Rewards.SharesWithinPool | crates/lemma-consensus/src/rewards.rs:314-330 | With a covering total the shares never exceed the pool, and the dust obeys T·d ≤ pool·(T−Σp) + n·(T−1) |
| Rewards.BurnedBelowOneDripEach | crates/lemma-consensus/src/rewards.rs:140-145 | Less than one Drip per member is burned when every power is a whole number of Drips |
| Rewards.SettleInflation | crates/lemma-consensus/src/epoch/transition.rs:94-105 | Minting and distributing conserves: distributed plus burned is the mint, stake rises by what is distributed, the underflow error never occurs |
| Fees.BaseFeeBand | crates/lemma-consensus/src/fee.rs:117-166 | For an even gas limit the next fee is within an eighth of the old one, or one above, up to the floor |
| Fees.BaseFeeBandOdd | crates/lemma-consensus/src/fee.rs:117-185 | For an odd limit the rise is at most b(t+1)/(8t) |
| Fees.OddLimitExceeds | crates/lemma-core/src/header.rs:240-247 | On every odd limit a full block leaves the band, for fees of at least the target that are 7 modulo 8 |
| Fees.BandIff | crates/lemma-consensus/src/fee.rs:117-166 | For a gas limit of at least 2 the band holds for every fullness and fee if and only if the limit is even |
| Fees.OddLimitExceedsEighth | crates/lemma-core/src/header.rs:240-247 | An instance: a rise of a quarter on the limit 3 |
| Fees.BaseFeeExact | crates/lemma-consensus/src/fee.rs:117-166 | The next fee to the Drop, above, at and below half the limit, with the floor |
| Fees.BaseFeeMonotone | crates/lemma-consensus/src/fee.rs:117-166 | A fuller parent never lowers the next fee |
| Fees.BaseFeeDirection | crates/lemma-core/src/header.rs:240-247 | Above the target the fee strictly rises; otherwise it does not rise above a floor-respecting fee |
| Fees.BaseFeeDefinedIff | crates/lemma-consensus/src/fee.rs:117-185 | The calculation succeeds exactly when the product fits and, above the target, the raised fee does, and reports the operands that overflowed; below four fifths of u128 the product alone decides |
| Fees.BalanceCheckExact | crates/lemma-mempool/src/validation.rs:261-291 | The balance check passes exactly when price times limit plus value is within the balance |
| Fees.DistributeFeeIff | crates/lemma-consensus/src/fee.rs:210-223 | The split succeeds exactly when the price covers the base fee and both products fit; the base fee times gas is burned and the rest of the price times gas is the tip |
| Fees.AdmissionImpliesPayable | crates/lemma-consensus/src/fee.rs:210-223 | After admission the split succeeds for every gas use, sums to price times gas, and fits with the value in the checked balance |
| Fees.BlockFeesConserved | crates/lemma-consensus/src/fee.rs:210-223 | Over a block, the base fee of all gas is burned, burned plus tips is the gas cost, and cost plus value is within the balances |
| Batches.TakeBatch | crates/lemma-node/src/batch.rs:316-321 | The inner loop appends the first occurrences of a batch |
| Batches.ResolveBlockPayload | crates/lemma-node/src/batch.rs:295-323 | One block's payload extends the deduplicated list and the missing list |
| Batches.ResolveCommittedTxs | crates/lemma-node/src/batch.rs:258-284 | The result is first-occurrence deduplication of the flattened payloads, with the unresolved references in order |
| Batches.DedupPicksFirsts | crates/lemma-node/src/batch.rs:316-321 | Deduplication keeps, in order, exactly the first position of every hash |
| Batches.EachHashOnce | crates/lemma-node/src/batch.rs:316-321 | Every hash occurs in the result exactly once |
| Batches.ResolutionDeterministic | crates/lemma-node/src/batch.rs:258-284 | Two nodes that agree on the referenced blocks and batches resolve identically |
| Batches.PayloadsInOrder | crates/lemma-node/src/batch.rs:258-284 | The references gone through are exactly those of the committed blocks that are present, block by block and in payload order |
| Batches.AvailableInOrder | crates/lemma-node/src/batch.rs:295-323 | The transactions gone through are exactly those of the batches that are present, reference by reference |
| Batches.MissingInOrder | crates/lemma-node/src/batch.rs:295-323 | The missing list is exactly the references without a batch, in order |
| Batches.NothingMissingIff | crates/lemma-node/src/batch.rs:295-323 | Nothing is missing exactly when every referenced batch is present |
| BlockExec.WorldState.ApplyOneWrite | crates/lemma-node/src/block_exec.rs:380-444 | Sets one field of one account, stores code once, skips mismatched pairs |
| BlockExec.WorldState.Collect | crates/lemma-node/src/block_exec.rs:274-307 | Phase 1 in any order of the writes sets exactly the written fields and slots and lists the slots by contract |
| BlockExec.WorldState.Rebuild | crates/lemma-node/src/block_exec.rs:309-363 | Phase 2 replaces exactly the changed contracts' tries, creating accounts where needed |
| BlockExec.RebuildTrie | crates/lemma-node/src/block_exec.rs:327-352 | Inserting the listed slots one by one overlays the trie, deletions as empty leaves |
| BlockExec.WorldState.ApplyWrites | crates/lemma-node/src/block_exec.rs:259-369 | The two phases equal the simple overlay of the write set, in whatever order the writes come; `WorldLaws` states the overlay field by field |
| WorldLaws.AccountExact | crates/lemma-node/src/block_exec.rs:380-444 | An address has an account afterwards exactly when it had one or is written; each field is the written one, else the old one, else zero |
| WorldLaws.NewAccount | crates/lemma-storage/src/account.rs:207-227 | An account made by the writes has zero for each field not written, no stake, and a trie of exactly the written slots |
| WorldLaws.SlotWritten | crates/lemma-node/src/block_exec.rs:282-352 | A written slot holds its value in trie and flat storage; a deleted one is an empty leaf and gone from flat storage |
| WorldLaws.SlotKept | crates/lemma-node/src/block_exec.rs:282-352 | A slot that is not written stays as it was in both |
| WorldLaws.CodeExact | crates/lemma-node/src/block_exec.rs:404-421 | Stored code is never replaced and new code was written under its hash |
| WorldLaws.CodeStored | crates/lemma-node/src/block_exec.rs:404-421 | Every written code is stored |
| WorldLaws.MoneyExact | crates/lemma-node/src/block_exec.rs:259-369 | The sum of all balances afterwards is the written balances plus the old balances of addresses without a balance write |
| BlockExec.UnwrittenKept | crates/lemma-node/src/block_exec.rs:259-369 | An address with no write keeps its account, or its absence |
| BlockExec.ContentAddressed | crates/lemma-node/src/block_exec.rs:404-421 | Code stays stored under its own hash and every written code hash resolves |
| BlockExec.AgreementKeptIff | crates/lemma-node/src/block_exec.rs:327-352 | Flat storage and tries, empty leaves read as absent, stay in agreement if and only if no write stores an empty value |
| Producer.ChainStore.PutBlock | crates/lemma-storage/src/chain.rs:150-176 | Both indexes are written; the tip moves only to the same or a greater height |
| Producer.HeightFindsLast | crates/lemma-storage/src/chain.rs:150-176 | After any sequence of blocks a height finds the last block stored there |
| Producer.HashFindsLast | crates/lemma-storage/src/chain.rs:150-176 | And a hash the last block stored under it |
| Producer.OnlyStoredIsFound | crates/lemma-storage/src/chain.rs:150-176 | And nothing else is found |
| Producer.TipIsHighest | crates/lemma-storage/src/chain.rs:150-176 | The tip is the last of the highest blocks stored; a lower one never moves it |
| Producer.BuildFailsIff | crates/lemma-node/src/producer.rs:110-173 | A build fails exactly without a tip, without its block, on a failing fee calculation or a zero gas limit |
| Producer.ChainStore.BuildNextBlock | crates/lemma-node/src/producer.rs:110-173 | The child header, or the error, computed from tip, parent and clock |
| Producer.ChainStore.Produce | crates/lemma-node/src/producer.rs:257-310 | The loop over clock readings, skipping failed builds |
| Producer.TickGrows | crates/lemma-node/src/producer.rs:110-186 | One tick appends one block with the next height, the parent's hash, the proposer, the inherited fields and zeros for the rest |
| Producer.RunGrows | crates/lemma-node/src/producer.rs:110-186 | For any clock every tick appends a linked block, timestamps rising except after the last u64; if the genesis fee does not fit, no tick ever appends |
| Producer.TimestampsIncreaseIff | crates/lemma-node/src/producer.rs:133-135 | Timestamps strictly increase along the run if and only if genesis and every reading leave room below the last u64 for the blocks after them |
| Producer.TimestampWraps | crates/lemma-node/src/producer.rs:133-135 | A reading of the last u64 makes the next timestamp fall |
| Producer.RunFees | crates/lemma-consensus/src/fee.rs:117-166 | From block 1 fees are at least the floor and never rise; they reach the floor and stay when the gas limit is at least 2, and stay at the clamped genesis fee when it is 1 |
| Reputation.FromCommits | crates/lemma-consensus/src/reputation.rs:90-99 | Each author's score is the number of places at which it appears in the commits, saturating, and only authors have one |
| Reputation.FromScores | crates/lemma-consensus/src/reputation.rs:183-228 | The loop builds the swap table of the ranking |
| Reputation.SwapTableShape | crates/lemma-consensus/src/reputation.rs:183-228 | The swapped-out members are exactly the k lowest, their targets exactly the k highest in reverse, for the largest k within the cap whose pairs all differ in score |
| Reputation.SwapIsSafe | crates/lemma-consensus/src/reputation.rs:238-240 | Swapping is idempotent, stays in the committee, strictly raises the score and is injective on swapped-out members |
| Reputation.IdentityIff | crates/lemma-consensus/src/reputation.rs:183-247 | The table is empty exactly when the capped count is zero or all scores are equal |
| Framing.FieldsRoundTrip | crates/lemma-core/src/header.rs:294-322 | A record of fixed-width big-endian fields is recovered, with what follows it |
| Framing.BigEndianDigit | crates/lemma-core/src/header.rs:294-322 | Byte i of a w-byte field is the digit of weight 256^(w-1-i) |
| Framing.LittleEndianDigit | crates/lemma-consensus/src/commit_ack.rs:123-129 | Byte i of a little-endian field is the digit of weight 256^i |
| Headers.HeaderRoundTrip | crates/lemma-core/src/header.rs:294-322 | Every header is recovered from its digest preimage |
| Headers.HeaderLayout | crates/lemma-core/src/header.rs:294-322 | The preimage field by field with its widths |
| Headers.DigestBindsHeader | crates/lemma-core/src/header.rs:258-322 | Without a collision, equal digests mean equal headers |
| Headers.Digest | crates/lemma-core/src/header.rs:294-322 | Streaming the fields feeds exactly the preimage |
| Preimages.CommitRoundTrip | crates/lemma-consensus/src/commit.rs:98-120 | Every commit is recovered from its digest preimage |
| Preimages.CommitLayout | crates/lemma-consensus/src/commit.rs:98-120 | The preimage field by field, and sixty bytes for each block at its place |
| Preimages.CommitDigest | crates/lemma-consensus/src/commit.rs:98-120 | Streaming the fields and the block loop feeds exactly the preimage |
| Preimages.AckRoundTrip | crates/lemma-consensus/src/commit_ack.rs:123-129 | Height and digest are recovered from a commit-ack preimage |
| Preimages.AckLayout | crates/lemma-consensus/src/commit_ack.rs:123-129 | Fifty bytes: the domain, the height from its lowest byte, the digest from its highest |
| SetPreimages.SetRoundTrip | crates/lemma-core/src/validator_set.rs:155-166 | With keys of any one size, 32 and 1952 bytes among them, the members are recovered from the set's preimage |
| SetPreimages.SetLayout | crates/lemma-core/src/validator_set.rs:155-166 | Each member in address order gives its address, the two halves of its key and its power |
| SetPreimages.SizesAlias | crates/lemma-core/src/validator_set.rs:155-166 | For any two different key sizes two different sets with such keys share a preimage |
| SetPreimages.PreimageBindsIff | crates/lemma-core/src/validator.rs:48-61 | The preimage determines every set with key sizes in S if and only if S has at most one element |
| SetPreimages.KeyHalvesAlias | crates/lemma-core/src/validator_set.rs:155-166 | An instance with one member and one byte of key |
| SetPreimages.SetHash | crates/lemma-core/src/validator_set.rs:155-166 | The member loop feeds exactly the preimage |

## Left out

- Flux.ParallelEqualsSequential: confinement is sufficient for one block; which single blocks with escaping reads are sequential anyway depends on whether their programs use what they read.
- FluxProgress.NoEndlessRun: bounds the steps of the workers, not the number of idle polls between them; a scheduler that never runs a worker with a task is not excluded.
- RewardBound.BurnedBelowOneDripIff: assumes that the pool that shows the lost power can be processed; for powers so large that it cannot, no exact condition is given.
- BlockExec.WorldState.ApplyWrites: assumes the hash tells apart the slots of a contract and the written codes; storage I/O errors are not modelled.
- Producer.ChainStore.PutBlock: the two index writes and the tip are one atomic step; concurrent writers are not modelled.
- Admission.GatesDecide: assumes that the clock has not gone back since the buckets were last refilled; what one bucket does then is `RateLimit.BackwardAddsNothing`.
- Batch parallel hints (`lemma-vm/src/parallel/hints.rs`), a scheduling optimisation that does not change results.
- The WASM virtual machine, its host functions and gas schedule: a transaction is an abstract program.
- Signing, key handling, Blake3 and Bech32m: parameters of the model.
- The signature, size and public-key checks of admission: injected results, as for any cryptography; the express-lane classification is an injected flag.
- RocksDB, the Merkle Patricia Trie and serialisation: maps instead.
- Exact `f64` rounding in the rate limiter.
- Pulse.DecisionsAgree: assumes that digests bind block contents and that honest validators make one block per round.
- DAG insertion with its suspension and epoch buffers (only the rules an accepted block satisfies are stated, as `Pulse.DagOk`), the linearizer, leader schedule rotation, slashing, unbonding and the other epoch-settlement steps.
- Networking, synchronisation, RPC, CLI, configuration and the async loops around these components.
- The contract language front end (`lemma-lang`).
