# Verified model of the Zangbeto core

This project models the parts of Zangbeto that other parts have to trust: the replicated memory, the
integrity roots and glyphs of the vault, vote collection, the two ledgers, the transition auditor and the
replay engine, and the three enforcement state machines. Objects whose methods change fields are classes,
loops are loops, and each method is proved against a function or a relation of the values; the theorems are
about those. Hash functions, JSON conversions, clock readings, fresh ids and the socket are parameters.
`dafny verify dfyconfig.toml` checks everything.

- `CrdtMemory` holds the register map, the OR-set, the counter, the vector clock and their product `Join`.
  The specification of the merge operator (lines 19-25, the memory component) asks for a join that is
  associative, commutative and idempotent. Associativity and idempotence hold for all states. Commutativity
  does not: two registers with the same timestamp and node but different values keep the left one, and the
  OR-set overwrites timestamps and keeps the first encryption reference. `OrderOfJoins` says which reference
  and which time survive a series of joins, `JoinCommutes` gives the exact condition and
  `JoinDoesNotCommute` a pair that fails. `StrongConvergence` says when replicas that joined the same states
  in any order, grouping and repetition agree: if and only if no key's best registers tie.
- `CrdtRuns` lets nodes write, add, remove, count and tick locally and exchange states over a network that
  loses, repeats and reorders. What a replica holds is explained by the set of events that reached it, which
  gives convergence, causality and the counter's bounds over whole runs. A register write is the join of a
  one-entry map. Registers converge when no two nodes write under one id, or when no key's best writes tie.
  `compare` reports `HappensBefore` for the clock that is ahead; the outcomes are kept as coded. Additions
  on `u64` wrap around, as in a release build.
- `CrdtLimits` says how far this convergence goes. Registers converge in all runs of a write policy exactly
  when it lets no two nodes write under one id; counts converge in all runs within a bound per node exactly
  when the bound is below 2^64. The diverging runs are constructed: two nodes that write under one id, and a
  count that reaches 2^64 one step after another node was told.
- `MerkleRoot` models the level loop with odd-leaf promotion and proves it equal to the recursive tree that
  splits at the largest power of two below n (the shape of section 2.1 of RFC 6962, without its prefix
  bytes). A root alone does not bind a vault: leaves and inner nodes are hashed alike, so for every vault of
  two or more entries there is a single entry with the same root, whatever the hash function
  (`OneEntryTwin`). It binds ids and blobs, up to a collision of two inputs that were really hashed, when
  the number of entries is compared too or when no blob is 64 bytes long (`RootBindsEntries`); by itself it
  binds the empty vault and a single entry whose blob is not 64 bytes long, but no single entry whose blob
  is and no larger vault that is free of collisions of its own (`RootAloneBinds`,
  `NodeSizedBlobIsMistaken`). The root ignores the order of the entries exactly when no two entries claim
  one id for different blobs. Ids are sorted as text but hashed as bytes: two writings of the same distinct
  ids and blobs have one root when the texts are in the same order, and different roots or a collision when
  they are not (`OrderOfTextsDecidesRoot`). Vaults written in a single letter case are in the same order;
  mixed case can turn leaves around.
- `GlyphFold` proves that the byte-wise fold is the 256-bit number modulo 63422 read as one of the
  displayable code points, that every point is attained, and that the envelope parser is the inverse of
  rendering.
- `BftConsensus` keeps `values().last()` of a hash map as "some slot", so a call has several possible
  outcomes. The documentation promises a certificate the first time a slot crosses the threshold and nothing
  otherwise; the code may answer with another slot's certificate, and answers again on later votes
  (`CertificateRepeats`). `PromiseKeptIff` says exactly when a call keeps the promise. In every run the
  slots hold exactly the votes received. Agreement is unaffected, and `AgreementBound` gives its exact
  bound.
- `DiagnosticLedger` keeps the three indexes equal to scans of the table through every operation, and
  conserves bounties. A Move abort, arithmetic overflow included, leaves everything unchanged.
  `mark_disputed` takes a receipt by reference, which nothing outside the ledger holds, so ledger receipts
  are pending or fixed.
- `EventLedger` shows what the chain check sees (hash fields only), what it misses (recomputing the hashes),
  and that the tip of an append-built ledger commits to the whole history, and a commit receipt to the entry
  hashes before it. That the JSON texts are faithful is a hypothesis; the genesis hash may be any text.
- `Transition` models the all-or-nothing diff, the auditor and the first-divergence search, and connects
  them: an audited history replays through its own states, and a replayed history is audited. Operations
  other than `Add` and `Increment` have no effect; increments leave at each pointer to an integer the old
  value plus their sum, modulo 2^64, provided writing an integer over an integer changes no other one. A
  state without a stored hash takes any diff, but the auditor refuses it unless the diff names no hash
  either.
- `Quarantine` proves that queue and states stay in one-to-one correspondence exactly in the runs in which
  no live id is quarantined again, and that in these a release happens exactly when each condition was met
  at some evaluation. Quarantining a live id again breaks this: the new conditions are not looked at and a
  later evaluation can meet the failing `unwrap`. A release also lifts the block of another live quarantine
  of the same state, and in these runs it is the only way a live quarantine loses its block
  (`LiveStayBlockedIff`). `min_duration_ms` is compared with a difference of clock readings in seconds,
  whatever its name says, and a clock that ran backwards wraps.
- `HeaderField` says which header lines declare a length: the field name in any letter case, white space, an
  optional plus sign, digits and white space. The first line with that name decides, wherever it stands; a
  value that is no such number declares zero.
- `Framing` proves that every cutting of the stream into reads delivers the whole declared body, and nothing
  but it, exactly when the stream holds the body and head and body take at most 64 KiB + 1 bytes
  (`BodyDeliveredIff`). A stream that ends early is routed all the same, with the part of the body there is
  (`IncompleteIsRouted`), where section 6.3 of RFC 9112 has an incomplete message. The body slice can panic
  exactly when the declared length overflows the sum with the header end behind a head of at most 64 KiB +
  4096 bytes (`PanicsIffLengthOverflows`); a request that declares 18446744073709551615 bytes does so under
  every cutting. `ReadWhole` is what comes out when the stream is looked at as a whole, these failures
  included; the outcome is that of `ReadWhole` for every cutting exactly while it takes at most 64 KiB + 1
  bytes of the stream, and it is independent of the cutting exactly then or when the head alone is longer
  than 64 KiB + 4096 bytes and is always refused. A rendered request is read back (sections 6.2 and 6.3 of
  RFC 9112).
- `Relay` models the client of NIP-01 and NIP-42 over every frame sequence and every write failure. The
  parser inverts the rendering of each message, and what serves, ends, stops and decides a conversation is
  stated over raw frames. The OK that completes an authentication may name any event id, as the code does
  not compare it: `OtherAcceptanceAuthenticates` is a conversation in which no OK is about the event sent.

`Wrappers`, `Machine`, `Text`, `Hashing` and `Maps` hold the shared vocabulary.

## Model

| member | source | states |
|---|---|---|
| CrdtMemory.RegisterSelects | crates/crdt-memory/src/lib.rs:31-42 | a register merge returns one of its arguments, which outranks both in a reflexive, transitive order |
| CrdtMemory.RegisterAssociative | crates/crdt-memory/src/lib.rs:31-42 | merging registers is associative, ties included |
| CrdtMemory.RegisterCommutes | crates/crdt-memory/src/lib.rs:31-42 | two registers merge alike in both orders if and only if they do not tie in timestamp and node with different values |
| CrdtMemory.LwwRegisterMap.Join | crates/crdt-memory/src/lib.rs:272-281 | the map becomes the key-by-key combination of both maps |
| Maps.FoldInto | crates/crdt-memory/src/lib.rs:118-124 | folding the entries of one map into another one by one, in any order, is the key-by-key combination |
| CrdtMemory.OrSet.Add | crates/crdt-memory/src/lib.rs:58-68 | the given time is stored for the node and nothing else changes; the element becomes a member unless this node removed it before |
| CrdtMemory.OrSet.Remove | crates/crdt-memory/src/lib.rs:70-74 | the new state, and that only this node's own add is cancelled; an unknown element changes nothing |
| CrdtMemory.OrSet.Has | crates/crdt-memory/src/lib.rs:76-83 | membership: some node added the element and did not itself remove it |
| CrdtMemory.OrSet.Merge | crates/crdt-memory/src/lib.rs:86-100 | the elements become the combination of both sides, with overwritten timestamps and the first encryption reference |
| CrdtMemory.MergeIsUnion | crates/crdt-memory/src/lib.rs:86-100 | who added and who removed an element is the union over both sides |
| CrdtMemory.MergedMembership | crates/crdt-memory/src/lib.rs:76-100 | an element is in the merged set if and only if some node's add is known to either side and its removal to neither |
| CrdtMemory.GCounter.Increment | crates/crdt-memory/src/lib.rs:110-112 | the new counts, and that the total grows by exactly the increment unless the node's count wraps |
| CrdtMemory.GCounter.Value | crates/crdt-memory/src/lib.rs:114-116 | the sum of all counts modulo 2^64 |
| CrdtMemory.GCounter.Merge | crates/crdt-memory/src/lib.rs:118-124 | the counts become the least upper bound of both counters |
| CrdtMemory.MergeIsLeastUpperBound | crates/crdt-memory/src/lib.rs:179-188 | taking the larger entry per node is above both arguments and below every other upper bound |
| CrdtMemory.VectorClock.Tick | crates/crdt-memory/src/lib.rs:134-136 | only the own entry changes, and the clock moves ahead of its old value if and only if the entry does not wrap |
| CrdtMemory.VectorClock.Merge | crates/crdt-memory/src/lib.rs:138-144 | the clock becomes the least upper bound of both clocks |
| CrdtMemory.VectorClock.Compare | crates/crdt-memory/src/lib.rs:146-168 | the four outcomes are the four relations of the pointwise order, as coded |
| CrdtMemory.JoinAssociative | crates/crdt-memory/src/lib.rs:212-222 | joining whole memories is associative |
| CrdtMemory.JoinIdempotent | crates/crdt-memory/src/lib.rs:212-222 | joining a memory with itself changes nothing |
| CrdtMemory.JoinCommutes | crates/crdt-memory/src/lib.rs:212-222 | join commutes if and only if no register ties and no shared element has two timestamps of one node or two encryption references |
| CrdtMemory.JoinDoesNotCommute | crates/crdt-memory/src/lib.rs:31-42 | commutativity fails: a concrete pair of memories whose two joins differ in a register value and an OR-set timestamp |
| CrdtMemory.EvalIsJoinOfLeaves | crates/crdt-memory/src/lib.rs:179-188 | any tree of joins yields a memory characterised by the set of its leaves alone |
| CrdtMemory.StrongConvergence | crates/crdt-memory/src/lib.rs:211-222 | all ways of joining the same set of states show the same hive, counter, clock and members if and only if no key's best registers tie |
| CrdtMemory.OrderOfJoins | crates/crdt-memory/src/lib.rs:86-100 | over any tree of joins, an element ends with its leftmost encryption reference and, for each node, its rightmost time of adding and of removal |
| CrdtRuns.RunInv | crates/crdt-memory/src/lib.rs:31-100 | at every reachable system, each replica and message holds the register writes and the adds and removals of the events it has seen |
| CrdtRuns.RunInvCounts | crates/crdt-memory/src/lib.rs:109-144 | at every reachable system, each count of each replica and message is the total of that node's events it has seen, while no node's total wraps |
| CrdtRuns.EventualConvergence | crates/crdt-memory/src/lib.rs:211-222 | two states met in a run that the same events reached agree: registers if no two nodes write under one id or no best writes tie, counts if none wraps, membership always |
| CrdtRuns.RunFirstWrites | crates/crdt-memory/src/lib.rs:31-42 | in every run, each register held is some node's first write of that key, timestamp and node id |
| CrdtRuns.RunTimes | crates/crdt-memory/src/lib.rs:58-100 | in every run, each time stored with an element is that of an add or removal the replica has seen, and no encryption reference appears |
| CrdtLimits.ForeignWritesDiverge | crates/crdt-memory/src/lib.rs:31-42 | for any two nodes, one id and two values, a run that ends with the same events seen and different registers |
| CrdtLimits.RegistersConvergeIff | crates/crdt-memory/src/lib.rs:31-42 | in all runs of a write policy, states with the same events have the same registers if and only if the policy lets no two nodes write under one id |
| CrdtLimits.WrappedCountsDiverge | crates/crdt-memory/src/lib.rs:109-144 | for counter and clock, a run with one total of exactly 2^64 that ends with the same events seen and different counts |
| CrdtLimits.CountsConvergeIff | crates/crdt-memory/src/lib.rs:109-144 | in all runs with node totals within a bound, states with the same events have the same counts if and only if the bound is below 2^64 |
| CrdtRuns.CompareIsCausality | crates/crdt-memory/src/lib.rs:133-168 | `compare` decides whether the causal pasts of two states are equal, strictly larger, strictly smaller or incomparable |
| CrdtRuns.TickAdvancesUntilWrap | crates/crdt-memory/src/lib.rs:134-136 | in a run, a tick moves the replica's clock ahead if and only if its count of ticks still fits |
| CrdtRuns.ClockNeverGoesBack | crates/crdt-memory/src/lib.rs:133-144 | no step of a run lowers an entry of a replica's clock while counts fit |
| CrdtRuns.CounterNeverExceedsTotal | crates/crdt-memory/src/lib.rs:109-124 | no replica's value exceeds the true total of all increments, wrapped or not |
| CrdtRuns.CounterReachesTotal | crates/crdt-memory/src/lib.rs:109-124 | a replica that merged every node's latest state shows the true total if and only if it is below 2^64 |
| CrdtRuns.CounterNeverDecreases | crates/crdt-memory/src/lib.rs:109-124 | no step of a run lowers a replica's value while the total fits |
| CrdtRuns.IncrementRaisesValueIffItFits | crates/crdt-memory/src/lib.rs:110-116 | an increment does not lower an unwrapped value if and only if the sum fits |
| MerkleRoot.PairUp | crates/crypto-kernel/src/glyph_audit.rs:157-168 | one pass over a level hashes neighbours and promotes an odd last leaf |
| MerkleRoot.RootOfLevels | crates/crypto-kernel/src/glyph_audit.rs:156-170 | the level loop terminates with the root of the recursive tree |
| MerkleRoot.SplitPointIsPower | crates/crypto-kernel/src/glyph_audit.rs:156-170 | the split point of the recursive tree is a power of two |
| MerkleRoot.LevelsAreTree | crates/crypto-kernel/src/glyph_audit.rs:156-170 | for every leaf count, level-by-level hashing equals the tree that splits at the largest power of two below n |
| MerkleRoot.SortFacts | crates/crypto-kernel/src/glyph_audit.rs:140-141 | the sort by id is sorted, a permutation, and stable |
| MerkleRoot.MerkleRoot | crates/crypto-kernel/src/glyph_audit.rs:139-171 | the computed root is the tree root of the sorted leaves, the digest of "GIX1:empty" for no entries, an error for a malformed id |
| MerkleRoot.AuditMerkleRoot | crates/crypto-kernel/src/glyph_audit.rs:125-137 | the audit succeeds if and only if the root is the expected one, with each error case stated |
| MerkleRoot.RootBinds | crates/crypto-kernel/src/glyph_audit.rs:139-171 | sorted entries with one tree root are the same entries, or hashed inputs collide, when their number is the same, or a side that could be mistaken has no 64-byte blob |
| MerkleRoot.RootBindsEntries | crates/crypto-kernel/src/glyph_audit.rs:139-171 | two vaults with the same root hold the same ids and blobs, or two inputs hashed on the way collide, when sizes are compared, no blob is 64 bytes long, or one side is at most one entry without such a blob |
| MerkleRoot.OneEntryTwin | crates/crypto-kernel/src/glyph_audit.rs:139-171 | for every hash function and every vault of two or more entries, a single entry with a 64-byte blob has the same root, and nothing is hashed for it that is not hashed for the vault |
| MerkleRoot.TwoEntryTwin | crates/crypto-kernel/src/glyph_audit.rs:143-168 | the explicit single entry that has the root of two given entries |
| MerkleRoot.SingleEntry | crates/crypto-kernel/src/glyph_audit.rs:143-155 | the root of one entry is the hash of its id bytes and the hash of its blob |
| MerkleRoot.SmallestRoots | crates/crypto-kernel/src/glyph_audit.rs:139-171 | the root of nothing is the hash of GIX1:empty, and that of two entries is spelled out in hashes and concatenations |
| MerkleRoot.RootAloneBinds | crates/crypto-kernel/src/glyph_audit.rs:139-171 | the root alone binds a vault of at most one entry without a 64-byte blob; a larger vault without collisions of its own is mistaken for another one |
| MerkleRoot.NodeSizedBlobIsMistaken | crates/crypto-kernel/src/glyph_audit.rs:139-171 | for a single entry with a 64-byte blob, a hash function and a second vault with the same root and no collision |
| MerkleRoot.LoopHashesTheTree | crates/crypto-kernel/src/glyph_audit.rs:156-170 | the pairs hashed by the level loop are exactly those of the recursive tree |
| MerkleRoot.ClashSwapShows | crates/crypto-kernel/src/glyph_audit.rs:140-141 | swapping two entries that claim one id for different blobs changes the root, or inputs collide |
| MerkleRoot.RootIgnoresOrder | crates/crypto-kernel/src/glyph_audit.rs:139-171 | the root is the same for every permutation when no two entries clash, and otherwise some permutation changes it, up to a collision |
| MerkleRoot.RootOfSortedContents | crates/crypto-kernel/src/glyph_audit.rs:140-171 | vaults whose sorted contents agree have the same root, whatever the letter case |
| MerkleRoot.OrderOfTextsDecidesRoot | crates/crypto-kernel/src/glyph_audit.rs:140-171 | for distinct ids, two writings of the same contents have the same root if their texts are in the same order, and else different roots or a collision |
| MerkleRoot.SingleCaseRootOfContents | crates/crypto-kernel/src/glyph_audit.rs:140-152 | two vaults of the same ids and blobs, each written in a single letter case, have the same root |
| MerkleRoot.LetterCaseMatters | crates/crypto-kernel/src/glyph_audit.rs:140-152 | writing one of two ids in capitals turns the leaves around and changes the root of the same contents, or inputs collide |
| GlyphFold.ShiftIn | crates/crypto-kernel/src/glyph_audit.rs:181-186 | on a reduced remainder, shift and bitwise or are multiplying by 256 and adding, below 2^64; the fold loop runs on it |
| GlyphFold.GlyphFold | crates/crypto-kernel/src/glyph_audit.rs:181-195 | the loops compute the big-endian number modulo 63422 as a displayable point, without overflow and without reaching `unreachable!` |
| GlyphFold.SameGlyph | crates/crypto-kernel/src/glyph_audit.rs:175-195 | two digests show the same glyph if and only if they agree modulo 63422 |
| GlyphFold.PointAtIncreases | crates/crypto-kernel/src/glyph_audit.rs:175-195 | the displayable points are indexed in increasing order |
| GlyphFold.BigEndianOrder | crates/crypto-kernel/src/glyph_audit.rs:181-186 | the folded number orders digests by their first differing byte and stays below 256 to the length |
| GlyphFold.EveryPointAttained | crates/crypto-kernel/src/glyph_audit.rs:175-195 | every point of the three ranges is the glyph of some digest |
| GlyphFold.AuditGlyphName | crates/crypto-kernel/src/glyph_audit.rs:198-207 | the name is accepted if and only if the id is 32 bytes of hex that fold to the glyph; the id error is exact |
| GlyphFold.ParseIffRendered | crates/crypto-kernel/src/glyph_audit.rs:63-84 | the parser returns an envelope if and only if it is well formed and the bytes are its rendering |
| GlyphFold.ParserErrors | crates/crypto-kernel/src/glyph_audit.rs:63-84 | which error a short blob, a wrong magic, a wrong version and unknown flags give |
| BftConsensus.KeyInjective | crates/consensus-bft/src/lib.rs:52-60 | the text key of a slot never confuses two pairs of round and hash |
| BftConsensus.BftNode.ReceiveVote | crates/consensus-bft/src/lib.rs:52-82 | a duplicate changes nothing, another vote is stored in its slot, and the answer is that of some slot; slots stay valid |
| BftConsensus.OwnCertificateIffOnlySlot | crates/consensus-bft/src/lib.rs:52-81 | every outcome of a call that leaves its slot with a quorum answers for that slot if and only if no other slot exists |
| BftConsensus.PromiseKeptIff | crates/consensus-bft/src/lib.rs:47-81 | every outcome of a call is a certificate on first crossing and nothing otherwise, if and only if the vote is a duplicate, or crosses as the only slot, or does not cross and no slot holds a quorum |
| BftConsensus.CertificateRepeats | crates/consensus-bft/src/lib.rs:47-81 | a run of four nodes in which the third and again the fourth vote return a certificate |
| BftConsensus.RunInvariant | crates/consensus-bft/src/lib.rs:52-82 | in every run, each slot holds votes of its own key, one per node, all of them received |
| BftConsensus.SlotsHoldExactly | crates/consensus-bft/src/lib.rs:52-64 | in every run, a vote is in its slot if and only if it was received, whatever else its node voted for |
| BftConsensus.SlotCountsVoters | crates/consensus-bft/src/lib.rs:52-64 | in every run, the size of a slot is the number of nodes that voted for its block in its round |
| BftConsensus.CertificateSound | crates/consensus-bft/src/lib.rs:25-27 | every returned certificate has distinct voters, one round, one hash, received votes and more than two thirds |
| BftConsensus.TwoQuorumsOverlap | crates/consensus-bft/src/lib.rs:25-27 | two quorums of n nodes share at least 2(floor(2n/3) + 1) - n nodes |
| BftConsensus.FewFaultyAgree | crates/consensus-bft/src/lib.rs:52-82 | conflicting certificates in one round need that many equivocating nodes |
| BftConsensus.ManyFaultyDisagree | crates/consensus-bft/src/lib.rs:52-82 | with that many equivocating nodes, two runs with conflicting certificates exist |
| BftConsensus.SlotFills | crates/consensus-bft/src/lib.rs:52-82 | a node sent votes for one block, one of each voter, returns exactly the votes so far as a certificate from the first quorum on |
| BftConsensus.AgreementBound | crates/consensus-bft/src/lib.rs:25-82 | conflicting certificates are impossible in all runs of all nodes if and only if fewer nodes equivocate than two quorums share |
| BftConsensus.AgreementUpToOneThird | crates/consensus-bft/src/lib.rs:25-82 | agreement holds while at most a third of the nodes equivocate |
| DiagnosticLedger.FirstMarkDecides | shrine/sources/zbt_diagnostics.move:157-175 | the first call settles a pending receipt for good, with the fix time recorded; every later call is refused |
| DiagnosticLedger.LaterMarksDecide | shrine/sources/zbt_diagnostics.move:157-175 | a verified receipt is settled by its first fix, and a settled one by nothing |
| DiagnosticLedger.SchemaMeans | shrine/sources/zbt_diagnostics.move:72-86 | the schema in plain terms: code prefix and length, severities, category number, hash and agent id lengths |
| DiagnosticLedger.CategoryDigits | shrine/sources/zbt_diagnostics.move:88-90 | a receipt has a category if and only if that binary digit of its category number is set |
| DiagnosticLedger.ScanFindsAll | shrine/sources/zbt_core.move:144-151 | a scan lists every matching id, no other, each once |
| DiagnosticLedger.ScanKeepsOrder | shrine/sources/zbt_core.move:144-151 | a scan lists ids in the order of submission |
| DiagnosticLedger.SubmitAgents | shrine/sources/zbt_core.move:98-103 | pushing the new id keeps the agent index equal to scans of the table |
| DiagnosticLedger.IndexCategories | shrine/sources/zbt_core.move:105-116 | the loop over the bits visits exactly the six flags and pushes the id under those the category has |
| DiagnosticLedger.FlaggedLists | shrine/sources/zbt_core.move:105-116 | exactly the lists of the category's flags gain the id; no other list or key changes |
| DiagnosticLedger.SubmitCategories | shrine/sources/zbt_core.move:105-116 | after that loop the category index equals scans of the extended table and has no key but the six flags |
| DiagnosticLedger.SubmitRounds | shrine/sources/zbt_core.move:118-126 | pushing the id under its round, if any, keeps the round index equal to scans of the table |
| DiagnosticLedger.StatusIndexed | shrine/sources/zbt_core.move:177-187 | a change of a receipt's status leaves all three indexes in agreement |
| DiagnosticLedger.Ledger.Insert | shrine/sources/zbt_core.move:95-138 | a new receipt is in the table and in its indexes, and every invariant is kept |
| DiagnosticLedger.Ledger.SubmitDiagnostic | shrine/sources/zbt_core.move:69-139 | which submissions succeed, with which abort the others fail, and the exact new ledger; an abort changes nothing |
| DiagnosticLedger.Ledger.Fix | shrine/sources/zbt_core.move:185-187 | the receipt becomes fixed now, the indexes stay in agreement |
| DiagnosticLedger.Ledger.QueryByAgent | shrine/sources/zbt_core.move:144-151 | the answer is the scan of the table: all and only the agent's receipts, once each, in submission order |
| DiagnosticLedger.ReputationLedger.RegisterAgent | shrine/sources/zbt_core.move:156-175 | a new agent starts with an empty entry, a known one is untouched, the books stay balanced |
| DiagnosticLedger.ReputationLedger.Reward | shrine/sources/zbt_core.move:189-194 | the fixer's entry gains the bounty unless an addition overflows, and every balance stays its agent's share of the payments |
| DiagnosticLedger.SharesAddUp | shrine/sources/zbt_core.move:189-194 | the shares of all agents add up to all payments |
| DiagnosticLedger.BountyConservation | shrine/sources/zbt_core.move:156-198 | in every valid ledger the balances add up to the bounties of the successful reward calls with a registered fixer |
| DiagnosticLedger.MarkFixedAndReward | shrine/sources/zbt_core.move:177-198 | each abort with its exact cause, the exact new ledgers, nothing changed by an abort, and no receipt rewarded twice |
| EventLedger.EventLedger.Append | crates/omo-kernel/src/zangbeto/ledger.rs:51-87 | an event is accepted if and only if its state hash is tagged; entry, receipt and tip are spelled out, and the ledger stays the chain built from the accepted events |
| EventLedger.JoinSplits | crates/omo-kernel/src/zangbeto/ledger.rs:114-120 | the text hashed for a receipt joins the entry hashes with commas |
| EventLedger.JoinInjective | crates/omo-kernel/src/zangbeto/ledger.rs:114-120 | entry hashes of the usual length with one joined text are the same hashes in the same order |
| EventLedger.ReceiptCommits | crates/omo-kernel/src/zangbeto/ledger.rs:64-77 | two receipts with one Merkle root were issued after the same entry hashes in order, or the joined texts collide |
| EventLedger.EventLedger.VerifyChain | crates/omo-kernel/src/zangbeto/ledger.rs:99-112 | the check succeeds if and only if each entry names its predecessor's hash and the tip is the last hash |
| EventLedger.EveryPrefixIsLinked | crates/omo-kernel/src/zangbeto/ledger.rs:99-112 | every append-built ledger and every prefix with the tip it had passes the check |
| EventLedger.ChainCheckIgnoresContents | crates/omo-kernel/src/zangbeto/ledger.rs:99-112 | the check gives one answer for all ledgers with the same hash fields, whatever their contents |
| EventLedger.LinkedAndRecomputedIffBuilt | crates/omo-kernel/src/zangbeto/ledger.rs:51-112 | linked and recomputable entries are exactly those with the hashes and the tip that appending produces |
| EventLedger.EntryDataInjective | crates/omo-kernel/src/zangbeto/ledger.rs:51-87 | the hashed text determines previous hash, event and drift report, unless one previous hash continues the other with a brace |
| EventLedger.TipCommitsToHistory | crates/omo-kernel/src/zangbeto/ledger.rs:51-87 | same genesis and same tip mean the same events and reports in order, unless hashed inputs collide or an entry hashes to the genesis or to its part before a brace |
| Transition.CanonicalSystemState.ValidateHash | crates/omo-kernel/src/kernel/css.rs:77-79 | whether the stored hash is the digest of the content |
| Transition.CanonicalSystemState.ApplyDiff | crates/omo-kernel/src/kernel/diff.rs:37-71 | the state becomes the applied one with a new version and digest, or an error leaves it, cache included, as it was |
| Transition.DiffIsItsEffectiveOps | crates/omo-kernel/src/kernel/diff.rs:37-71 | a diff does exactly what its additions and increments alone would do |
| Transition.IncrementsAddUp | crates/omo-kernel/src/kernel/diff.rs:53-58 | operations without an addition never fail and leave at each pointer to an integer the old value plus the sum of its increments modulo 2^64 |
| Transition.AppliedIncrements | crates/omo-kernel/src/kernel/diff.rs:37-71 | the state of an applied diff without additions is read back from such a document, with the next version and a fresh digest |
| Transition.IncrementNeedsInteger | crates/omo-kernel/src/kernel/diff.rs:53-58 | an increment at a pointer without an integer leaves the outcome of the diff as it is |
| Transition.AdditionComesFirst | crates/omo-kernel/src/kernel/diff.rs:46-52 | a diff that begins with an addition is the patch of that addition and then the rest |
| Transition.RefusedIff | crates/omo-kernel/src/kernel/diff.rs:38-40 | a hash mismatch is reported if and only if the state has a hash and it is not the named one; any other failure is an invalid diff |
| Transition.ZangbetoAuditor.VerifyTransition | crates/omo-kernel/src/audit/zangbeto.rs:24-55 | the verdict, and the snapshot appended to the history; neither audited state changes |
| Transition.AuditorAcceptsExactlyHonest | crates/omo-kernel/src/audit/zangbeto.rs:24-55 | honest transitions are accepted, and accepted ones are honest unless the claimed state collides with the applied one |
| Transition.UnhashedStateRefused | crates/omo-kernel/src/audit/zangbeto.rs:24-55 | a before-state without a hash is accepted if and only if the diff names no hash either |
| Transition.RealityReplayEngine.RecordEvent | crates/omo-kernel/src/zangbeto/replay.rs:20-26 | the event is added at the end of the log |
| Transition.RealityReplayEngine.FindFirstDivergence | crates/omo-kernel/src/zangbeto/replay.rs:29-69 | none if and only if all replayed hashes up to the shorter length agree, otherwise the least index that disagrees with all it reports |
| Transition.AuditedHistoryReplays | crates/omo-kernel/src/audit/zangbeto.rs:24-55 | replaying a history of audited steps goes through each of its states, or an accepted state collides |
| Transition.AuditedHistoryNeverDiverges | crates/omo-kernel/src/zangbeto/replay.rs:29-69 | the divergence search over an audited history with its own hashes finds nothing, or an accepted state collides |
| Transition.ReplayedHistoryIsAudited | crates/omo-kernel/src/audit/zangbeto.rs:24-55 | each step of a replayed history is accepted when its diff names the right hash and all reports passed |
| Quarantine.QuarantineManager.QuarantineState | crates/zangbeto-enforcement/src/quarantine.rs:80-132 | the new state, candidate and blocked merge, and nothing else changed |
| Quarantine.QuarantineManager.EvaluateRelease | crates/zangbeto-enforcement/src/quarantine.rs:168-229 | the exact new manager and the answer; a pending answer names a condition that is still open |
| Quarantine.QuarantineManager.RecordOrishaApproval | crates/zangbeto-enforcement/src/quarantine.rs:231-244 | the approval is added to the first candidate of the id, and the answer says whether there is one |
| Quarantine.StepKeeps | crates/zangbeto-enforcement/src/quarantine.rs:80-288 | every operation keeps candidates and states one-to-one, conditions partitioned and blocked hashes live |
| Quarantine.RunKeeps | crates/zangbeto-enforcement/src/quarantine.rs:80-288 | over every run that re-quarantines no live id this holds and no evaluation panics |
| Quarantine.RequarantiningBreaks | crates/zangbeto-enforcement/src/quarantine.rs:80-132 | quarantining a live id leaves two candidates for one state |
| Quarantine.OneToOneIffFresh | crates/zangbeto-enforcement/src/quarantine.rs:80-288 | the one-to-one correspondence holds throughout a run if and only if no live id is quarantined again |
| Quarantine.AllReleasedIsClean | crates/zangbeto-enforcement/src/quarantine.rs:205-219 | once no quarantine is live, the queue and the block list are empty |
| Quarantine.PanicIffQueuedWithoutState | crates/zangbeto-enforcement/src/quarantine.rs:168-180 | an evaluation panics if and only if its id is queued without a state |
| Quarantine.RequarantiningPanics | crates/zangbeto-enforcement/src/quarantine.rs:80-132 | quarantining one id twice and evaluating it twice panics |
| Quarantine.NewConditionsIgnoredIffQueued | crates/zangbeto-enforcement/src/quarantine.rs:80-132 | the next evaluation ignores the conditions of a new quarantine if and only if its id is already queued |
| Quarantine.ReleaseUnblocksSharedHash | crates/zangbeto-enforcement/src/quarantine.rs:274-288 | after a release all live quarantines stay blocked if and only if none shares the released state's hash |
| Quarantine.LiveStayBlockedIff | crates/zangbeto-enforcement/src/quarantine.rs:205-288 | throughout a run without re-quarantining every live quarantine stays blocked if and only if no release happens while another live one shares the hash |
| Quarantine.RunJustified | crates/zangbeto-enforcement/src/quarantine.rs:168-244 | in every such run a condition counts as satisfied if and only if some evaluation since the quarantine found it met, and approvals are those recorded since |
| Quarantine.ReleasedIffEachConditionMet | crates/zangbeto-enforcement/src/quarantine.rs:168-229 | an evaluation releases a live quarantine if and only if each condition was met at this or an earlier evaluation since it was made |
| Quarantine.AnswerInRuns | crates/zangbeto-enforcement/src/quarantine.rs:168-229 | the full answer of an evaluation in a run from the calls alone: released with hash and age, numbers met and open, or no progress |
| Quarantine.OthersAreNotFound | crates/zangbeto-enforcement/src/quarantine.rs:168-174 | an id without a live quarantine is not found and nothing changes |
| Quarantine.MonotoneClockMeasures | crates/zangbeto-enforcement/src/quarantine.rs:180-200 | under a clock that never runs backwards the time condition is met if and only if that much time passed |
| Quarantine.BackwardClockElapses | crates/zangbeto-enforcement/src/quarantine.rs:180-200 | exactly which durations a reading before the creation time counts as elapsed |
| Quarantine.ManualOverrideNeverReleased | crates/zangbeto-enforcement/src/quarantine.rs:168-229 | a quarantine with a manual-override condition is never released by an evaluation |
| Framing.FoundIsFirst | crates/zangbeto-enforcement/src/server.rs:528-530 | the search returns the first occurrence, and none exactly when there is none |
| Framing.HandleConn | crates/zangbeto-enforcement/src/server.rs:559-596 | the outcome of both read loops, with the buffer never above 64 KiB + 4096 bytes |
| Framing.SmallRequestReadWhole | crates/zangbeto-enforcement/src/server.rs:559-592 | where the whole-stream reading takes at most 64 KiB + 1 bytes, every cutting has its outcome: head and body, a truncated body, a panic, a refusal or a close |
| Framing.LargeRequestIsCut | crates/zangbeto-enforcement/src/server.rs:559-592 | beyond that, some cutting has another outcome than the whole-stream reading |
| Framing.ServedAsReadWholeIffSmall | crates/zangbeto-enforcement/src/server.rs:559-592 | every cutting has the outcome of the whole-stream reading, truncation and panic included, if and only if that takes at most 64 KiB + 1 bytes |
| Framing.BodyDeliveredIff | crates/zangbeto-enforcement/src/server.rs:559-592 | every cutting routes the head and exactly the declared body if and only if the stream holds it and both take at most 64 KiB + 1 bytes |
| Framing.IncompleteIsRouted | crates/zangbeto-enforcement/src/server.rs:584-592 | a stream that ends before the declared body does is routed with what there is |
| Framing.PanicsIffLengthOverflows | crates/zangbeto-enforcement/src/server.rs:582-592 | some cutting makes the body slice panic if and only if header end plus declared length reach 2^64 behind a head of at most 64 KiB + 4096 bytes |
| Framing.LargestLengthPanics | crates/zangbeto-enforcement/src/server.rs:532-592 | a rendered request that declares the largest length that parses panics under every cutting |
| Framing.EndlessHeadIsTooLarge | crates/zangbeto-enforcement/src/server.rs:559-581 | a head that ends past 64 KiB + 4096 bytes is refused as too large however it is cut |
| Framing.FramingIndependentOfReads | crates/zangbeto-enforcement/src/server.rs:559-592 | all cuttings of a stream lead to one outcome if and only if head and body take at most 64 KiB + 1 bytes or the head ends past 64 KiB + 4096 |
| Framing.RenderedLines | crates/zangbeto-enforcement/src/server.rs:532-541 | splitting a rendered head into lines gives the lines back |
| HeaderField.LengthFieldDeclares | crates/zangbeto-enforcement/src/server.rs:532-541 | a rendered Content-Length line declares its number |
| HeaderField.DeclaredIff | crates/zangbeto-enforcement/src/server.rs:532-541 | a line declares a positive length if and only if it is the field in any letter case with white space, an optional plus sign and the digits; it declares none if and only if it is not the field |
| HeaderField.LengthOfLines | crates/zangbeto-enforcement/src/server.rs:532-541 | the first line that is the field decides the length, wherever it stands, and no such line means zero |
| HeaderField.UsualFieldDeclares | crates/zangbeto-enforcement/src/server.rs:532-541 | a Content-Length line in the usual writing decides when no earlier line is the field |
| HeaderField.BareLineSplits | crates/zangbeto-enforcement/src/server.rs:532-541 | a line may end without a carriage return, and the last one without any end |
| Framing.NoBlankLine | crates/zangbeto-enforcement/src/server.rs:564-576 | without a blank line the connection is refused beyond 64 KiB and dropped in silence otherwise |
| Framing.HeadEndsAtBlankLine | crates/zangbeto-enforcement/src/server.rs:564-576 | the head ends with the first blank line |
| Framing.RequestRoundTrip | crates/zangbeto-enforcement/src/server.rs:528-592 | a rendered request whose header lines declare the length of its body is routed with exactly its head and body, however it is cut and whatever follows |
| Relay.AcceptanceIsExplicit | crates/zangbeto-enforcement/src/nostr_relay.rs:99-132 | a frame is an accepting OK for an id if and only if its verb is OK, the id matches and the third item is the boolean true |
| Relay.ParserInvertsRendering | crates/zangbeto-enforcement/src/nostr_relay.rs:99-132 | each message is read back from its NIP-01 or NIP-42 frame |
| Relay.OtherVerbsAreUnhandled | crates/zangbeto-enforcement/src/nostr_relay.rs:99-132 | a frame is malformed if and only if it is no JSON array, and unhandled if and only if its first item is none of the six verbs |
| Relay.RelayClient.ReadMessage | crates/zangbeto-enforcement/src/nostr_relay.rs:315-328 | the next text frame parsed, other frames skipped, the end of the conversation as a transport error |
| Relay.RelayClient.Publish | crates/zangbeto-enforcement/src/nostr_relay.rs:237-268 | unless the write fails, answer and position are those the delivered frames determine |
| Relay.PublishedIffAccepted | crates/zangbeto-enforcement/src/nostr_relay.rs:237-268 | publishing succeeds if and only if an accepting OK for the event comes before any refusal, CLOSED or broken frame |
| Relay.PublishingAnswers | crates/zangbeto-enforcement/src/nostr_relay.rs:246-267 | the answer of a publication at the first deciding frame: the text, the refusal or the failure |
| Relay.DecidesRaw | crates/zangbeto-enforcement/src/nostr_relay.rs:246-267 | which raw frames decide a publication |
| Relay.RelayClient.HasEvent | crates/zangbeto-enforcement/src/nostr_relay.rs:281-306 | unless the write fails, answer and position are those the delivered frames determine |
| Relay.LookedUpIffServed | crates/zangbeto-enforcement/src/nostr_relay.rs:281-306 | the lookup says yes if and only if the event came before the end of the stored events, and no if and only if the end came without it |
| Relay.ServesRaw | crates/zangbeto-enforcement/src/nostr_relay.rs:289-295 | an item serves an event if and only if it is an EVENT frame of the subscription zb-verify whose third item is an object with that id |
| Relay.EndsRaw | crates/zangbeto-enforcement/src/nostr_relay.rs:296-296 | an item ends the stored events if and only if it is an EOSE frame of that subscription |
| Relay.StopsRaw | crates/zangbeto-enforcement/src/nostr_relay.rs:297-301 | what stops a lookup early: the end of the socket, a text that is no array, a CLOSED of that subscription |
| Relay.LookingAnswers | crates/zangbeto-enforcement/src/nostr_relay.rs:286-306 | the answer of a lookup at the item that stops it |
| Relay.RelayClient.Await | crates/zangbeto-enforcement/src/nostr_relay.rs:194-206 | a waiting loop returns the first frame that is neither a notice nor an unknown verb, or an error |
| Relay.AwaitingMeans | crates/zangbeto-enforcement/src/nostr_relay.rs:194-230 | the wait succeeds if and only if that first frame is of the kind waited for |
| Relay.AwaitingAnswers | crates/zangbeto-enforcement/src/nostr_relay.rs:194-230 | the answer of a wait at the first item it cannot ignore |
| Relay.RelayClient.Authenticate | crates/zangbeto-enforcement/src/nostr_relay.rs:190-231 | the flag is set if and only if a challenge and then an accepting OK came, with only notices and unknown verbs between, unless the answer cannot be built or written |
| Relay.OwnAcceptanceIffNamed | crates/zangbeto-enforcement/src/nostr_relay.rs:212-230 | the first OK after a challenge is the acceptance of the answering event if and only if it accepts and names that event |
| Relay.OtherAcceptanceAuthenticates | crates/zangbeto-enforcement/src/nostr_relay.rs:212-230 | a conversation that authenticates although no OK in it is about the answering event |
| Relay.RelayClient.PublishVerified | crates/zangbeto-enforcement/src/nostr_relay.rs:271-278 | success means an accepting OK and then the served event, and both together can only be spoiled by a failing write |
| Relay.VerifiedMeansStored | crates/zangbeto-enforcement/src/nostr_relay.rs:271-306 | with a relay that serves only what it stored, a verified event is stored |
| Relay.ReadBackTellsStored | crates/zangbeto-enforcement/src/nostr_relay.rs:281-306 | with a relay that also serves all it stored, the lookup answers exactly whether the event is stored |

## Left out

- Relay.RelayClient.Publish: the text of transport errors is dropped; a failing serialization and a failing write are one failure.
- Quarantine.QuarantineManager.EvaluateRelease: which open condition a pending answer names first depends on the order of a `BTreeSet` and is any of them here; stored scope, reason and access fields are not kept.
- DiagnosticLedger.Ledger.SubmitDiagnostic: the placeholder signature (a 64-byte slice of a 32-byte digest), the proof fields and the emitted events are not modelled.
- BftConsensus.AgreementBound: the number of nodes is one for all calls of a run, and the quorum products are not limited to a machine word.
- EventLedger.TipCommitsToHistory: the JSON texts are a parameter with the stated properties; `query_drift` is not modelled.
- The iteration order of `BTreeMap` and `HashMap`: loops over them take their keys in any order.
- `CrdtMemory::meet` and `conflict_set`, which no replica applies.
- SHA-256, HMAC, Ed25519, CBOR, JSON and JSON Patch themselves: parameters; `verify_receipt` and `audit_blob_against_receipt` are receipts over them.
- `is_merge_allowed`, whose lookup uses a block time of 0 that no entry has; the snapshot extractors and the anomaly check, which are stubs that return the whole state and true.
- `generate_repair_delta`, `reconstruct_state` and `rewind_to` of the audit and replay modules.
- The split of the request line, the routes behind the bridge, its I/O errors and its responses.
- The construction of NIP-42 events, the bridge above the relay client and the closing handshake.
- `zbt_guard`, `zbt_v2`, validator weights and decay, drift, pipelines, sandboxes, capabilities, courts, rollback, arbitration, the action ladder, the stewards and the scripts: short case splits, floating-point weights or placeholders.
