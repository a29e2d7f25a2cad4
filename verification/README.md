# DICS v2: verified models

Dafny models of four parts of DICS v2, an insurance-claims system on a private Ethereum chain, and
proofs of what they do.

1. **The event indexer** (`indexer/src`) copies contract events from the chain into a database, pass
   after pass. `IndexerMachine` is the machine of its single external calls: reading the head, reading
   the checkpoint, fetching logs, inserting a raw event, running a table statement, sending a webhook,
   saving the checkpoint. Between any two calls the chain may move, and any call may fail, which
   abandons the pass. `Indexer.Service` is the service itself, method by method, with fields for the
   database; each of its methods is proved to make a run of that machine. What holds in every reachable
   state is proved about the machine:
   `LedgerSafety` and `ReorgBoundary` (the raw-event ledger against the chain), `TableSafety` (tables
   and webhooks against the ledger), `Projection` (what a row says), `ScanProgress` (chunks and
   checkpoints), `Batching` (independence of how the work is cut up), `Gaps` (what an interruption
   costs), `BlockedScans` and `SmoothScans` (which logs stop a scan for good, and which cost one pass) and
   `LostEvents` (what never gets into the database). `Storage` says what the driver and the columns accept.
2. **The Merkle service** (`document-service/Merkle`) in `MerkleTree`, with the hash as a parameter of
   which nothing is assumed. `MerkleBinding` proves what a root fixes about its leaves, and what not.
3. **KMS signing** (`safe-ops/src`): reading DER in `DerUtils`, printing it and the round trips in
   `DerRoundTrip`, public-key recovery with points written as discrete logarithms in `Secp256k1`, and
   low-s normalisation with the search for the recovery id in `KmsSigner`.
4. **Two state machines**: the premium-warning scheduler's memory in `Scheduler`, and the login nonce
   in `WalletAuth`.

Where the code and what is said of it disagree, the model follows the code:

- A comment and a test of the Merkle service say that the root ignores all ordering. It ignores the swapping
  of siblings, and whether a list holds leaves or a level of inner nodes. `MerkleBinding.RootsAgreeExactly` says
  exactly when two leaf lists of any lengths have one root, `OrderMattersFromThree` that order is irrelevant for
  one or two different documents and matters from three on, `ThreeLeavesShowOrder` that the two orders of that
  test have different roots unless the hash has a collision, and `InnerNodesPassForLeaves` that every list has
  the root of a shorter one.
- The indexer's README calls re-scanning after a restart safe. The ledger is: its unique key makes the
  insert idempotent. The tables are not: an interruption between a handler's two writes leaves a row in
  the ledger that no later scan applies (`Gaps.RescanDoesNotRepair`). `TableSafety.TablesAreReplay` says
  exactly which logs are missing from the tables, `Gaps.ClaimRowExactly` and `Gaps.PolicyRowExactly` which
  claims and policies have a row.
- The safe head is clamped at block 0, so a contract deployed at block 0 is read inside the safety
  margin. `ReorgBoundary.FaithfulExactlyWhenFinal` gives the exact condition on the configuration.
- A comment in the scan loop (indexer/src/listener.js:62) says that a log which is none of the known events
  is ignored. Only one whose parse throws is. A parse that finds no such event returns null, reading its name
  throws, and the pass ends; the next pass meets the same log again. Such logs are routine: the policy
  contract emits PremiumPaid, PolicySubscribed, PolicyCoverageUpdated
  (smart-contracts/contracts/InsurancePolicy.sol:123-135) and OpenZeppelin's RoleGranted, none of which
  indexer/src/rpcClient.js:17-20 declares.
- A test (indexer/test/indexer.integration.test.js:190-197) expects an approved claim to show as approved, and
  another (indexer/test/rpcClient.test.js:38) calls the decoded status a plain number. ethers 6 decodes it as a
  bigint, indexer/src/eventHandlers.js:60 puts it into the event data as it is, and the JSON that the driver makes
  of the data has no bigints. So every ClaimStatusChanged (smart-contracts/contracts/ClaimRegistry.sol:324, :342)
  ends the pass before its raw insert, and so does every later pass. `LostEvents.StatusesNeverChange`: no status
  change is ever recorded or reported, and every claim reads submitted or paid.
- These two kinds of log, and no others, stop a scan for good: `BlockedScans.SafeHeadReachedExactly` says exactly
  when a scan can be completed, `BlockedScans.BlockingStopsContract` that one such final log stops its contract
  for good, `OneUnmatchedLogStopsIndexing` and `OneApprovalStopsIndexing` show it on chains with a single log.
  A log whose table statement is rejected, such as a registration until after the last timestamp of the
  database (smart-contracts/contracts/InsurancePolicy.sol:363-383 takes any end above the start), ends one pass
  only: its raw row is in by then, the next pass skips it, and its effect is lost. `SmoothScans.SmoothExactly`
  says when a scan goes through without a failed call, `LostEvents.PolicyRowIsInRange` which policies have no row.
- A comment of the scheduler says that a paid-until value already warned about is not warned about again. It
  compares only with the last value warned about, and reads 0 for a policy it has not warned about: a value is
  warned about twice exactly when it comes back after another (`Scheduler.WarnedTwiceExactly`), and a lapsed
  premium paid until 0 is warned about exactly when another value was read before
  (`Scheduler.WarnedAboutExactly`, `Scheduler.ZeroNeedsAnEarlierReading`).
- A comment of the KMS signer calls the failure of its recovery search unreachable for a signature by its own
  key. It fails when the abscissa of the nonce's point is above the group order, unless two keys share an address
  (`Secp256k1.SignatureRecoversExactly`; `Secp256k1.WrappedSignatureExists` makes such a signature from any such
  point), and when the first id tried recovers the point at infinity (`KmsSigner.InfinitySignatureExists` makes
  such a signature from any other point). `KmsSigner.TrueSignatureIsSignable` has the exact condition.

## Model

| member | source | states |
|---|---|---|
| `ReorgBoundary.FaithfulExactlyWhenFinal` | indexer/src/listener.js:33-76 | in every reachable state each contract's ledger is faithful (duplicate-free, in chain order, a prefix of the final logs from the deploy block, complete up to the checkpoint) if and only if nothing is ever reorganised, or the margin is at least the reorganisation depth and both deploy blocks are at least 1 |
| `LedgerSafety.LedgerIsFaithful` | indexer/src/listener.js:33-76 | one direction of it, for any failures, heads, chunk sizes and chain movements |
| `LedgerSafety.UniqueKeyIsDecisive` | indexer/src/eventHandlers.js:15-25 | in every reachable state of a safe configuration, the unique key (transaction, log index) of any log on the chain is in the ledger exactly when that very log is |
| `ReorgBoundary.UnsafeLedgerKeepsOrphan` | indexer/src/listener.js:36-46 | under any other configuration some run leaves a row whose log is on no block of the chain |
| `TableSafety.TablesAreReplay` | indexer/src/eventHandlers.js:15-157 | in every reachable state the tables are the replay of the ledger minus exactly the logs interrupted between raw insert and table write; without such a gap, of the whole ledger |
| `TableSafety.ReportsAreTruthful` | indexer/src/eventHandlers.js:49-123 | no event is reported twice, and every report is of a ledger row that was not lost: it names the event, its claim and its transaction, for a submission its Merkle root and "submitted", for a status change or payout the root and status that the replay up to its own log gives the claim |
| `Projection.ReportsExactly` | indexer/src/eventHandlers.js:49-123 | a report is due for every submission, and for a status change or payout exactly if the claim has a row; none for a policy event; and it carries just that |
| `Projection.StatusNames` | indexer/src/rpcClient.js:22-28 | the names of the five claim states in the order of the contract, and "unknown(n)" with n in decimal for any other |
| `Projection.ClaimRowReads` | indexer/src/eventHandlers.js:27-123 | a claim has a row exactly when it was submitted; identity, amount, transaction and block come from its first submission, status from the last later status change or payout, the two later transaction columns from the last log of their kind |
| `Projection.ClaimReadingIsUnique` | indexer/src/eventHandlers.js:27-123 | that reading determines the row |
| `Projection.PolicyRowReads` | indexer/src/eventHandlers.js:125-157 | a policy has a row exactly when it was registered, with the data of its first registration, and is revoked exactly when a revocation follows that one |
| `Projection.TablesArePerContract` | indexer/src/listener.js:78-92 | claims are the replay of ClaimRegistry's logs and policies of InsurancePolicy's, however the two interleave |
| `ScanProgress.ChunksPartitionScannedBlocks` | indexer/src/listener.js:48-73 | every block from the deploy block to the checkpoint lies in exactly one finished chunk, no other block in any, and each chunk has just the chunk size of its scan, except one that ends at the scan's safe head |
| `ScanProgress.CheckpointNeverFalls` | indexer/src/checkpoint.js:16-35 | along any run a checkpoint stays set and never decreases, whatever heads are reported |
| `Batching.FailureFreeRunsAgree` | indexer/src/listener.js:50-92 | under safe configurations, two runs without a failed call that end between scans, over the same scanned blocks and up to the same checkpoints, hold the same rows per contract and the same tables, however their chunks, heads, margins, chain movements and interleavings differed |
| `Batching.FailureFreeIsSettled` | indexer/src/listener.js:50-92 | a run without a failed call that ends between scans leaves no row beyond a checkpoint and no gap, under every configuration |
| `Batching.SettledIsReference` | indexer/src/listener.js:50-92 | in every reachable state of a safe configuration that is between scans, with no row beyond a checkpoint and no gap, the tables are the replay of exactly the scanned blocks' logs |
| `Batching.BatchingIsInvisible` | indexer/src/listener.js:50-92 | two such states, of safe configurations, over the same blocks with the same checkpoints hold the same rows per contract and the same tables, whether or not calls failed on the way |
| `Gaps.RescanDoesNotRepair` | indexer/src/eventHandlers.js:37-47 | under every configuration some run loses a claim: it is in the ledger, and no continuation gives it a row unless it is submitted again |
| `Gaps.ClaimRowExactly` | indexer/src/eventHandlers.js:37-47 | in every reachable state a claim has a row if and only if the ledger has a submission of it that was neither interrupted between its two writes nor is just now between them |
| `Gaps.LostClaimStaysLost` | indexer/src/eventHandlers.js:37-47 | a claim whose every submission is a gap has no row in any later state |
| `Gaps.PolicyRowExactly` | indexer/src/eventHandlers.js:125-157 | in every reachable state a policy has a row if and only if a registration of it in the ledger was applied, and is revoked if and only if a revocation of it after such a registration was applied |
| `Storage.StatusChangesAreUnrecordable` | indexer/src/eventHandlers.js:58-62 | of the known events, exactly the status changes carry data that the driver cannot write as JSON |
| `Storage.WritableExactly` | indexer/sql/schema.sql:25-48 | a statement is accepted exactly if the numbers of claim and policy are eight-byte integers and the times of a registration are timestamps |
| `Storage.RangesEnd` | indexer/sql/schema.sql:25-48 | a BIGINT ends at 2^63, a timestamp with the last second of the year 294276 by the Gregorian calendar |
| `BlockedScans.SafeHeadReachedExactly` | indexer/src/listener.js:50-73 | under a safe configuration, from any reachable state between scans, some run, of one pass or several, checks a contract off up to the safe head of a given head if and only if no log of the contract in the blocks still to be read parses to null or is a recognised one whose data cannot be written as JSON |
| `BlockedScans.BlockingExactly` | indexer/src/listener.js:57-68 | a log stops its contract exactly if it parses to null or is a status change |
| `BlockedScans.BlockingIsNeverPassed` | indexer/src/listener.js:57-72 | in every reachable state of a safe configuration, no such log lies between the deploy block and the checkpoint |
| `BlockedScans.BlockingStopsContract` | indexer/src/listener.js:57-72 | once such a log is final, every later scan of its contract resumes at its block or before it |
| `BlockedScans.OneUnmatchedLogStopsIndexing` | indexer/src/rpcClient.js:17-20 | under every safe configuration, one log that parses to null in the deploy block of a chain keeps its contract without a checkpoint in every run, though there is a block to read |
| `BlockedScans.OneApprovalStopsIndexing` | indexer/src/eventHandlers.js:58-62 | so does one approval of a claim |
| `SmoothScans.SmoothExactly` | indexer/src/listener.js:50-73 | under a safe configuration, from any reachable state between scans, a run without a failed call that ends between scans can check a contract off up to the safe head if and only if, of its logs still to be read, none is such a log and each that is not a row yet has values in the range of its table's columns |
| `SmoothScans.PassGoesThrough` | indexer/src/listener.js:78-92 | if the logs of both contracts to be read are so, a pass over both, with any chunk size and heads, can go through without a failed call and leaves both checkpoints at the safe heads |
| `LostEvents.StatusesNeverChange` | indexer/src/eventHandlers.js:58-92 | in every reachable state no status change is in the ledger or among the reports, and every claim's row is submitted or paid, without a status transaction |
| `LostEvents.OnlyStorableIsApplied` | indexer/sql/schema.sql:13-48 | in every reachable state every ledger row could be written as JSON, and every log that took effect on a table has values in the range of its columns |
| `LostEvents.TablesAreInRange` | indexer/sql/schema.sql:25-48 | in every reachable state the numbers in the tables are below 2^63, and both ends of a policy's validity are timestamps |
| `LostEvents.PolicyRowIsInRange` | indexer/src/eventHandlers.js:138-144 | a policy with a row has a number below 2^63 and was registered until before the end of the database's timestamps |
| `Indexer.Service.PersistRawEventOnce` | indexer/src/eventHandlers.js:15-25 | inserts the raw event exactly if its key is new and says which; a failure leaves it undone, or done and a gap; data that cannot be written as JSON always fails, undone |
| `Indexer.Service.HandleClaimSubmitted` | indexer/src/eventHandlers.js:27-56 | both writes and at most one report, which carries what the event and the tables say, if the event is new, nothing if not; on failure nothing, the raw row alone, or both writes; a new event whose values a column rejects always fails, without the table write |
| `Indexer.Service.HandleClaimStatusChanged` | indexer/src/eventHandlers.js:58-92 | the same for a status change, which reports nothing for an unknown claim; one whose data cannot be written as JSON fails with nothing done, and `Storage.StatusChangesAreUnrecordable` says that this is every one |
| `Indexer.Service.Dispatch` | indexer/src/listener.js:64-68 | the same for whichever handler the event names; a status change always fails, with ledger, tables and reports as they were |
| `Indexer.Service.HandleClaimPayout` | indexer/src/eventHandlers.js:94-123 | the same for a payout, whose report carries the payout's own transaction and the Merkle root of the claim's row |
| `Indexer.Service.HandlePolicyRegistered` | indexer/src/eventHandlers.js:125-145 | the same for a registration, without a report |
| `Indexer.Service.HandlePolicyRevoked` | indexer/src/eventHandlers.js:147-157 | the same for a revocation, without a report |
| `Indexer.Service.ReportClaimEvent` | indexer/src/backendClient.js:20-49 | at most one delivery of the given report; without a backend it succeeds and delivers nothing; a failure leaves the database alone |
| `Indexer.Service.GetLastProcessedBlock` | indexer/src/checkpoint.js:16-24 | nothing without a row, else its block |
| `Indexer.Service.SetLastProcessedBlock` | indexer/src/checkpoint.js:26-35 | the contract's checkpoint becomes the block; on failure it did or did not |
| `Indexer.Service.HandleLogs` | indexer/src/listener.js:57-69 | handles every recognised log of the chunk in order and counts them; a log whose parse throws is skipped, and one that parses to null, or whose data cannot be written as JSON, makes it fail |
| `Indexer.Service.ScanContract` | indexer/src/listener.js:33-76 | asks the node for one head, takes as safe head that head less the margin, or 0 if that is negative, resumes at the contract's own deploy block or after the checkpoint, and leaves the checkpoint at the safe head; under a safe configuration ledger and tables are then what handling exactly the final chain's recognised logs in between makes of the old ones, and the count is theirs; with nothing to read nothing changes; a failed scan leaves the checkpoint where it was or further on |
| `Indexer.Service.RunOnePass` | indexer/src/listener.js:78-92 | a pass that succeeds asks for two heads, scans policies for the first and claims for the second, each from its own checkpoint or deploy block, and leaves both checkpoints at the safe heads of these heads |
| `Indexer.Service.MainLoop` | indexer/src/listener.js:94-119 | after any number of passes, failed or not, the ledger is faithful and no checkpoint is past a log that stops its contract (both under a safe configuration), the tables are the ledger's replay minus the gaps, and nothing was reported twice |
| `MerkleTree.CompareBytes` | document-service/Merkle/MerkleTreeService.cs:98-106 | negative for a proper prefix or a lesser byte at the first difference, positive the other way round, zero exactly for equal strings |
| `MerkleTree.BeforeIsTotal` | document-service/Merkle/MerkleTreeService.cs:98-106 | of two byte strings exactly one is before the other or they are equal |
| `MerkleTree.NotAfterIsTotalOrder` | document-service/Merkle/MerkleTreeService.cs:98-106 | what the comparison decides is a total order: reflexive, antisymmetric, transitive, any two compare |
| `MerkleTree.HashPair` | document-service/Merkle/MerkleTreeService.cs:89-96 | the hash of the lesser string followed by the greater, lesser being a prefix or having the lesser byte at the first difference |
| `MerkleTree.CombinedIsSymmetric` | document-service/Merkle/MerkleTreeService.cs:89-96 | the hashed input does not depend on the order of the pair |
| `MerkleTree.CombinedTellsPair` | document-service/Merkle/MerkleTreeService.cs:89-96 | for strings of equal length the hashed input determines the unordered pair |
| `MerkleTree.ComputeRoot` | document-service/Merkle/MerkleTreeService.cs:48-87 | fails exactly on no leaves, else computes the root, in as many rounds and calls and over exactly the inputs that the specification says |
| `MerkleBinding.SmallRoots` | document-service/Merkle/MerkleTreeService.cs:48-96 | the root of one leaf is the leaf, of two the hash of the lesser followed by the greater, of three that of the first two's root and the third hashed with itself |
| `MerkleBinding.RootIsPerfect` | document-service/Merkle/MerkleTreeService.cs:55-86 | the loop's root, and the inputs it hashes, are those of the recursive perfect binary tree over the leaves padded by repeating the last aligned block |
| `MerkleBinding.RootsAgreeExactly` | document-service/Merkle/MerkleTreeService.cs:34-87 | for lists of 32-byte leaves of any lengths, roots are equal if and only if the padded trees, the higher cut off at the height of the lower, are the same up to swapping siblings, or the computations exhibit two different 64-byte inputs with one digest |
| `MerkleBinding.InnerNodesPassForLeaves` | document-service/Merkle/MerkleTreeService.cs:57-84 | every list of two or more leaves has the root of a shorter list of 32-byte leaves, namely of its level of pair hashes |
| `MerkleBinding.FourLeavesAndTwo` | document-service/Merkle/MerkleTreeService.cs:57-84 | four documents and the two hashes of their pairs have one root |
| `MerkleBinding.RootBindsLeaves` | document-service/Merkle/MerkleTreeService.cs:48-106 | equal roots at equal heights mean the same set of leaves, and the same multiset for full trees, or a collision is exhibited |
| `MerkleBinding.OrderMattersFromThree` | document-service/Merkle/MerkleTreeService.cs:34-40 | order never matters for one or two different leaves; from three on, exchanging the second and third changes the root or exhibits a collision |
| `MerkleBinding.ThreeLeavesShowOrder` | document-service/document-service.Tests/MerkleTreeServiceTests.cs:34-50 | for three different leaves the orders A, B, C and C, A, B have one root only if a collision is exhibited |
| `MerkleBinding.SiblingSwap` | document-service/Merkle/MerkleTreeService.cs:61-96 | swapping adjacent aligned blocks of 2^j leaves keeps the root |
| `MerkleBinding.RepeatedLastLeaf` | document-service/Merkle/MerkleTreeService.cs:67-80 | repeating the last leaf of an odd list keeps the root, so leaves are not counted |
| `MerkleBinding.HeightIsLog` | document-service/Merkle/MerkleTreeService.cs:57-84 | the rounds for n leaves are the binary logarithm of n, rounded up |
| `MerkleBinding.PairsHashedBounds` | document-service/Merkle/MerkleTreeService.cs:57-84 | n leaves take at least n - 1 and at most n - 1 plus that many pair hashes |
| `DerUtils.ShiftOrAccumulates` | safe-ops/src/derUtils.js:45-47 | one 32-bit shift-and-or is one step of base-256 accumulation modulo 2^32 |
| `DerUtils.ReadTlvHeader` | safe-ops/src/derUtils.js:30-52 | the loop reads tag, value offset and the length's value as a signed 32-bit integer |
| `DerRoundTrip.HeaderReadsLength` | safe-ops/src/derUtils.js:30-52 | for every definite-form length encoding at any place of any buffer, tag and value offset are right, and the length is right if and only if it is below 2^31 |
| `DerRoundTrip.SubarrayCounts` | safe-ops/src/derUtils.js:93-121 | bounds of a subarray count from the start, or from the end if negative, and are cut to the buffer |
| `DerRoundTrip.NoLengthReadsZero` | safe-ops/src/derUtils.js:30-52 | a length octet with a count of zero, or of zero bytes, reads as the length 0 |
| `DerUtils.ToPadded32` | safe-ops/src/derUtils.js:129-143 | the copying loop gives the stripped bytes behind zeros, or rejects them |
| `DerUtils.PaddedKeepsValue` | safe-ops/src/derUtils.js:129-143 | accepted exactly up to 32 bytes, or 33 with a zero sign byte; the value is kept in exactly 32 bytes |
| `DerRoundTrip.SpkiIsRead` | safe-ops/src/derUtils.js:70-98 | for such a structure with any tags and contents, reading succeeds if and only if the outer tag is 0x30, the third is 0x03 and at least 66 bytes follow the last header, and gives bytes 2 to 65 of these |
| `DerRoundTrip.SpkiRoundTrip` | safe-ops/src/derUtils.js:70-98 | reading a printed SubjectPublicKeyInfo gives its 64-byte point for every algorithm identifier and every length encoding |
| `DerRoundTrip.SigIsRead` | safe-ops/src/derUtils.js:113-127 | for two values of any tags in a structure of any tag, reading succeeds if and only if the outer tag is 0x30 and both contents can be padded, and gives both, padded, in their order |
| `DerRoundTrip.SigValueIsRead` | safe-ops/src/derUtils.js:113-127 | reading a printed ECDSA-Sig-Value gives both contents, padded, for every length encoding |
| `DerRoundTrip.SignatureRoundTrip` | safe-ops/src/derUtils.js:113-143 | for all r, s below 2^256 the DER encoding reads back as two 32-byte strings denoting r and s |
| `DerRoundTrip.FixtureSpkiRoundTrip` | safe-ops/test/derFixtures.js:17-26 | the fixture printer's keys read back as their points |
| `DerRoundTrip.FixtureSignatureRoundTrip` | safe-ops/test/derFixtures.js:28-38 | the fixture printer's signatures of up to 32 bytes each read back as those bytes, zero-padded, with their values |
| `Secp256k1.NegatedSSwapsIds` | safe-ops/src/kmsSigner.js:96-105 | replacing s by N - s swaps what the two recovery ids recover |
| `Secp256k1.KeyEquation` | safe-ops/src/kmsSigner.js:115-124 | what recovery computes at an id is the one key d for which s R = z + r d holds of the point R that the id picks |
| `Secp256k1.RecoversExactly` | safe-ops/src/kmsSigner.js:115-124 | recovery gives d if and only if r, s and d are between 1 and N - 1, a point has abscissa r, and s R = z + r d for the even such point at id 0, the odd one at id 1 |
| `Secp256k1.OrderInDecimal` | safe-ops/src/kmsSigner.js:12-13 | the order and the field of the curve in decimal; half the order, doubled, is the order less one |
| `Secp256k1.SignatureRecoversExactly` | safe-ops/src/kmsSigner.js:115-139 | a true ECDSA signature recovers to its key at id 0 or 1 if and only if the abscissa of its nonce point is below N |
| `Secp256k1.WrappedSignatureExists` | safe-ops/src/kmsSigner.js:132-138 | from every point with abscissa above N, every key and all digests but those of one residue come true signatures that recover to the key at neither id |
| `Secp256k1.OtherIdRecovers` | safe-ops/src/kmsSigner.js:125-131 | where one id recovers d, the other recovers nothing exactly if r d + 2 z vanishes modulo N |
| `KmsSigner.LowSRecoversTheSame` | safe-ops/src/kmsSigner.js:96-105 | the low s recovers what s does, at the same id, or at the other one if s was replaced |
| `KmsSigner.SignatureFrom` | safe-ops/src/kmsSigner.js:112-127 | a signature comes about exactly from 64 digits each with s not above half of N, and holds these digits and the id |
| `KmsSigner.LowSHex` | safe-ops/src/kmsSigner.js:102-106 | 64 digits denoting s if it is not above half of N, else N - s, which is not; fails exactly for s above N |
| `KmsSigner.Signer.GetAddress` | safe-ops/src/kmsSigner.js:45-62 | the cached address, or that of KMS's key, which it then keeps |
| `KmsSigner.Signer.FindRecoveryId` | safe-ops/src/kmsSigner.js:125-139 | the least id that recovers the expected address; succeeds exactly if the digits make a signature, one of the ids recovers that address, and id 0 recovers anything at all |
| `KmsSigner.Signer.SignDigest` | safe-ops/src/kmsSigner.js:71-113 | a result is the given r, with s or N - s, whichever is not above half of N, and an id that recovers the signer's address; it succeeds if and only if the digest has 32 bytes, KMS's answers parse, (r, s), as it came, recovers to that address at one of the ids, and the first id tried does not throw; the address is asked for and kept exactly if digest and signature parse |
| `KmsSigner.TrueSignatureRecovers` | safe-ops/src/kmsSigner.js:125-131 | for a true signature with a nonce abscissa below N, one of the ids recovers the key's address, and the first id tried throws if and only if r d + 2 z vanishes modulo N and the key is at the second |
| `KmsSigner.InfinitySignatureExists` | safe-ops/src/kmsSigner.js:125-138 | for every point with abscissa below N and every non-zero digest or its negative, there are a key and a true signature for which the first id tried throws |
| `KmsSigner.TrueSignatureIsSignable` | safe-ops/src/kmsSigner.js:71-139 | a true signature of a 32-byte digest, in DER with any encodings of the key, the key's address cached or not: with a nonce abscissa below N it meets those conditions if and only if it is not the case that r d + 2 z vanishes modulo N and the key is at the second id; with another nonce only if two keys share an address |
| `KmsSigner.SignWithTrueKey` | safe-ops/test/kmsSigner.test.js:69-120 | hence signing with the true key, first or later, succeeds exactly then, gives s or N - s, not above half of N, which recovers to the key's address, and leaves that address cached |
| `Scheduler.Service.CheckOnce` | notification-service/internal/scheduler/scheduler.go:96-130 | the loop leaves the memory that turn-by-turn processing gives |
| `Scheduler.ChecksConcatenate` | notification-service/internal/scheduler/scheduler.go:81-94 | checks in succession are one list of turns |
| `Scheduler.WarningsAreChanges` | notification-service/internal/scheduler/scheduler.go:23-44 | over any run, what a policy is warned about is exactly its eligible readings (successful, lapsed, inside the window, accepted by the webhook) with leading zeros and repetitions of the one before dropped, and the memory is the last of them |
| `Scheduler.WarningsNameTheirTurn` | notification-service/internal/scheduler/scheduler.go:96-130 | every accepted warning goes to the holder, and names the policy and value, of an eligible turn |
| `Scheduler.WarnedAboutExactly` | notification-service/internal/scheduler/scheduler.go:34-41 | a policy is warned about a value if and only if an eligible turn read it and, if it is 0, an earlier one read another value |
| `Scheduler.WarnedTwiceExactly` | notification-service/internal/scheduler/scheduler.go:34-41 | it is warned twice about a value if and only if its eligible turns read that value (after another, if it is 0), then a different one, then that value again |
| `Scheduler.ConsecutiveWarningsDiffer` | notification-service/internal/scheduler/scheduler.go:23-44 | over any run two consecutive accepted warnings for a policy carry different paid-until values, and a first one never carries 0; the memory is the latest warning |
| `Scheduler.WarnedAtMostOnce` | notification-service/internal/scheduler/scheduler.go:96-130 | if read values never decrease, each policy is warned at most once per value, and a non-zero value just read is remembered exactly when a warning about it was accepted |
| `Scheduler.DecreaseRepeatsWarning` | notification-service/internal/scheduler/scheduler.go:34-41 | a sample: read 5, then 6, then 5, and 5 is warned about twice |
| `Scheduler.ZeroNeedsAnEarlierReading` | notification-service/internal/scheduler/scheduler.go:34-41 | a sample: a lapsed 0 read first is not warned about, and after 5 it is |
| `WalletAuth.Auth.GenerateNonce` | backend/app/auth.py:36-49 | the address's record is the new nonce, unused, for five minutes |
| `WalletAuth.Auth.VerifySignatureAndConsumeNonce` | backend/app/auth.py:52-85 | succeeds exactly if the record is unused and in time and the signature over prefix, space and the record's nonce recovers to the address; reaching recovery uses the nonce up whatever the signature |
| `WalletAuth.LoginSucceedsExactly` | backend/app/auth.py:36-85 | over any run, a login succeeds if and only if its address's latest nonce was issued at most five minutes before, no earlier login was in time to use it up, and the signature over prefix, space and that nonce recovers to the address |
| `WalletAuth.MessagesDiffer` | backend/app/auth.py:23-33 | different nonces have different messages |
| `WalletAuth.FreshNonceBetweenLogins` | backend/app/auth.py:36-85 | no issued nonce is worth two logins: between two successful logins of an address a nonce was issued to it |

## Left out

- The contracts themselves, and the backend's end of the webhook: the indexer's webhook is a send that may be delivered, refused or fail.
- JSON and SQL encodings: rows and event data are typed records. Of what they reject, bigints in event data, numbers beyond BIGINT and times beyond PostgreSQL's timestamps are modelled; block numbers and log indexes are taken to fit their columns, and strings to be free of NUL. `updated_at` and `processed_at` are not modelled.
- Two contract addresses that are the same, and several indexer processes on one database.
- Reorganisations after a block has become final by the chain's own depth bound, and nodes that answer a log query from an older chain than the one at that moment.
- The comparison of a whole scan is by blocks; timing, poll intervals and log output are not modelled. `MainLoop` makes any finite number of passes.
- Keccak, elliptic-curve arithmetic and ethers' address formatting: parameters. That different abscissas belong to points that differ up to sign, and that inverses are inverses, is what `Curve.Valid` asks of them.
- `Signature.from` is taken to reject an s above half the order.
- A read beyond a DER buffer's end counts as 0.
- `signMessage`, `signTypedData` and `signTransaction`, which only compute the digest and call the signing primitive.
- The warning's days remaining (floating point), the overflow of Go's durations, and the persistence of the scheduler's memory across restarts.
- Interleaving of concurrent login requests at their awaits, session tokens, and the randomness of nonces: a nonce is a parameter, and two issues may coincide.
- Claim and policy reads, idempotency keys, the underwriter and oracle services, the frontend and the deployment code.
