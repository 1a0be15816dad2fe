# Wavicle in Dafny

Wavicle is a cache whose entries are *materialized proofs*: the value of a composed expression together with a receipt,
a map from path to the hash of the atom that was current when the value was computed. A read checks the receipt against
the frontier (the current atom of every path), recomputes only what changed, and renews the receipt. This project models
the parts where that promise is made or can break, and proves what holds over every run.

What is modelled, one module per file:

- `Core`, `Encoding`: values, expressions, causal atoms, `Serialize` and atom hashing over an ideal hash, and what the bytes tell apart.
- `ProofSpec`, `ProofReads`, `ProofWork`, `ProofRuns`, `SourceHashes`, `ProofCost`: incremental reduction on values, from one node up to
  whole runs of reads, and what each read costs.
- `PathIndex`, `ProofLimits`: exactly when reads of leaf overwrites are fresh, whatever the paths.
- `HeldValues`, `PlainReads`, `StaleNodes`, `HiddenChanges`: what the nodes hold, and exactly when the next reads are exact.
- `StaleRuns`: cache runs on which reads are stale, and two on which they are not.
- `ProofEngine`, `ProofBuilder`: the same engine on linked, mutable nodes, proved to compute what the value level says.
- `Combinator`, `Composition`, `FieldReads`, `Evaluators`: the SKI interpreter, cold composition, and the agreement of three evaluators.
- `FrontierSpec`, `DedupRuns`, `Interleaving`, `FrontierReads`: the frontier caches as maps, sequential runs and interleavings.
- `FrontierShard`, `ShardedFrontier`, `ShardedCache`, `FrontierCache`, `ByteAccounting`: the caches in place, with their five coupled structures,
  byte accounting, eviction and sweeps.
- `CrystalSpec`, `CrystalRuns`, `CausalCrystal`, `CrystalReads`: the log-backed store, recovery, compaction and eviction.
- `ProofCache`: the recency list of materialized proofs.
- `InternSpec`, `InternTable`: hash-consing of expressions, sequential and concurrent.
- `HashRingSpec`, `HashRing`: consistent hashing.
- `CdcSpec`, `CdcApplier`: folding database changes into the local cache.
- `RespSpec`, `RespReader`, `Decimals`: command framing.

Where the code turned out not to keep a promise, the code is modelled as it is, a lemma gives an input that shows it, and
another gives the condition under which the promise holds:

- A leaf at the empty path, or one that the index does not lead back to because its path occurs again elsewhere, is served
  as composed for ever (`StaleRuns.EmptyPathGoesStale`, `StaleRuns.SharedPathGoesStale`). `ProofLimits.FreshIffTracked` is the
  exact condition, over every tree of constants and compositions and every run of leaf overwrites.
- A change below a node whose evaluation does not enter it is hidden from the read that renews its receipt
  (`StaleRuns.HiddenChangeGoesStale`). It does no harm if the node holds its plain value all the same
  (`StaleRuns.HiddenReturnStaysExact`): `HiddenChanges.NextReadsExactIff` is the exact condition for later reads, after any run,
  and `HiddenChanges.StaysExactIff` says it in terms of what can be seen before the read.
- Same-value dedup compares bytes that do not mark where values end: a push of the empty string onto a list is lost
  (`EmptyPushIsLost`, `PushShownIff`), and so is a list that reads like the old one without its boundaries (`ListsConfusedIff`).
- Same-value dedup can lose the newest write to a late older one (`NewestWriteCanBeLost`); `NewestShownIff` says exactly when.
- A failed append loses a clock tick at recovery until the next durable append or restart (`FailedAppendLosesATick`,
  `ClockRecoversIff`).
- Removing a ring node whose virtual hashes collide leaves a point without an owner (`RemoveDanglesIffDoubled`) and does not
  undo the addition (`RemoveUndoesAddIff`).
- The values "{}" and "\0" are confused with tombstones by the change applier (`LookalikesAreLost`, `ShownIff`).
- Three appends reach a store on which composing does not end (`MutualCompositionReached`); `TerminatesIffNoCycle` is the exact
  condition.

Conventions. Hashes are compared by what was hashed, so distinct inputs have distinct hashes. Time, randomness, the success
of log writes and the order of map iteration are parameters or free choices of the step systems. `dafny verify dfyconfig.toml`
checks everything.

## Model

| member | source | states |
|---|---|---|
| Core.EqualHashEqualClock | internal/core/types.go:377-392 | Atoms with equal hashes have equal logical clocks, whatever their expressions: the header has a fixed width and only digests follow it. Everything said below about hashes never coming back rests on this. |
| Core.EqualHashIff | internal/core/types.go:377-392 | Atom hashes are equal if and only if serialized expression, clock, time, deadline, nonce and parents are. |
| Core.SerializeConfusesNullAndZeroByte | internal/core/types.go:74-118 | `Serialize` does not tell the tombstone from the one-byte zero string; same-value dedup therefore cannot either. |
| Encoding.ArrayBytes | internal/core/types.go:132-138 | The bytes of an array are those of its elements in order: empty for none, the element's for one, concatenated for two parts. |
| Encoding.RecordBytes | internal/core/types.go:151-164 | The bytes of a record are key and value of each field in key order: the fields before a key, the key and its value, the fields after it. |
| Encoding.RecordGrows | internal/core/types.go:151-164 | A new field adds exactly the length of its key and of its value's bytes. |
| Encoding.IntBytes | internal/core/types.go:98-102 | An integer is written as eight octets, most significant first, that stand for its value modulo 2^64. |
| Encoding.ScalarsApart | internal/core/types.go:81-125 | Booleans, 64-bit integers, strings and byte strings are told apart by their bytes within their kind. |
| Encoding.ListsConfusedIff | internal/core/types.go:132-138 | Two lists of strings have equal bytes if and only if they read the same without their boundaries, so dedup cannot tell ["ab"] from ["a", "b"]. |
| Combinator.FuelIsIrrelevant | internal/engine/incremental.go:339-403 | An answer of the SKI interpreter is independent of the bound on the S rule: more fuel gives the same answer. |
| Combinator.DecodeInjective | internal/engine/incremental.go:339-403 | Coded values stand for different terms when they differ, so the term an answer decodes to determines the answer. |
| Combinator.ApplySound | internal/engine/incremental.go:339-403 | Whenever the interpreter answers on coded values, the answer codes a normal form that the application reduces to by S, K and I rewriting. |
| Combinator.Triangle | internal/engine/incremental.go:339-403 | Confluence of S, K, I rewriting: every parallel step can be completed to the full development. |
| Combinator.NormalFormUnique | internal/engine/incremental.go:339-403 | A term has at most one normal form, whatever the reduction order. |
| Combinator.ApplyIsTheNormalForm | internal/engine/incremental.go:339-403 | The interpreter's answer is the only coded normal form the application reduces to by any reduction order. |
| ProofSpec.DirtySetExact | internal/engine/proof.go:47-81 | From a graph with no dirty node, after marking any positions in any order and in spite of the early return, the dirty nodes are exactly the marked ones and their ancestors, and nothing else of any node changed. |
| ProofSpec.ReduceExact | internal/engine/incremental.go:101-233 | If every clean cached value is right, reducing a node answers what plain recursive evaluation answers, failures included, and leaves every clean cached value right. |
| ProofReads.DirtyIffTouched | internal/engine/incremental.go:62-71 | When `reduceDirty` starts, a node is dirty exactly when some path in its subtree changed since its receipt. |
| ProofReads.ReadExact | internal/engine/incremental.go:27-99 | One read, on the fast path and on the dirty path, answers plain evaluation with live paths at their current expression and dead ones at the last seen. |
| ProofWork.ReduceWork | internal/engine/incremental.go:101-233 | If every dirty node lies below dirty nodes whose evaluation enters it (all children of a composition, the first of a field access, the first two of an application), a successful `reduceDirty` leaves no dirty node, misses once per dirty node, and hits plus misses are one plus the children entered from dirty nodes. |
| ProofRuns.ReadKeepsInv | internal/engine/incremental.go:27-99 | Every read whose changes lie under nodes that enter them, whether it takes the fast path, recomputes or fails half-way, keeps the invariant between cached values, receipts and frontier. |
| ProofRuns.ComposeExact | internal/engine/compose.go:9-64 | A freshly composed proof holds the plain value of its tree and satisfies the read invariant. |
| ProofRuns.ReadsAreExact | internal/engine/incremental.go:27-99 | In every run of reads over ABA-free frontiers whose earlier reads came to every change, each read evaluates live paths at their current expression and lost paths at the one last seen. |
| ProofRuns.NoStaleReads | internal/engine/incremental.go:27-233 | No stale reads: in every such run, while the frontier changes under the proof, a read whose receipt paths are live answers exactly the from-scratch evaluation of the tree at that frontier, failures included. |
| SourceHashes.RunStaysStamped | internal/engine/incremental.go:101-124 | Along every run whose reads came to every change, failed reads included, the source hash of every node whose receipt holds is that receipt. |
| ProofCost.TouchedExact | internal/engine/proof.go:47-81 | The nodes that are dirty during a read are exactly the changed nodes and their ancestors, counted. |
| ProofCost.ReadCost | internal/engine/incremental.go:27-124 | A successful read off the fast path has one miss per changed node or ancestor of one, enters the root and the children of those and nothing else, and leaves no dirty node. |
| ProofCost.ReadStaysFilled | internal/engine/incremental.go:101-233 | Over constants and compositions one read never takes a cached value away. |
| ProofCost.ComposeFills | internal/engine/compose.go:9-64 | Composing a tree of constants and compositions fills every node with its value. |
| ProofCost.RunCost | internal/engine/incremental.go:27-124 | In every run of reads over constants and compositions, every read succeeds and costs nothing on the fast path, and otherwise one miss per changed node or ancestor of one and one call for the root and each child of those; no dirty node is left. |
| ProofCost.OneOfMany | internal/engine/engine_test.go:22-73 | Changing one of N constants under one composition costs two misses and N - 1 hits at every such read of a run; the test asks for N = 50. |
| ProofLimits.FreshIffTracked | internal/engine/incremental.go:27-124 | The exact condition for freshness, on every tree of constants and compositions with repeated and empty paths, in every run of leaf overwrites and reads: a read answers plain evaluation if and only if every visible leaf that does not hold the constant it was composed with has a non-empty path and is the node its path is indexed under. Visible means that no node on the way down has a later sibling of the same path. |
| ProofLimits.ShownEqualIff | internal/engine/incremental.go:139-204 | Two assignments of constants to the leaves give a composed tree the same value if and only if they agree at every visible leaf: among siblings of one path the last wins. |
| ProofLimits.DistinctIsComposed | internal/engine/compose.go:9-64 | A proof as composed, of distinct named paths, is a fresh proof in the sense of the run theorems. |
| StaleRuns.EmptyPathGoesStale | internal/engine/compose.go:36-48 | On the cache run that writes a constant at the empty path, composes it and overwrites it, the read is stale: the empty path is never put on a receipt. |
| StaleRuns.SharedPathGoesStale | internal/engine/compose.go:66-98 | On the cache run that composes one path under two parents and overwrites it, the read is stale: the index keeps the second node only, and the first parent serves the old value. |
| StaleRuns.RepeatedPathStaysFresh | internal/engine/compose.go:66-98 | Distinct paths are not needed: on the cache run that composes one path twice under one parent and overwrites it, the read is fresh. |
| HeldValues.Visits | internal/engine/incremental.go:101-233 | `reduceDirty` visits every node once, from the state it had, or leaves its whole subtree alone. Where the read succeeds and everything above the node is dirty, it is visited if and only if evaluation comes to it, and then it succeeds. |
| HeldValues.HeldAfter | internal/engine/incremental.go:101-233 | A node that was reduced holds from then on what it answered: reducing it again with nothing dirty answers the same at every frontier. |
| PlainReads.PlainReadIsExact | internal/engine/incremental.go:27-233 | A live read of a proof whose unchanged nodes hold their plain values, whatever happened to it before, answers plain evaluation, failures included. |
| StaleNodes.StaleNodeSurfaces | internal/engine/incremental.go:62-216 | If a node below the root does not hold its plain value, then the next read is stale on every frontier on which its subtree has not changed, the nodes above have been written as compositions, and the tree evaluates or everything beside has been written as a constant. |
| HiddenChanges.NextReadsExactIff | internal/engine/incremental.go:27-233 | The exact condition for later reads, after any run of reads of a composed proof, failed ones included: every next read on every live ABA-free continuation is exact if and only if every node below the root whose subtree has not changed since its receipt holds its plain value, and so does the answer if the receipts hold. |
| HiddenChanges.ReadHoldsPlainIff | internal/engine/incremental.go:62-216 | What one read does to that condition: a failed read keeps it, and a successful one keeps it if and only if each changed node that the evaluation does not come to held its plain value before the read. |
| HiddenChanges.StaysExactIff | internal/engine/incremental.go:27-233 | In a run whose next reads were all exact, after one more successful read they all are if and only if each changed live node it did not come to held its plain value, which can be seen before the read. |
| HiddenChanges.HarmlessReadsAreExact | internal/engine/incremental.go:27-233 | No stale reads in more runs: if everything the earlier successful reads overlooked held its plain value, a read whose receipt paths are live answers plain evaluation. |
| HiddenChanges.EnteredIsHarmless | internal/engine/incremental.go:101-233 | A read that comes to every change overlooks nothing, so the runs of `NoStaleReads` are among those. |
| StaleRuns.HiddenChangeGoesStale | internal/engine/incremental.go:62-124 | On the cache run that overwrites a composition by a constant and its child by another, reads, and writes the composition back, the first read is right and the second is stale. |
| StaleRuns.HiddenReturnStaysExact | internal/engine/incremental.go:62-124 | On the cache run that hides the child in the same way, overwrites it and writes it as it was, the read overlooks a changed child and every read that can follow is exact. |
| Composition.TerminatesIffAcyclic | internal/engine/compose.go:66-98 | Cold composition of a path terminates if and only if some closed set of paths containing it has a rank that goes down from parent to child. |
| Composition.TerminatesIffNoCycle | internal/engine/compose.go:66-98 | It terminates if and only if no path reachable from it reaches itself, and if and only if it ends within as many levels as there are live paths. |
| Composition.OlderChildrenTerminate | internal/engine/compose.go:66-98 | Where every resolved child is older than its parent, the logical clock is such a rank and building terminates. |
| Composition.MutualCompositionDiverges | internal/engine/compose.go:66-98 | On a store that keeps overwritten atoms, two compositions that name each other make building run forever. |
| CrystalReads.MutualCompositionReached | internal/engine/compose.go:66-98 | Three appends to a crystal reach such a store: write b, compose it as a, compose that as b; then composing a or b never ends. |
| Composition.TreeValueIsEval | internal/engine/incremental.go:235-325 | Evaluating expressions against a store that lost nothing agrees with evaluating the tree built from it. |
| FieldReads.FieldOfComposition | internal/engine/incremental.go:327-337 | In a node tree a field of a composition is the value of the child of that path, and null where there is none. |
| FieldReads.FieldOfConstant | internal/engine/incremental.go:327-337 | A field of a constant that is no record is null. |
| FieldReads.FieldOfStored | internal/engine/incremental.go:235-337 | Against a store a field of a composition is the value of what the hash of that path resolves to. |
| FieldReads.ResolvesTo | internal/engine/incremental.go:271-292 | A composed hash stands for the current atom of its path, and for its own atom once the path is gone. |
| Composition.TreeIsStable | internal/engine/compose.go:66-98 | After leaf overwrites a fresh composition has the shape of the old one. |
| Evaluators.ReduceTree | internal/engine/incremental.go:235-325 | Reduction memoised by expression hash answers what evaluation without a memo answers, from any sound memo, and leaves the memo sound. |
| Evaluators.PlainIsFaithful | internal/engine/incremental.go:235-325 | On string constants and compositions the memo keys separate expressions with different values. |
| Evaluators.ThreeEvaluatorsAgree | internal/engine/compose.go:9-132 | After any run of leaf overwrites on a store that forgets nothing, the incremental read of the old proof, a proof composed afresh and the memo-free value of the root's expression against the store are the same. |
| Evaluators.ReduceProofTree | internal/engine/compose.go:125-132 | From an empty memo the memoised evaluator answers the memo-free value of any plain expression, and leaves a sound memo. |
| Evaluators.MemoisedReadAgrees | internal/engine/compose.go:113-132 | So the memoised evaluator, run from an empty memo on the root's expression and on the expression wrapped around its atom, answers what the incremental read and the fresh proof answer. |
| CrystalReads.MemoryReadAgrees | internal/storage/crystal.go:120-216 | The same over the crystal's own memory, for every run of appends of string constants and compositions that appends only leaves from the first read on. |
| ProofEngine.FindChangedPaths | internal/storage/crystal.go:228-237 | The listing holds exactly the receipt paths whose current hash differs, each once. |
| ProofEngine.MaterializedProof.PropagateDirtyUp | internal/engine/proof.go:47-58 | Following parent pointers does to the linked nodes what the position-level marking does, and changes no other field. |
| ProofEngine.MaterializedProof.ResetDirty | internal/engine/proof.go:75-81 | Following child pointers clears the dirty flag of exactly the subtree. |
| ProofEngine.MaterializedProof.ReduceDirty | internal/engine/incremental.go:101-233 | In-place reduction of linked nodes ends with the node states, answer, hits and misses of the value-level reduction. |
| ProofEngine.MaterializedProof.ReduceIncremental | internal/engine/incremental.go:27-99 | An in-place read ends with the proof and answer of the value-level read that the run theorems are about. |
| PathIndex.IndexSound | internal/engine/compose.go:66-98 | Every entry of the path index names a node of the built tree with that path. |
| PathIndex.IndexComplete | internal/engine/compose.go:66-98 | Every path of the built tree is in the index, under a node with that path. |
| ProofBuilder.BuildProofNode | internal/engine/compose.go:66-98 | Building allocates fresh linked nodes that mirror the built tree, with parent and child pointers where the tree says and the index of the depth-first order. |
| ProofBuilder.CaptureVersionVector | internal/engine/compose.go:36-48 | The receipts list the root's path and every other named live path of the graph under its current hash, and nothing else. |
| ProofBuilder.ComposeProof | internal/engine/compose.go:9-64 | In-place composition gives linked nodes whose states, value, receipts and index are those of the value-level composition, so the freshness theorems are about it; an unknown path gives no proof. |
| FrontierSpec.AfterInv | internal/storage/sharded_frontier.go:82-137 | After every run of appends, evictions and sweeps, resident atoms are genuine, under their own path, with clocks of their own. |
| FrontierSpec.AppendChangesIff | internal/storage/sharded_frontier.go:96-137 | An append leaves the residents alone exactly when the resident has the same content and deadline, and otherwise installs an atom with a new hash. |
| FrontierSpec.HashStaysIffUntouched | internal/storage/sharded_frontier.go:99-118 | A resident's hash is still resident later if and only if no content-changing append, eviction or sweep touched the path in between; a same-content append does not. |
| FrontierSpec.VerifiesIffNothingChanged | internal/storage/sharded_frontier.go:297-339 | `VerifyVersionVector` holds exactly when `FindChangedPaths` is empty. |
| FrontierSpec.VersionVectorExact | internal/storage/sharded_frontier.go:297-339 | Version vectors are exact and free of ABA: captured at one point of any run, a vector verifies later if and only if nothing touched a listed path since and none of the captured atoms expired. |
| FrontierSpec.ChildrenAreOlder | internal/storage/sharded_frontier.go:82-130 | If compositions name only minted atoms, every composed hash that names a resident names one with a smaller clock, in every reachable state. |
| FrontierSpec.ShardedRefines | internal/storage/sharded_frontier.go:82-173 | Without ceiling evictions the sharded cache refines a plain last-write map from path to content and deadline. |
| FrontierSpec.SingleRefines | internal/storage/frontier_cache.go:112-239 | So does the single-lock cache, which installs every append. |
| FrontierSpec.CachesAgree | internal/storage/sharded_frontier.go:82-380 | The sharded cache, the single-lock cache and the plain map answer every read with the same content and deadline, and sweeps at any points of either run are unobservable. |
| Interleaving.RunInv | internal/storage/sharded_frontier.go:82-137 | In every interleaving of mint, apply and remove on one path, the resident is what applying the atoms one after the other gives. |
| Interleaving.ClockNeverGoesBack | internal/storage/sharded_frontier.go:96-118 | While the path stays resident its logical clock never decreases, in every interleaving. |
| Interleaving.HighestWins | internal/storage/sharded_frontier.go:96-137 | In every interleaving without a dedup, the resident is the highest-clock atom applied since the last removal. |
| Interleaving.LastWriteShows | internal/storage/sharded_frontier.go:96-137 | If atoms are applied in clock order, the resident always shows the content of the last write. |
| Interleaving.NewestShownIff | internal/storage/sharded_frontier.go:96-137 | Exact condition: the path has shown the newest applied content ever since its last removal if and only if no installed atom has a clock below one applied before it and deduplicated away. |
| Interleaving.NewestWriteCanBeLost | internal/storage/sharded_frontier.go:96-118 | The condition can fail: the newest write repeats the resident's value and is dropped, then an older write of another value arrives late and is installed over it. |
| FrontierReads.CacheFrontiersAbaFree | internal/storage/sharded_frontier.go:82-380 | The live frontiers along any sequential cache run, with evictions, expiry and sweeps, are free of ABA. |
| ProofRuns.KeptSteps | internal/engine/incremental.go:27-99 | If every node with children is live and holds a composition at each read, every read of a run comes to every change. |
| FrontierReads.CachedReadsNeverStale | internal/engine/incremental.go:27-99 | No stale reads over a cache: whatever appends, evictions and sweeps run between reads, if the compositions of the tree are in place at each earlier read, a read whose receipt paths are live answers the plain value of the tree at that moment. |
| FrontierReads.ColdCompositionTerminates | internal/engine/compose.go:66-98 | Cold composition terminates in every reachable state of a frontier cache if compositions name only atoms that exist already. |
| FrontierShard.TouchOk | internal/storage/sharded_frontier.go:232-248 | Moving a path to the front keeps the shard invariant: duplicate-free recency list over the resident paths, hash index the exact inverse of resident hashes, bytes the sum of the entries. |
| FrontierShard.DropOk | internal/storage/sharded_frontier.go:193-210 | Taking a path out of all five structures keeps the shard invariant. |
| FrontierShard.InstallOk | internal/storage/sharded_frontier.go:119-137 | Putting a new resident into all five structures keeps the shard invariant. |
| ShardedCache.ShardedFrontierCache.constructor | internal/storage/sharded_frontier.go:41-60 | A new cache is empty and valid; a limit that is not positive means 4 GiB. |
| ShardedCache.ShardedFrontierCache.Mint | internal/storage/sharded_frontier.go:82-94 | Minting ticks the clock and yields a genuine atom that may be applied later, and touches no resident. |
| ShardedCache.ShardedFrontierCache.Apply | internal/storage/sharded_frontier.go:96-137 | The locked half installs, deduplicates or discards as specified, returns the hash of the atom then resident, keeps shard placement, the five structures and the global byte counter right, and moves the path to the front of its recency list unless the atom was outdated. |
| ShardedCache.ShardedFrontierCache.AppendAtom | internal/storage/sharded_frontier.go:82-149 | The locked half leaves the specified residents, with the path at the front of its recency list and every other list as it was. Below 9/10 of the limit that is the outcome; from there on entries go from the back of exactly those lists, fairly and no further than 8/10 of the limit asks. Total bytes end below 9/10 or at most at 8/10 of the limit. |
| DedupRuns.AppendShown | internal/storage/sharded_frontier.go:87-137 | An append shows expression, path, deadline, time and newest clock as written, unless the resident has the same bytes and deadline; then it changes nothing. |
| DedupRuns.OverwriteShownIff | internal/storage/sharded_frontier.go:111-118 | After any run, of two constants written at a path with one deadline the second is shown if and only if its bytes differ from the first. |
| DedupRuns.PushShownIff | internal/protocol/resp3/extended.go:236-268 | After any run, a push onto a list is shown if and only if what is pushed has bytes. |
| DedupRuns.EmptyPushIsLost | internal/protocol/resp3/extended.go:236-268 | A push of the empty string is lost: the list reads as before. |
| DedupRuns.FieldShownIff | internal/protocol/resp3/extended.go:424-460 | After any run, a new member of a record is shown if and only if its key or value has bytes; the members of sets, written with the integer 1, always are. |
| DedupRuns.LastWriteExact | internal/storage/sharded_frontier.go:82-178 | Where the constants written at a path are told apart by their bytes, as within one scalar kind, a read answers expression and deadline of the last write until that deadline, and nothing after it. |
| DedupRuns.OneKindToldApart | internal/storage/sharded_frontier.go:151-178 | Runs that write one scalar kind at a path meet that condition. |
| ByteAccounting.EstimateExact | internal/storage/frontier_cache.go:88-110 | An atom counts the length of its path and of its string or byte payload beside 236 bytes for a constant, 244 for a byte string and 268 for any other expression. |
| ByteAccounting.StringWriteCounts | internal/storage/sharded_frontier.go:119-137 | A string longer by n raises the counter by n; a string at a new path raises it by 236 and the two lengths. |
| ByteAccounting.CounterIsResidents | internal/storage/sharded_frontier.go:119-137 | In every valid sharded cache the counter is the sum of the estimates over the residents, in whatever order they are listed, and so at least all path and payload lengths and 236 bytes each. |
| ByteAccounting.SingleCounterIsResidents | internal/storage/frontier_cache.go:165-215 | The same of the single-lock cache. |
| ShardedCache.ShardedFrontierCache.FindVictim | internal/storage/sharded_frontier.go:175-192 | The scan finds a shard with the most bytes. |
| ShardedCache.ShardedFrontierCache.EvictToTarget | internal/storage/sharded_frontier.go:175-230 | For any target eviction terminates at or below it or with nothing left; it keeps a most-recent-first prefix of every recency list, stops as soon as the target is met, and no shard ends with more bytes than any victim held before its last eviction. |
| ShardedCache.ShardedFrontierCache.GetCurrent | internal/storage/sharded_frontier.go:232-248 | A read answers the live resident or nothing, changes no resident, and moves a hit to the front of its shard's recency list with the order of the others and all other shards as before. |
| ShardedCache.ShardedFrontierCache.GetAtom | internal/storage/sharded_frontier.go:250-275 | The scan of the shards finds a live resident with the hash, or there is none. |
| ShardedCache.ShardedFrontierCache.VerifyVersionVector | internal/storage/sharded_frontier.go:297-310 | The loop answers whether every receipt still holds. |
| ShardedCache.ShardedFrontierCache.FindChangedPaths | internal/storage/sharded_frontier.go:326-339 | The loop lists exactly the receipt paths that no longer hold, each once. |
| ShardedCache.ShardedFrontierCache.SweepExpired | internal/storage/sharded_frontier.go:345-380 | One sweep removes exactly the expired residents from all structures of all shards. |
| FrontierCache.FrontierCache.AppendAtom | internal/storage/frontier_cache.go:165-220 | The single-lock append installs always; from 9/10 of the limit on it evicts from the back of the list, no further than 8/10 of the limit asks. |
| FrontierCache.FrontierCache.GetCurrent | internal/storage/frontier_cache.go:222-239 | A read answers the live resident or nothing, changes no resident, and moves a hit to the front of the recency list. |
| FrontierCache.FrontierCache.CollectExpired | internal/storage/frontier_cache.go:112-136 | The first phase marks exactly the expired residents with their hashes. |
| FrontierCache.FrontierCache.DeleteMarked | internal/storage/frontier_cache.go:142-156 | The second phase removes exactly the residents that are still the marked atoms, whatever was appended in between. |
| FrontierCache.FrontierCache.SweepExpired | internal/storage/frontier_cache.go:112-163 | With nothing in between, the two phases remove exactly the expired residents. |
| FrontierCache.ConcurrentAppendSurvives | internal/storage/frontier_cache.go:142-156 | An atom appended between the two phases of a sweep survives it. |
| CrystalSpec.ReplayCurrent | internal/storage/crystal.go:96-118 | Replaying a log finds, for every path, the last atom written to it. |
| CrystalSpec.ReplayIndexes | internal/storage/crystal.go:96-118 | Replay puts exactly the atoms of the log into the hash indexes. |
| CrystalSpec.CompactedReplay | internal/storage/crystal.go:299-364 | Replaying the compacted log gives the same current atom for every path and the same clock as the full log. |
| CrystalSpec.OrderedUnique | internal/storage/crystal.go:299-364 | Two clock-ordered logs with the same atoms are equal, so sorting the live atoms determines the compacted log. |
| CrystalRuns.CurrentIsLastDurable | internal/storage/crystal.go:96-216 | In every run of appends, failed appends, evictions, compactions and restarts, the current atom of a path is, in memory and after replay, what the last durable append there asked for: expression, path, parents, time, nonce and deadline. |
| CrystalRuns.DepthExact | internal/storage/crystal.go:125-132 | The depth of an atom is one more than the deepest of its known parents, and zero where none is known. |
| CrystalRuns.ClockRecoversIff | internal/storage/crystal.go:96-197 | Recovery restores the logical clock if and only if no append has failed since the last durable append or restart. |
| CrystalRuns.CompactionRecovers | internal/storage/crystal.go:299-364 | After a compaction, recovery reproduces frontier, parents, depths, atoms and Merkle leaves of memory in every run, and the whole memory with its clock if and only if no append has failed since the last durable one or the last restart. |
| CrystalRuns.FailedAppendLosesATick | internal/storage/crystal.go:120-197 | The condition can fail: an append that fails after the log had caught up leaves recovery one tick behind. |
| CrystalRuns.AppendsAreReplayed | internal/storage/crystal.go:96-197 | A crystal that was only appended to holds in memory exactly what replaying its history gives. |
| CausalCrystal.SortedAliveIsCompacted | internal/storage/crystal.go:299-364 | The live atoms of memory sorted by clock are exactly the compacted log. |
| CausalCrystal.CausalCrystal.Recover | internal/storage/crystal.go:96-118 | The replay loop leaves the specified memory in all indexes and sets the clock. |
| CausalCrystal.CausalCrystal.AppendAtom | internal/storage/crystal.go:120-197 | After a durable append the current atom of the path has the given expression, parents, time, nonce and deadline, the next clock and the depth of its parents; a failed write leaves the indexes alone. Above 100000 atoms a tenth of them, or all that are not current, leave. |
| CausalCrystal.CausalCrystal.GetCurrentAtom | internal/storage/crystal.go:199-205 | The answer is the current atom of the specified memory. |
| CausalCrystal.CausalCrystal.EvictIfNeeded | internal/storage/crystal.go:397-432 | Eviction over the limit drops a tenth of the atoms, or all that are not current if those are fewer, in any iteration order, and none that is current. |
| CausalCrystal.CausalCrystal.Compact | internal/storage/crystal.go:299-364 | A quiescent compaction leaves the compacted log and exactly the memory that replaying it gives; a failed rewrite changes nothing. |
| CrystalReads.CrystalFrontiersAbaFree | internal/storage/crystal.go:120-216 | The frontiers along any history of the crystal are free of ABA, so the no-stale-reads theorem applies to it. |
| CrystalReads.CrystalLeafRun | internal/storage/crystal.go:120-216 | Along any history of leaf overwrites the store of that history is a run on which the three evaluators agree. |
| CrystalReads.MemoryLeafRun | internal/storage/crystal.go:120-216 | The memory of a crystal that is appended string constants and compositions, and from the first read on only leaves, is such a run at the moments of the reads. |
| ProofCache.LruExact | internal/engine/cache.go:42-75 | After any run of Get and Set, for any capacity, the resident keys are exactly the most recently touched distinct keys that fit, in order of recency, and each holds the proof last Set for it; a capacity below one works as one. |
| ProofCache.CacheShard.Get | internal/engine/cache.go:42-52 | A hit returns the entry's proof and moves its element to the front; a miss changes nothing; map and list keep describing the same elements. |
| ProofCache.CacheShard.Set | internal/engine/cache.go:54-75 | A known key is replaced in place and moved to the front; a new one evicts the oldest when full and is pushed to the front; map and list keep describing the same elements. |
| ProofCache.CacheShard.Delete | internal/engine/cache.go:77-86 | Exactly the key's entry leaves both structures. |
| InternSpec.SameIdIffDeeplyEqual | internal/core/intern.go:145-186 | Although comparison stops at child IDs, two interned IDs are equal if and only if the whole expressions behind them are. |
| InternSpec.DeepStable | internal/core/intern.go:34-62 | Interning more nodes never changes the expression behind an ID. |
| InternSpec.RunKeepsInv | internal/core/intern.go:34-62 | Every interleaving of read probes, locked re-checks and appends, over shards that lock independently, keeps shapes unique and children older. |
| InternSpec.InterleavedCallsAgree | internal/core/intern.go:34-62 | In every interleaving, two finished calls hold the same ID if and only if the expressions they asked for are deeply equal. |
| InternSpec.ResultsAreFinal | internal/core/intern.go:34-62 | No later step changes a finished call's ID or the expression behind it. |
| InternTable.SameIdIffEqualOverRuns | internal/core/intern.go:34-62 | Over every sequence of calls with interned children, two results have the same ID if and only if the expressions are deeply equal. |
| InternTable.ExprEqual | internal/core/intern.go:145-186 | Kind by kind and atom by atom, the comparison decides equality of shapes. |
| InternTable.Scan | internal/core/intern.go:40-46 | The candidate loop finds an equal entry of the bucket or there is none. |
| InternTable.InternTable.Intern | internal/core/intern.go:34-62 | A call returns the ID of the equal known node, changing nothing, or adds the node under the next ID; buckets keep holding exactly the known nodes, whatever the hash function. |
| InternTable.InternTable.InternLocked | internal/core/intern.go:48-61 | The locked half alone does the same from any state another caller left. |
| HashRingSpec.SortKeysOk | internal/cluster/hashring.go:37-37 | Sorting gives an ascending permutation. |
| HashRingSpec.OneOwner | internal/cluster/hashring.go:54-66 | Every key has exactly one owner: the cyclic successor of its hash exists and is unique, and an empty ring answers the empty string. |
| HashRingSpec.AddMovesOnlyToNew | internal/cluster/hashring.go:28-38 | On every ring, collisions included, adding a node leaves a key's owner or makes it the node, and the latter exactly when one of the node's points is at least as near clockwise as every old point. |
| HashRingSpec.RemoveMovesOnlyOwn | internal/cluster/hashring.go:40-52 | On every sorted ring, removing a node changes the owner of that node's keys only. |
| HashRingSpec.AddKeepsRooted | internal/cluster/hashring.go:28-38 | On every ring, collisions included, addition keeps the points sorted and every owner entry on a point of the ring. |
| HashRingSpec.RemoveKeepsRooted | internal/cluster/hashring.go:40-52 | So does removal. |
| HashRingSpec.RemoveDanglesIffDoubled | internal/cluster/hashring.go:40-52 | Removal takes a named node off the owner table for good, yet leaves a point without an owner exactly where the node's point occurred twice or one dangled before. |
| HashRingSpec.RemoveUndoesAddIff | internal/cluster/hashring.go:28-52 | Removing a node just added restores the ring exactly if and only if its virtual hashes are pairwise distinct and none was owned; for the empty name the exact condition differs and is given. |
| HashRingSpec.SameMembersSameRing | internal/cluster/hashring.go:28-52 | With collision-free points, any two runs of joins and leaves that end with the same members end with the same ring. |
| HashRingSpec.LabelInjective | internal/cluster/hashring.go:30-34 | Virtual-node labels determine node and index, whatever characters node names hold. |
| HashRingSpec.SeparatedHashes | internal/cluster/hashring.go:28-38 | A hash without collisions among the labels gives each node distinct points, disjoint from those of another node. |
| HashRing.HashRing.constructor | internal/cluster/hashring.go:21-26 | A new ring is empty, with 128 virtual nodes unless a positive number is asked for. |
| HashRing.HashRing.Add | internal/cluster/hashring.go:28-38 | The append loop and the sort leave the specified ring for the node's virtual hashes. |
| HashRing.HashRing.Remove | internal/cluster/hashring.go:40-52 | Filtering within the array being read leaves the specified ring: the write position never overtakes the read position. |
| HashRing.HashRing.Get | internal/cluster/hashring.go:54-66 | The binary search with wrap-around answers the owner at the cyclic successor of the key's hash, and the empty string on an empty ring. |
| HashRing.ToDecimal | internal/cluster/hashring.go:68-80 | Filling the 20-slot buffer from its end yields the decimal numeral of any 64-bit integer, and nothing for a negative one. |
| Decimals.ParseDecimal | internal/cluster/hashring.go:68-80 | Reading a decimal numeral back gives the number it was printed from. |
| CdcSpec.ChangesNothingIff | main.go:326-361 | A delivery leaves all residents as they are exactly when it is late, an echo, without a value for the path, or has the resident's bytes and deadline; otherwise the path gets a new hash. |
| CdcSpec.DeliveryWrites | main.go:329-358 | Over any resident: a delete shows the tombstone without deadline. A value that is neither late nor an echo of a live resident is shown, up to its bytes, with the deadline of the live resident it replaces, and without one where none is live. No other path changes. |
| CdcSpec.ValueOfColumn | main.go:336-339 | The value taken is that of the column after the last colon of the path. |
| CdcSpec.DeadlineSurvives | main.go:342-354 | Whatever a client wrote, and whatever values the stream delivers before its deadline, in any order and late ones included, the path keeps that deadline. |
| CdcSpec.RedeliveryChangesNothing | main.go:343-354 | Re-delivering any list of non-delete events that are stamped before the live resident or repeat its printed value changes nothing, the clock included. |
| CdcSpec.ShownIff | main.go:333-357 | A delivery shows what the event asks for if and only if it is shown already, or the event is not late and not one of the three tombstone look-alikes; a running deadline goes on running, unless the event is a delete. |
| CdcSpec.StreamConverges | main.go:326-361 | Over any strings and tombstones with any deadlines, after any stream whose value events are in order, with deletes stamped at any time and without look-alike values, and with residents lost to the memory ceiling at any points, every path holds exactly what the last change to it that was not lost asked for, with the deadline that was running. |
| CdcSpec.LookalikesAreLost | main.go:333-354 | The values "{}" and "\0" written over a tombstone are lost, and so is a delete over "\0", each in a stream that is in order. |
| CdcApplier.ApplyPath | main.go:329-358 | One path of an event does to the sharded cache what the delivery specifies, less what the ceiling evicts. |
| CdcApplier.ApplyEvents | main.go:326-361 | The loop over events and paths leaves the sharded cache as a run of the stream model: the scheduled deliveries in order, with evictions in between. |
| CdcApplier.ChannelConverges | main.go:326-361 | For a channel of events that is in order and without look-alikes, over whatever strings and tombstones the cache holds, a path that eviction never took shows the last change delivered for it, with the deadline that was running. |
| Decimals.AtoiDecimal | internal/protocol/resp3/server.go:362-376 | `strconv.Atoi` reads a printed length back, and only lengths below 2^63. |
| Decimals.AtoiSigned | internal/protocol/resp3/server.go:361-376 | It reads a numeral with either sign, within 64 bits. |
| Decimals.AtoiRefuses | internal/protocol/resp3/server.go:361-376 | It refuses everything else: no digits, or anything that is no digit after the sign. |
| RespSpec.LineReadsBack | internal/protocol/resp3/server.go:350-354 | A line reads back without its end and leaves exactly what follows, whether it ends in LF, CR LF or more carriage returns. |
| RespSpec.EitherEndReadsBack | internal/protocol/resp3/server.go:350-354 | Written out: with LF alone and with CR LF the same line is read and the same bytes are left. |
| RespSpec.NullReadsEmpty | internal/protocol/resp3/server.go:379-382 | A null argument reads as the empty string. |
| RespSpec.NoArgument | internal/protocol/resp3/server.go:371-378 | Where no argument begins, or its length is no number or below -1, that is reported and only the line is consumed. |
| RespSpec.NoArray | internal/protocol/resp3/server.go:356-364 | A blank line is no command; an array header without a positive length is refused. |
| RespSpec.BulkReadsBack | internal/protocol/resp3/server.go:368-386 | One argument of arbitrary bytes, with any line end after its length, reads back within 1048576 bytes and is refused above it, whatever two bytes follow it. |
| RespSpec.CommandReadsBackIff | internal/protocol/resp3/server.go:349-389 | With any line end a command reads back as itself, leaving exactly the bytes after it, if and only if it has 1 to 10000 arguments of at most 1048576 bytes each; otherwise it is refused by a length check. |
| RespSpec.PipelineReadsBack | internal/protocol/resp3/server.go:349-389 | Any concatenation of encoded commands is read back command by command, leaving exactly the remaining bytes. |
| RespSpec.TruncatedReadsAsEof | internal/protocol/resp3/server.go:349-389 | Every proper prefix of an encoded command reads as end of input, never as a shorter command. |
| RespSpec.InlineReadsBack | internal/protocol/resp3/server.go:350-396 | A line of words, with any blanks before, between and after them and any line end, reads back as those words, or is refused above 10000 of them. |
| RespReader.Reader.ReadLine | internal/protocol/resp3/server.go:350-354 | Consuming up to the newline and trimming the line end is the specified line and remainder. |
| RespReader.Reader.ReadArguments | internal/protocol/resp3/server.go:365-388 | The argument loop returns all arguments or the first failure and consumes exactly what the specification does. |
| RespReader.Reader.ReadCommand | internal/protocol/resp3/server.go:349-397 | The reader answers, and consumes, exactly as the specified function of its unread input. |

## Left out

- Hash collisions: SHA3 is an injective constructor over its input, and a 32-byte digest is one symbol of that input.
- Integer widths: logical clocks, expression IDs and byte counters are unbounded; 2^64 wrap-around is not modelled.
- Combinator.ApplySound: the S rule may run forever, so `applyCombinator` is modelled with a bound on its depth and the statement is about runs that answer.
- Evaluators.MemoisedReadAgrees: `applyCombinator` enters the evaluators as a parameter, the same for all three.
- ProofEngine.MaterializedProof.ReduceDirty: the unrolled loops for up to three children are modelled as the general loop, and the Merkle flags of a node, which no read consults, are left out.
- ProofBuilder.ComposeProof: entered only where building terminates; where the first evaluation fails the source goes on to hash a nil value, which is not modelled.
- ProofLimits.FreshIffTracked: speaks of runs that overwrite leaves with constants; runs that change compositions or hold other expressions are those of `NoStaleReads` and `NextReadsExactIff`.
- HiddenChanges.NextReadsExactIff: about proofs of distinct named paths, as `DistinctIsComposed` makes them; where a path occurs twice, freshness is that of `FreshIffTracked`.
- A proof's frontier is read at one instant per call; writers racing with a single read are not modelled.
- ShardedCache.ShardedFrontierCache.AppendAtom: shards are records held in a sequence and locks are not modelled in the class, so aliasing between shards and interleaving inside one call are not captured there; the interleavings of mint and apply are those of `Interleaving`.
- ShardedCache.ShardedFrontierCache.EvictToTarget: the 90 and 80 per cent marks are exact fractions instead of 64-bit floats, and telemetry is left out.
- FrontierCache.FrontierCache.SweepExpired: the ticker is left out; one call is one tick.
- CausalCrystal.CausalCrystal.Compact: runs with nothing beside it; appends during a compaction, the log file itself and its JSON coding are left out, and the log is a sequence of atoms.
- `CausalCrystal.sweepExpired` and path domains: they add nothing to what is current.
- ProofCache.CacheShard.Get: one shard; the choice of the shard by hash and the locks are left out, and proofs are opaque references.
- InternTable.InternTable.Intern: string constants only; other constants are compared by `Serialize` but hashed by another function, and `EEmbed`, `EResonate` and the pooled headers of `InternExpr` are left out.
- HashRing.HashRing.Add: `sort.Slice` is a library routine, modelled by a sort with the same result; xxhash is an arbitrary function to 64 bits.
- CdcApplier.ApplyEvents: reads the cache that it writes, where a write-through store would fall back on its database; reads the clock once per path, and leaves logging and replication-lag telemetry out; printing of values the applier never writes is an arbitrary function.
- RespSpec.InlineReadsBack: `strings.Fields` splits at ASCII white space only; Unicode spaces in inline commands are not modelled.
- `VFloat`, vectors, `EEmbed` and `EResonate`: opaque expressions with no evaluation rule.
- `WriteThroughStore`, `PostgresStore`, the PostgreSQL and MySQL listeners: input and output of foreign systems.
- Snapshots, the write-ahead file format and JSON decoding: file fidelity, not protocol logic.
- Command handlers, key types, transactions, access control, TLS, telemetry and configuration: many easy cases.
- Merkle roots of proofs: no read consults them.
