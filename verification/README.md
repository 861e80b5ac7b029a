# Verified model of the RÚNATAL reader, the audit chain and publication order

This project models, in Dafny, four parts of the astrid runtime and proves what they promise.

1. **Content identity.** The FastCDC chunker, the boundary verifier that looks at one chunk and two bytes, and
   the 128-way File tree with its memoised summaries (`FastCdc`, `ContentTree`, `ContentIdentity`,
   `ContentCompleteness`, `FileIdentity`, on the object model in `Objects` and the bit operations in `Bits`). The
   local tree check equals chunking the whole file, and the identity of a File depends on its profile and bytes
   alone and determines them up to a hash collision.
2. **Log recovery and its indexes.** The hosted volume: its records and what they do (`VolumeRecords`,
   `VolumeMutations`, `VolumeReplay`, `VolumeHistory`), its extent pages and commit catalogues (`ExtentIndex`,
   `VolumeCheckpoint`, `VolumeValidators`) and what those are as bytes (`RegionNames`, `ExtentForms`,
   `CatalogueForms`); durable frames (`Frames`); the key-value projections (`KvValues`, `KvPages`, `KvTree`, `KvDelta`,
   `KvChain`, `KvLegacy`, and `KvMeaning` for what their shared parts mean); the ownership closure (`Closure`); the
   physical codecs (`PhysicalFields`, `PhysicalRoots`, `PhysicalProfiles`, `PhysicalRepresentations`,
   `PhysicalMapNodes`, `PhysicalCodec`); the physical map walk, what it accepts and the order of its keys
   (`PhysicalMap`, `PhysicalMapForms`, `PhysicalMapOrder` over `KeyTrees`, with `Marks` for visit-once bookkeeping)
   and the two journals (`RootJournal`, `StateJournal`, `StateHistory`).
3. **The audit chain.** Appending under concurrency, as interleaved steps over a durable store (`AuditAppend`), with
   the progress of a call left alone (`AuditProgress`), the streaming retention scan with its signed receipt
   (`Retention`), and the commitment to host calls (`HostCall`).
4. **Publication order.** The layered topological sort of workspace packages (`Publication`).

`Bytes` holds bytes, integers on the wire and the byte-string order; `Outcomes` holds `Option` and `Result`. Every
exception or error return of the source is `Rejected`; the model keeps which inputs fail, not the message.

How the pieces are stated. Loops and in-place state are methods proved against specification functions or
predicates, and most decoders are *exact*: they accept if and only if the bytes are the encoding of a valid value,
and return that value. Hash functions, the gear table, JSON encodings and signatures are parameters. No property
assumes a collision-free hash in general: identity results hold for any hash. When Files with one identity differ,
`FileIdentity.IdentityBindsBytes` returns a colliding pair that was hashed for them; when two different call lists
match one summary, `HostCall.SummaryBindsCalls` returns one of which each input was hashed for one of the lists.
`HostCall.SummaryDeterminesCalls` is its corollary for hashes without such a pair. What is assumed of the other
parameters is written where it is used: signatures verify under the key that made them
(`Retention.SignsVerify`), and, for attributed calls only, the JSON of two different actions differs
(`HostCall.JsonIsFaithful`).

Where the code decides something its surroundings do not say, the model follows the code:

- A receipt anchors the first entry it retains iff the policy cannot keep the whole chain or the chain starts at
  the zero hash (`Retention.ReceiptAnchorsSuffix`), so a second prune under the same policy signs a receipt that
  does not anchor (`Retention.SecondReceiptDoesNotAnchor`, with an input in `Retention.RepeatedPruneExample`).
- Over a backend that ignores the expected head, the per-chain lock protects a chain iff at most one log writes it
  (`AuditAppend.SafeIffOneWriter`); `AuditAppend.TwoBlindLogsFork` gives a forking run for any two logs.
- The File reader refuses canonical trees whose full children exceed its 64-bit bound;
  `ContentCompleteness.BuiltFilesAreAccepted` states the condition exactly, and
  `ContentCompleteness.OutgrownFileExample` gives a file that breaks it under every gear table.
- The physical map validator accepts maps whose keys are out of order (`PhysicalMapOrder.OutOfOrderMap`);
  `PhysicalMapOrder.KeysAscendIffNested` says exactly which accepted maps are in order.

To check everything: `dafny verify dfyconfig.toml`.

## Model

| member | source | states |
|---|---|---|
| `FastCdc.MaskIndices` | scripts/runatal_v1_fastcdc.py:104-140 | Every valid profile, after normalization, indexes both masks inside the 26-entry table |
| `FastCdc.MaskBits` | scripts/runatal_v1_fastcdc.py:11-38 | From index 5 on, the mask at index i of the table has exactly i bits set, all below bit 63 |
| `FastCdc.ProfileMask` | scripts/runatal_v1_fastcdc.py:123-134 | Before the average a position's mask is the one with one bit more than the average's binary logarithm, from there on the one with one bit fewer |
| `FastCdc.GearHashIsSum` | scripts/runatal_v1_fastcdc.py:139-159 | The gear hash is the sum of the seeded gear values of the bytes seen, each doubled once for every later byte, modulo 2^64 |
| `FastCdc.RollIsGear` | scripts/runatal_v1_fastcdc.py:137-159 | Rolling two bytes at a time over doubled values keeps exactly the gear hash |
| `FastCdc.HitIsCutPoint` | scripts/runatal_v1_fastcdc.py:137-159 | The tests of the doubled and of the plain fingerprint are the one test that the gear hash misses every mask bit |
| `FastCdc.CutIsFirstCutPoint` | scripts/runatal_v1_fastcdc.py:123-160 | The cut is the first cut point of the gear hash behind the minimum, or the source or maximum length if there is none |
| `Bits.XorBits` | scripts/runatal_v1_fastcdc.py:139-158 | Exclusive or, bit by bit |
| `Bits.DisjointBits` | scripts/runatal_v1_fastcdc.py:142-158 | A masked value is zero iff value and mask have no set bit in common |
| `FastCdc.CutIndexed` | scripts/runatal_v1_fastcdc.py:123-160 | The pairwise two-phase scan with halved indices returns the first position behind the minimum at which the gear hash misses every bit of that position's mask, or the length that ends the scan, for odd minimums too |
| `FastCdc.ChunkLengths` | scripts/runatal_v1_fastcdc.py:182-197 | The chunking loop returns the iterated cuts, and a single length for a source no longer than the maximum |
| `FastCdc.ValidateBoundaries` | scripts/runatal_v1_fastcdc.py:200-209 | Accepts exactly when every adjacent pair passes the local boundary check and the last chunk is its own cut |
| `FastCdc.HitLocal` | scripts/runatal_v1_fastcdc.py:123-160 | Whether a position is a cut point depends on the bytes up to that position only |
| `FastCdc.FirstHitLocal` | scripts/runatal_v1_fastcdc.py:123-160 | Two sources that agree up to the first hit of one have the same first hit |
| `FastCdc.CutExtends` | scripts/runatal_v1_fastcdc.py:123-165 | A cut strictly inside a source is unchanged by any extension of the source |
| `FastCdc.CutFromPrefix` | scripts/runatal_v1_fastcdc.py:123-179 | A cut c of a longer source is reproduced from its first c + min(2, rest) bytes, odd minimums included |
| `FastCdc.BoundaryExact` | scripts/runatal_v1_fastcdc.py:167-179 | The left chunk and at most two bytes of the right decide a boundary, whatever follows those two bytes |
| `FastCdc.BoundariesAreCuts` | scripts/runatal_v1_fastcdc.py:167-209 | The boundary conditions on a chunk list hold exactly when iterated cutting of the concatenation produces that list |
| `FastCdc.LocalVerifierExact` | scripts/runatal_v1_fastcdc.py:182-209 | For a chunk list with positive total that is one chunk iff the total is at most the maximum, validate_boundaries accepts iff the lengths are chunk_lengths of the concatenation |
| `ContentTree.DecodeFile` | scripts/runatal_v1_reader.py:148-189 | An accepted File header has a valid profile, and a non-empty File is one chunk iff it is no longer than the maximum |
| `ContentTree.CanonicalTreeDepth` | scripts/runatal_v1_reader.py:192-202 | The loop returns the least depth whose capacity of 128^depth holds all chunks |
| `ContentTree.TreeDepthUnique` | scripts/runatal_v1_reader.py:192-202 | Only one depth is canonical for a chunk count |
| `ContentTree.DecodeTree` | scripts/runatal_v1_reader.py:221-279 | The child loop accepts exactly when every child passes and the byte and chunk sums equal the header; its running overflow checks never decide |
| `ContentTree.ShapeTotals` | scripts/runatal_v1_reader.py:221-352 | A well-shaped subtree has exactly as many leaves and bytes as its parent declares |
| `ContentTree.AllBoundariesJoin` | scripts/runatal_v1_reader.py:282-352 | Two correctly cut chunk lists join correctly iff the single boundary between them is canonical |
| `ContentTree.WalkStep` | scripts/runatal_v1_reader.py:324-346 | One more child and one more boundary check extend the checked prefix of the node's leaves |
| `ContentTree.WalkFails` | scripts/runatal_v1_reader.py:324-346 | A failed boundary check between neighbouring subtrees condemns the whole subtree's leaf list |
| `ContentTree.SummaryMemo.ValidateContentBoundary` | scripts/runatal_v1_reader.py:282-289 | The memoised boundary check answers what the unmemoised one answers, and keeps every memo entry true |
| `ContentTree.SummaryMemo.BranchSummary` | scripts/runatal_v1_reader.py:324-346 | The child loop accepts a node exactly when the node's flattened leaves pass every boundary check, and returns its first two bytes and last chunk |
| `ContentTree.SummaryMemo.ContentSummary` | scripts/runatal_v1_reader.py:292-352 | The memoised recursive walk accepts a subtree exactly when it is well shaped and its flattened leaves pass every boundary check |
| `ContentTree.ValidateFile` | scripts/runatal_v1_reader.py:355-370 | Accepts exactly the Files whose flat leaf list satisfies the File rule, whatever the memo tables hold on the way |
| `ContentTree.AcceptedFilesAreChunkings` | scripts/runatal_v1_reader.py:148-370 | A well-shaped File has chunk_count leaves summing to logical_bytes, and is accepted iff the leaf lengths are chunk_lengths of the whole content |
| `ContentIdentity.NodeIsBuilt` | scripts/runatal_v1_reader.py:221-352 | A well-shaped subtree of a verified store is the canonical tree over its leaves, and so is its identity |
| `ContentIdentity.SplitConcat` | scripts/runatal_v1_reader.py:292-370 | Cutting a concatenation at the chunk lengths gives back the chunks |
| `ContentIdentity.AcceptedFilesAreCanonical` | scripts/runatal_v1_reader.py:95-370 | Every accepted File record is the record the builder writes for its profile and bytes |
| `ContentIdentity.ContentIdentityIsCanonical` | scripts/runatal_v1_reader.py:95-370 | Two accepted Files with the same profile and bytes, in any two verified stores, have the same record, the same identity, the same leaves, and equal node records under equal identities at every level of their trees |
| `ContentIdentity.TreesAgree` | scripts/runatal_v1_reader.py:221-352 | Equal leaves below one identity force equal records and identities at every level, in any two verified stores |
| `ContentCompleteness.BuiltShape` | scripts/runatal_v1_reader.py:205-279 | The canonical subtree over chunks a chunker can produce is well shaped and has exactly those leaves |
| `ContentCompleteness.AcceptedTreesFit` | scripts/runatal_v1_reader.py:205-279 | Every accepted multi-chunk tree satisfies the reader's 64-bit size bound on its full children |
| `ContentCompleteness.ChunksAreChunking` | scripts/runatal_v1_reader.py:355-370 | The chunks of any byte string are what the File verifier expects of leaves |
| `ContentCompleteness.BuiltFilesAreAccepted` | scripts/runatal_v1_reader.py:148-370 | The canonical File of a byte string is accepted iff its chunk count satisfies the reader's 64-bit bound, a condition on profile and count alone |
| `ContentCompleteness.ManyChunksDoNotFit` | scripts/runatal_v1_reader.py:205-279 | With sixteen-mebibyte chunks allowed, every file of more than 128^6 chunks breaks that bound |
| `ContentCompleteness.OutgrownFileExample` | scripts/runatal_v1_reader.py:205-279 | Whatever the gear table, there is a profile and a file of 64-bit length whose own canonical objects the reader refuses in every store |
| `FileIdentity.StoredTreeIsHeld` | scripts/runatal_v1_reader.py:221-352 | A verified store that holds a well-shaped subtree holds every node of the built tree over its leaves |
| `FileIdentity.AcceptedIffBuilt` | scripts/runatal_v1_reader.py:95-370 | In a verified store a record is accepted as the File of a profile and bytes iff it is the record built from them, every node of the built tree is stored, and the tree stays inside 64 bits |
| `Bytes.LeJoin` | scripts/runatal_v1_reader.py:74-75 | Little-endian integers: the bytes behind the first n weigh 256^n times their own value |
| `Bytes.BeReverses` | scripts/runatal_v1_reader.py:243-243 | Big-endian bytes are the little-endian ones in reverse |
| `FileIdentity.MaterialInjective` | scripts/runatal_v1_reader.py:95-117 | The hashed bytes of a record determine the record |
| `FileIdentity.IdentityBindsBytes` | scripts/runatal_v1_reader.py:95-370 | Two accepted Files with one identity, in any two verified stores, have the same profile and bytes, or two different inputs hashed for them collide |
| `AuditAppend.StepGrows` | crates/astrid-audit/src/log.rs:661-739 | No step of any call removes or reorders a stored entry |
| `AuditAppend.BooksKept` | crates/astrid-audit/src/log.rs:661-769 | Every step keeps: stored entries belong to the one call that committed them, and every head a call or cache remembers is genesis or a stored entry |
| `AuditAppend.BooksAlways` | crates/astrid-audit/src/log.rs:661-769 | The same bookkeeping holds after every schedule of any number of logs and calls, with failures and cancellations |
| `AuditAppend.IdsUnique` | crates/astrid-audit/src/log.rs:661-739 | An entry id names at most one stored entry over all chains |
| `AuditAppend.SwapLinks` | crates/astrid-audit/src/log.rs:681-739 | A successful swap appends behind exactly the entry the new one was signed against |
| `AuditAppend.LinkedAlways` | crates/astrid-audit/src/log.rs:661-769 | Every chain is linear from the zero hash after every schedule over a compare-and-swap backend |
| `AuditAppend.NoForkWithSwap` | crates/astrid-audit/src/log.rs:661-769 | With an atomic compare-and-swap, no interleaving of appends with stale caches, retries and cancellations forks a chain |
| `AuditAppend.CallsStoreAtMostOnce` | crates/astrid-audit/src/log.rs:661-739 | In every run over either backend an Ok id names exactly one stored entry of its chain, a call stores at most one entry, and a call stores one iff one of its commits appended, so none before its commit point or when it ran out of attempts |
| `AuditAppend.ChainIsAppends` | crates/astrid-audit/src/log.rs:661-739 | In every run over either backend a chain is exactly the list of entries that successful commit steps appended to it, in the order of the schedule |
| `AuditAppend.StoresIffAppended` | crates/astrid-audit/src/log.rs:661-739 | A call stores an entry iff one of its own commits appended, however the call ended: completed, failed or cancelled |
| `AuditAppend.AttemptsAlways` | crates/astrid-audit/src/log.rs:686-694 | In every run a call attempts at most eight swaps, and reports exhaustion only after the eighth |
| `AuditAppend.LocksAlways` | crates/astrid-audit/src/log.rs:675-681 | In every run each chain lock is held by exactly the one call that is past it |
| `AuditProgress.HeadIsLast` | crates/astrid-audit/src/log.rs:714-738 | A head a call knows is the durable one iff no entry stands behind it |
| `AuditProgress.TallyAlways` | crates/astrid-audit/src/log.rs:681-739 | In every run each attempt of a call ends stored, in a failed swap or in a refusal, and for every failed swap another entry stands behind the head the call first signed against |
| `AuditProgress.ExhaustedWasOutrun` | crates/astrid-audit/src/log.rs:686-694 | A call gives up only after eight failed swaps or refusals by the store, and other calls' entries stand behind its first head, one for each failed swap, all but one of them appended since it first signed |
| `AuditProgress.SuccessWasOutrun` | crates/astrid-audit/src/log.rs:681-739 | A call that succeeds had at most as many failed swaps as entries stand between the head it first signed against and its own entry |
| `AuditProgress.UndisturbedCallsSucceed` | crates/astrid-audit/src/log.rs:681-739 | A call that meets no error, refusal or cancellation, and on whose chain nobody else appended since it first signed, ends Ok, after at most one failed swap, and none unless its first head was already an old one |
| `AuditProgress.FinishesAlone` | crates/astrid-audit/src/log.rs:661-739 | From every reachable state a call whose lock is free can finish by its own steps: it stores one entry linked to the chain's head, in one attempt, or in two if its log's cached head was an old one |
| `AuditProgress.EndedCallsBlockNobody` | crates/astrid-audit/src/log.rs:700-722 | Wherever a call is cancelled or fails, before or after its commit, the next call on the same chain of the same log still finishes with its entry linked to what is then the head |
| `AuditAppend.FreshKept` | crates/astrid-audit/src/log.rs:681-739 | With one log writing a chain its cached head is absent or is the durable head whenever the lock is free, across cancellation before or after the commit, whatever other chains do |
| `AuditAppend.NoForkWithOneLog` | crates/astrid-audit/src/log.rs:681-739 | Over the default backend that ignores the expected head, no schedule in which one log writes a chain forks that chain |
| `AuditAppend.TwoBlindLogsFork` | crates/astrid-audit/src/storage.rs:61-79 | Any two logs over the default backend can fork any chain |
| `AuditAppend.SafeIffOneWriter` | crates/astrid-audit/src/storage.rs:61-79 | Over the default backend every run in which given logs write a chain keeps it linear iff they are at most one |
| `Retention.AfterResumes` | crates/astrid-audit/src/storage.rs:170-184 | Paging after a cursor of an ascending session resumes right behind that entry |
| `Retention.KeepableShrinks` | crates/astrid-audit/src/prune.rs:214-235 | Dropping entries from the front keeps a keepable suffix keepable |
| `Retention.LongestMoves` | crates/astrid-audit/src/prune.rs:214-235 | One more entry never lets the retained suffix reach further back |
| `Retention.NoUnderflow` | crates/astrid-audit/src/prune.rs:214-224 | When an eviction is due both queues are non-empty, so neither underflow error can be raised |
| `Retention.Evicted` | crates/astrid-audit/src/prune.rs:214-235 | An eviction drops an entry that no keepable suffix contains |
| `Retention.Settled` | crates/astrid-audit/src/prune.rs:214-235 | When no eviction is due the window is the longest keepable suffix |
| `Retention.Admit` | crates/astrid-audit/src/prune.rs:205-236 | Admitting one entry leaves exactly the longest suffix within the entry limit and, unless of length one, the byte limit, with counts, digest input, terminal hash and cutoff of what fell out |
| `Retention.ScanRetention` | crates/astrid-audit/src/prune.rs:180-256 | For any paging every field of the scan describes one cut of the principal's chain, the omitted counters capped at 64 bits; the cut keeps the longest allowed suffix when totals fit 64 bits or there is no byte limit, and all totals are exact when they fit |
| `Retention.NewestIsKept` | crates/astrid-audit/src/prune.rs:214-218 | A non-empty chain keeps at least its newest entry |
| `Retention.LongestUnique` | crates/astrid-audit/src/prune.rs:214-235 | A policy determines the cut |
| `Retention.RepeatedPruneOmitsNothing` | crates/astrid-audit/src/prune.rs:335-403 | Pruning a pruned chain again under the same policy omits nothing |
| `Retention.PrunesCompose` | crates/astrid-audit/src/prune.rs:335-403 | Pruning and then pruning harder cuts exactly where pruning harder at once would |
| `Retention.SignPruneReceipt` | crates/astrid-audit/src/prune.rs:258-403 | Refuses zero entries, a ring above 8192, zero bytes, an invalid prior receipt and an over-reaching prune, and only those; otherwise signs the scan of the chain with the next generation and the prior receipt's hash |
| `Retention.SignedReceipt` | crates/astrid-audit/src/prune.rs:376-402 | A signed receipt verifies under the signer's key |
| `Retention.ReceiptAnchorsSuffix` | crates/astrid-audit/src/prune.rs:405-412 | From a session to the anchor's answer: on a linked chain the signed receipt anchors the first entry it retains iff the policy cannot keep the whole chain or the chain starts at the zero hash, and answers false for every other hash |
| `Retention.AnchorAtCut` | crates/astrid-audit/src/prune.rs:405-412 | For any cut of a linked chain and any hash asked about, the answer is true iff it is the hash the first retained entry names and something was omitted or it is the zero hash |
| `Retention.AnchorAnswer` | crates/astrid-audit/src/prune.rs:405-412 | For any cut of any chain a verified receipt answers true for exactly the hash that is both the last omitted content hash and the first retained previous hash |
| `Retention.BadReceiptsAreRefused` | crates/astrid-audit/src/prune.rs:405-412 | A receipt of another schema or with a bad signature is refused whatever it is asked about |
| `Retention.BadPriorIsRefused` | crates/astrid-audit/src/prune.rs:258-275 | A stored receipt that cannot be read, is of another schema or does not verify stops the prune |
| `Retention.ReceiptsAreChained` | crates/astrid-audit/src/prune.rs:258-275 | Receipts of successive prunes are numbered from zero, saturating, and each names the hash of the one before it |
| `Retention.OmitsIffNotKeepable` | crates/astrid-audit/src/prune.rs:214-235 | A prune omits something iff the policy cannot keep the whole chain |
| `Retention.SecondReceiptDoesNotAnchor` | crates/astrid-audit/src/prune.rs:376-412 | Pruning a pruned chain again under the same policy yields a verified receipt that verify_anchor rejects for the very entry it retains first, unless the omitted neighbour hashes to zero |
| `Retention.RepeatedPruneExample` | crates/astrid-audit/src/prune.rs:258-412 | A two-entry session whose first receipt anchors the retained entry and whose second, naming the first as its prior receipt, does not |
| `Frames.ValidFrameFollows` | scripts/runatal_v1_frames.py:38-48 | Searching for the magic finds a later whole frame iff there is one |
| `Frames.FramesBytes` | scripts/runatal_v1_frames.py:51-65 | The scan loop returns exactly the whole frames that stand end to end from the start up to a quiet end: nothing, a torn frame, or damage no whole frame follows; otherwise it rejects |
| `Frames.ScanExact` | scripts/runatal_v1_frames.py:51-65 | From any offset a scan returns a list of frames iff they stand end to end from there up to a quiet end |
| `Frames.FrameExact` | scripts/runatal_v1_frames.py:20-35 | A frame is whole iff its encoding, with a true checksum, stands there |
| `Frames.ChecksumDecides` | scripts/runatal_v1_frames.py:20-35 | Where a supported header announces a frame that fits, the checksum alone decides between whole and invalid |
| `Frames.DamageIsFound` | scripts/runatal_v1_frames.py:38-65 | Behind any run of whole frames, a wrong checksum before a later whole frame rejects the bytes |
| `Frames.WithinKeepsFitting` | scripts/runatal_v1_frames.py:51-65 | The kept frames are exactly those that end inside the prefix |
| `Frames.ScanOfPrefix` | scripts/runatal_v1_frames.py:20-65 | If a scan succeeds, it succeeds on every prefix of the bytes and yields exactly the frames wholly inside it |
| `Frames.FrameReadsBack` | scripts/runatal_v1_frames.py:15-35 | A written frame is read back whole, whatever follows it |
| `Frames.ScanMoves` | scripts/runatal_v1_frames.py:20-65 | The same bytes at another place scan to the same payloads, and are rejected together |
| `Frames.ScanSplits` | scripts/runatal_v1_frames.py:51-65 | A scan splits at the end of each of its frames |
| `ExtentIndex.ReferenceRoundTrip` | scripts/runatal_v1_volume.py:162-188 | An index reference with 64-bit fields and a valid summary encodes and decodes to itself |
| `ExtentIndex.TotalsGrow` | scripts/runatal_v1_volume.py:191-231 | Over ordered good slots the extent count is at least the number of slots times 2^(level-1) and at most the covered length |
| `ExtentIndex.SummaryNeverRejects` | scripts/runatal_v1_volume.py:191-231 | Every page that passes framing, bounds and order at offset >= 8 with positive sequence has 2^level <= count <= end - start < 2^64, so the recomputed summary always decodes |
| `ExtentIndex.ReadIndexPage` | scripts/runatal_v1_volume.py:191-231 | The slot loop returns the page its bytes describe, or rejects when they describe none |
| `VolumeCheckpoint.ExtentsSpan` | scripts/runatal_v1_volume.py:234-266 | The extents below a reference are exactly reference.count many, non-empty, strictly ordered and disjoint, span start to end, and their payloads lie before the record that refers to them |
| `VolumeCheckpoint.RegionIsRebuilt` | scripts/runatal_v1_volume.py:286-299 | A region that passes the hole, payload and tail checks is its extents laid over zero bytes |
| `VolumeCheckpoint.CatalogueRebuildsNamespace` | scripts/runatal_v1_volume.py:269-340 | Every accepted paged or legacy catalogue rebuilds exactly the replayed namespace, with the same names, lengths and bytes |
| `VolumeCheckpoint.CatalogueOfPrefix` | scripts/runatal_v1_volume.py:269-340 | A commit's catalogue check reads only bytes before the commit, so cutting the file later leaves it unchanged |
| `RegionNames.RegionNameExact` | scripts/runatal_v1_volume.py:69-85 | A region name is accepted iff it is the UTF-8 form of characters without controls or backslashes, at most 512 bytes, in slash-separated parts that are neither empty nor a dot or two |
| `RegionNames.ControlsAre` | scripts/runatal_v1_volume.py:82-83 | The bytes of a name hold a control sequence iff one of its characters is a control character |
| `ExtentForms.PageIsFramed` | scripts/runatal_v1_volume.py:191-205 | The encoding of a page is framed and gives its slots back |
| `ExtentForms.FramedIsPage` | scripts/runatal_v1_volume.py:191-205 | Framed page bytes are the encoding of their slots |
| `ExtentForms.ReferenceExact` | scripts/runatal_v1_volume.py:177-188 | A reference is read iff its encoding is there |
| `ExtentForms.EnvelopeExact` | scripts/runatal_v1_volume.py:234-256 | The checks on a page's record pass iff the record of its payload stands there under a true checksum |
| `ExtentForms.NodeIsPage` | scripts/runatal_v1_volume.py:191-256 | A page whose record stands, whose extents or children are in order and whose reference sums them up is decoded as that page |
| `ExtentForms.PageIsNode` | scripts/runatal_v1_volume.py:191-256 | Every decoded page is such a page |
| `ExtentForms.TreeIsRead` | scripts/runatal_v1_volume.py:234-266 | A tree of such pages, each page known and used once, is read as its extents in order |
| `ExtentForms.ReadIsTree` | scripts/runatal_v1_volume.py:234-266 | Whatever is read comes from such a tree |
| `CatalogueForms.MatchesIs` | scripts/runatal_v1_volume.py:286-299 | Ordered extents pass the hole, payload and tail checks iff laying them over zeros gives the region |
| `CatalogueForms.PagedExact` | scripts/runatal_v1_volume.py:269-302 | A paged catalogue is accepted iff its bytes list every region of the namespace once, in name order, with its length and a tree of pages of its own whose extents build the region |
| `CatalogueForms.LegacyExact` | scripts/runatal_v1_volume.py:305-340 | A legacy catalogue is accepted iff its bytes list every region of the namespace once, with inline extents before the commit that build the region |
| `CatalogueForms.CatalogueExact` | scripts/runatal_v1_volume.py:269-340 | A commit's catalogue is accepted iff it is the paged or the legacy catalogue of the replayed namespace |
| `VolumeValidators.OwnedPages.Collect` | scripts/runatal_v1_volume.py:234-266 | The recursive page walk yields the extents of the tree in order and owns exactly the pages it visited |
| `VolumeValidators.CheckRegion` | scripts/runatal_v1_volume.py:286-299 | The running-end loop accepts exactly when holes and tail are zero and payloads equal the recovered bytes |
| `VolumeValidators.ValidatePagedCheckpoint` | scripts/runatal_v1_volume.py:269-302 | The cursor loop accepts exactly the paged catalogues that describe the recovered namespace |
| `VolumeValidators.CheckLegacyRegion` | scripts/runatal_v1_volume.py:321-337 | Reading and comparing extent by extent accepts exactly the in-bounds ordered extents that match the region |
| `VolumeValidators.ValidateLegacySnapshot` | scripts/runatal_v1_volume.py:305-340 | The cursor loop accepts exactly the legacy snapshots that describe the recovered namespace |
| `VolumeRecords.HasValidRecordAfter` | scripts/runatal_v1_volume.py:88-130 | Searching for the record magic finds a later physically valid record iff there is one |
| `VolumeRecords.RecordExact` | scripts/runatal_v1_volume.py:355-390 | A record is found at an offset iff the header and body of that record stand there with a true checksum |
| `VolumeRecords.ValidRecordExact` | scripts/runatal_v1_volume.py:88-121 | The search for later records accepts an offset iff a record stands there with a known operation, a proper name and a true checksum, whatever its sequence |
| `VolumeRecords.DamagedExact` | scripts/runatal_v1_volume.py:368-389 | A record counts as damaged iff it stands in full and in sequence under a false checksum |
| `VolumeRecords.EndExact` | scripts/runatal_v1_volume.py:352-369 | The log ends iff no header fits, or a proper header announces more bytes than the file has |
| `VolumeMutations.TransactionExact` | scripts/runatal_v1_volume.py:133-148 | A metadata transaction is read iff its payload is the encoding of those mutations, with proper names |
| `VolumeMutations.MutateExact` | scripts/runatal_v1_volume.py:396-427 | A record is applied with a result iff that result is the operation's effect: creation, removal, writing, truncation, renaming or a transaction, each stated byte by byte, with every other region unchanged |
| `VolumeMutations.BytesHaveOrigins` | scripts/runatal_v1_volume.py:391-444 | After any accepted records every byte of every region is the one written last to it under the name it then had, or zero if it was never written |
| `VolumeReplay.ApplyRecord` | scripts/runatal_v1_volume.py:391-444 | One record is accepted with a namespace iff that namespace is the effect of its operation on the one before, a commit only with a catalogue of the replayed namespace |
| `VolumeReplay.RecoverVolume` | scripts/runatal_v1_volume.py:343-446 | The loop recovers a namespace iff the bytes are a header and records end to end up to a quiet end whose effects, one after the other, lead to that namespace at the last commit |
| `VolumeReplay.ReplayExact` | scripts/runatal_v1_volume.py:343-446 | A replay reaches a state iff records stand end to end up to a quiet end and their effects lead to it |
| `VolumeReplay.RecoveryIs` | scripts/runatal_v1_volume.py:343-446 | Recovery returns a namespace iff such records lead to it at their last commit |
| `VolumeHistory.PageIs` | scripts/runatal_v1_volume.py:191-231 | An index-page record is accepted iff its payload is the encoding of a leaf or branch page whose extents or children lie before it |
| `VolumeHistory.ApplyExact` | scripts/runatal_v1_volume.py:391-444 | A record leads from one state of the recovery to another iff it acts so: its effect on the namespace, the page it adds, or the commit of a namespace its catalogue describes |
| `VolumeHistory.RecoveryExact` | scripts/runatal_v1_volume.py:343-446 | A volume is recovered as a namespace iff behind the header records stand end to end, in sequence, each acting on the state the one before left, with only a torn or a damaged tail behind them, and the last commit among them took that namespace |
| `VolumeHistory.DamageIsFound` | scripts/runatal_v1_volume.py:384-389 | Behind any acceptable records, a damaged record that a valid one follows makes recovery reject |
| `VolumeRecords.FindOfPrefix` | scripts/runatal_v1_volume.py:352-390 | What a record boundary holds is the same in a prefix unless the record no longer fits |
| `VolumeReplay.ReplayOfPrefix` | scripts/runatal_v1_volume.py:343-446 | Replaying a prefix succeeds and has committed exactly what the full replay had committed by then |
| `VolumeReplay.RecoveryOfPrefix` | scripts/runatal_v1_volume.py:343-446 | If recovery succeeds, it succeeds on every prefix that keeps the header and returns the namespace at the last commit record wholly inside the prefix |
| `KvValues.ReadKeyExact` | scripts/runatal_v1_kv.py:18-36 | A length-prefixed key is read exactly when its encoding is there |
| `KvValues.ReadTotalsExact` | scripts/runatal_v1_kv.py:148-149 | Totals are read exactly when their encoding is there |
| `KvValues.MergeDisjoint` | scripts/runatal_v1_kv.py:252-252 | Merging dictionaries without a common key is concatenation: nothing is overwritten |
| `KvValues.SumsAppend` | scripts/runatal_v1_kv.py:82-87 | Count, logical bytes and quota of a concatenation are the sums of the parts |
| `KvValues.LookupPut` | scripts/runatal_v1_kv.py:351-354 | Writing a key changes what is read under that key and nothing else |
| `KvValues.LookupRemove` | scripts/runatal_v1_kv.py:351-354 | Removing a key from a dictionary changes what is read under that key and nothing else |
| `KvValues.CollectChunks` | scripts/runatal_v1_kv.py:134-141 | The explicit-stack walk collects exactly the leaves of the content tree, left to right, and terminates |
| `KvValues.ChunkedLength` | scripts/runatal_v1_kv.py:142-145 | The reconstructed length of an accepted chunked value never disagrees with the declared one |
| `KvValues.DecodeChunkedValue` | scripts/runatal_v1_kv.py:112-145 | A chunked value is accepted exactly for a valid wrapper over an accepted File of the fixed profile and length, and is that File's bytes |
| `KvValues.DecodeValue` | scripts/runatal_v1_kv.py:96-109 | A stored value has exactly the declared length, whether direct or chunked |
| `KvMeaning.CompositeKeyIs` | scripts/runatal_v1_kv.py:68-79 | A key is composite iff it is a non-empty UTF-8 namespace and name around its only zero byte |
| `KvMeaning.ExactReferenceIs` | scripts/runatal_v1_kv.py:52-60 | A reference is found iff it is the only one of its name and has the kind asked for |
| `KvMeaning.SumsAre` | scripts/runatal_v1_kv.py:82-87 | Totals are the number of entries, the bytes of all values, and the bytes of all keys and values |
| `KvMeaning.ValueIs` | scripts/runatal_v1_kv.py:96-145 | A value is read iff the store keeps it in one object or, in format 4, as the File built from its bytes behind a wrapper with its length |
| `KvMeaning.RetainedIs` | scripts/runatal_v1_kv.py:90-93 | A page's retained size is that of its hashed bytes with every length eight bytes shorter |
| `KvMeaning.PageSizeIs` | scripts/runatal_v1_kv.py:171-172 | A page may pass 4096 bytes of that size only with too few slots to be split |
| `KvPages.ReadSlotExact` | scripts/runatal_v1_kv.py:185-204 | A leaf slot is read as an entry exactly when the entry's encoding is there, inline up to 1024 bytes and otherwise through the next labelled reference |
| `KvPages.LeafAdvance` | scripts/runatal_v1_kv.py:185-207 | Reading one more slot extends every possible reading of the page; an unreadable or out-of-order slot rules out every reading |
| `KvPages.DecodeLeaf` | scripts/runatal_v1_kv.py:176-212 | Accepts exactly the leaf pages, returns the one entry list a page encodes, and that list is in strictly ascending key order |
| `KvPages.ReadPointersExact` | scripts/runatal_v1_kv.py:227-240 | A pointer list is read exactly when its encoding fills the page and the references carry its targets |
| `KvPages.DecodePointers` | scripts/runatal_v1_kv.py:215-242 | Accepts exactly the branch headers and returns the one level, totals and ascending pointer list a page encodes |
| `KvTree.PageAscends` | scripts/runatal_v1_kv.py:152-257 | Every accepted tree of pages holds its keys in strictly ascending order |
| `KvTree.ChildRange` | scripts/runatal_v1_kv.py:243-252 | The keys of child i lie in [lower_i, lower_{i+1}) |
| `KvTree.BranchTotals` | scripts/runatal_v1_kv.py:243-256 | A branch's totals are the sums of the totals its pointers declare |
| `KvTree.PageDepth` | scripts/runatal_v1_kv.py:152-257 | All leaves are at one depth, the level, and a tree of level l holds between 2^l and 64^(l+1) entries |
| `KvTree.GatherNext` | scripts/runatal_v1_kv.py:246-253 | Merging the next child's dictionary overwrites no key |
| `KvTree.DecodeBranch` | scripts/runatal_v1_kv.py:215-257 | Accepts exactly the branch records whose children are unmarked, well-formed, in range and in order, and marks what it visits |
| `KvTree.DecodePage` | scripts/runatal_v1_kv.py:152-173 | Accepts exactly the roots of well-formed trees of distinct unmarked pages, returns the flattened dictionary, and terminates because every call marks a new object |
| `KvDelta.LookupAll` | scripts/runatal_v1_kv.py:348-354 | Sorted mutations touch each key once: each key ends with its own mutation's value or unchanged |
| `KvDelta.DeltaIsDiff` | scripts/runatal_v1_kv.py:348-354 | A sorted mutation list passes the no-op checks iff it is exactly the sorted list of keys whose value differs before and after, with the new values |
| `KvDelta.DeltasAreUnique` | scripts/runatal_v1_kv.py:276-359 | Two dictionaries have at most one canonical delta |
| `KvDelta.ReadMutationsExact` | scripts/runatal_v1_kv.py:291-316 | A mutation list is read exactly when its encoding fills the record |
| `KvDelta.GatherMutations` | scripts/runatal_v1_kv.py:288-316 | The mutation loop accepts exactly the readable lists in strictly ascending key order and counts their payload and spilled values |
| `KvDelta.DecodeDelta` | scripts/runatal_v1_kv.py:276-320 | Accepts exactly the delta records, returns the one delta a record encodes and its payload size |
| `KvMeaning.PayloadIs` | scripts/runatal_v1_kv.py:315-315 | A delta's payload is what its keys and values would count against a quota |
| `KvMeaning.DeltaReferencesUsed` | scripts/runatal_v1_kv.py:318-319 | An accepted delta carries no reference but its predecessor's and those of its spilled values |
| `KvChain.DecodeCheckpoint` | scripts/runatal_v1_kv.py:260-273 | Accepts exactly the checkpoints of a well-formed page tree or of nothing, with matching totals |
| `KvChain.WalkChain` | scripts/runatal_v1_kv.py:323-340 | Accepts exactly when a finite chain of distinct deltas leads to a checkpoint or to nothing, and returns that one chain |
| `KvChain.ApplyMutations` | scripts/runatal_v1_kv.py:348-354 | Applies a delta exactly when none of its mutations is a no-op when its turn comes |
| `KvChain.ReplayChain` | scripts/runatal_v1_kv.py:341-359 | Accepts exactly the chains whose counters, no-op checks and totals hold at every delta |
| `KvChain.DecodeV4` | scripts/runatal_v1_kv.py:323-359 | Accepts exactly the heads of replayable chains and returns the final dictionary |
| `KvChain.AcceptedDeltasAreDiffs` | scripts/runatal_v1_kv.py:276-359 | In every accepted chain each delta is the canonical difference it makes and changes something, and the newest delta's depth, delta_bytes and totals are the chain length, the payload since the checkpoint and the final totals |
| `KvLegacy.NodeIsCanonical` | scripts/runatal_v1_kv.py:367-376 | A legacy node's bytes are the encoding of what is read from them |
| `KvMeaning.NodeIs` | scripts/runatal_v1_kv.py:362-384 | A legacy node is read iff the object is the encoding of that node with exactly its value and child references |
| `KvLegacy.AvlAscends` | scripts/runatal_v1_kv.py:362-400 | Every accepted legacy tree is a search tree: its entries in order are strictly ascending |
| `KvLegacy.AvlIsDense` | scripts/runatal_v1_kv.py:385-391 | An accepted tree of height h has at least Fib(h + 2) - 1 entries |
| `KvLegacy.MergeSides` | scripts/runatal_v1_kv.py:392-397 | Merging left, own entry and right overwrites nothing |
| `KvLegacy.DecodeLegacyNode` | scripts/runatal_v1_kv.py:362-400 | Accepts exactly the roots of balanced search trees of distinct unmarked nodes with the declared heights and totals |
| `Closure.RecursiveWalk.Visit` | scripts/runatal_v1_reader.py:796-809 | On success the object and everything below it is finished and the open path is as before; a failure names a reachable missing object or an object on a reachable cycle |
| `Closure.ValidateClosureRecursively` | scripts/runatal_v1_reader.py:793-812 | Returns exactly the objects reachable by owning references, or a reachable missing object, or an object on a reachable cycle |
| `Closure.ValidateClosureIteratively` | scripts/runatal_v1_sha384.py:429-450 | The stack with leave markers returns exactly the objects reachable by owning references, or a reachable missing object, or an object on a reachable cycle |
| `Closure.OpenIsCycle` | scripts/runatal_v1_sha384.py:438-441 | Meeting an open object again closes an owning cycle; a shared object is finished and never reported |
| `Closure.FinishedAcyclic` | scripts/runatal_v1_sha384.py:434-449 | No finished object lies on a cycle |
| `Closure.CorrectIsExact` | scripts/runatal_v1_reader.py:793-812 | A walk succeeds iff every reachable object is present and on no ownership cycle |
| `Closure.WalksAgree` | scripts/runatal_v1_sha384.py:429-450 | The two walks accept the same roots and return the same closure |
| `PhysicalFields.IntegerExact` | scripts/runatal_v1_physical.py:34-51 | An integer is read exactly when its encoding is there |
| `PhysicalFields.IdentityExact` | scripts/runatal_v1_physical.py:58-71 | An identity of a supported scheme is read exactly when its encoding is there |
| `PhysicalFields.OptionalExact` | scripts/runatal_v1_physical.py:78-88 | An optional identity is read exactly when its encoding is there |
| `PhysicalFields.ManyExact` | scripts/runatal_v1_physical.py:34-55 | Repeating an exact reader n times is exact for lists of length n |
| `PhysicalRoots.StateExact` | scripts/runatal_v1_physical.py:598-624 | The state parse accepts exactly the encodings of valid states |
| `PhysicalRoots.PlacementSetExact` | scripts/runatal_v1_physical.py:566-595 | The placement-set parse accepts exactly the encodings of valid placement sets |
| `PhysicalRoots.CatalogueRootExact` | scripts/runatal_v1_physical.py:478-510 | The catalogue-root parse accepts exactly the encodings of valid catalogue roots |
| `PhysicalRoots.LocatorExact` | scripts/runatal_v1_physical.py:513-531 | A replica locator is read exactly when its encoding is there |
| `PhysicalRoots.ReplicaOrder` | scripts/runatal_v1_physical.py:534-551 | The order of replicas is strict and total |
| `PhysicalRoots.PlacementEntryExact` | scripts/runatal_v1_physical.py:534-563 | The placement-entry parse accepts exactly the encodings of entries with non-empty, strictly ordered valid replicas |
| `PhysicalProfiles.ProfileExact` | scripts/runatal_v1_physical.py:91-191 | The profile parse accepts exactly the encodings of valid profiles |
| `PhysicalRepresentations.RecipeExact` | scripts/runatal_v1_physical.py:210-257 | A recipe of any of the five tags is read exactly when its encoding is there |
| `PhysicalRepresentations.SortedUniqueAscends` | scripts/runatal_v1_physical.py:275-291 | Derived dependencies are strictly ordered, so the order test never decides beyond the forgery test |
| `PhysicalRepresentations.SortedUniqueHolds` | scripts/runatal_v1_physical.py:275-291 | Derived dependencies hold exactly the encodings the profile, recipe and evidence call for |
| `PhysicalRepresentations.RepresentationExact` | scripts/runatal_v1_physical.py:194-358 | The representation parse accepts exactly the encodings of valid representations |
| `PhysicalMapNodes.BodyExact` | scripts/runatal_v1_physical.py:371-470 | Each of the four node bodies is read exactly when its encoding is there, with zero unused prefix bits and one child per bitmap bit |
| `PhysicalMapNodes.MapNodeExact` | scripts/runatal_v1_physical.py:365-470 | The node parse accepts exactly the encodings of valid binary and radix nodes |
| `PhysicalCodec.StateRoundTrip` | scripts/runatal_v1_physical.py:598-624 | decode(encode(v)) = v for valid states, accepted bytes re-encode to themselves, and the final re-encoding test never rejects |
| `PhysicalCodec.PlacementSetRoundTrip` | scripts/runatal_v1_physical.py:566-595 | The same for placement sets |
| `PhysicalCodec.CatalogueRootRoundTrip` | scripts/runatal_v1_physical.py:478-510 | The same for catalogue roots |
| `PhysicalCodec.PlacementEntryRoundTrip` | scripts/runatal_v1_physical.py:534-563 | The same for placement entries |
| `PhysicalCodec.ProfileRoundTrip` | scripts/runatal_v1_physical.py:106-191 | The same for profiles |
| `PhysicalCodec.RepresentationRoundTrip` | scripts/runatal_v1_physical.py:294-358 | The same for representations |
| `PhysicalCodec.MapNodeRoundTrip` | scripts/runatal_v1_physical.py:365-470 | The same for map nodes |
| `PhysicalMap.ContinuePushed` | scripts/runatal_v1_physical.py:733-741 | Children pushed in reverse are walked in order, before anything below them on the stack |
| `PhysicalMap.ContinueEnter` | scripts/runatal_v1_physical.py:728-741 | Replacing a node's task by its leave marker and its children does not change what the stack computes |
| `PhysicalMap.ValidateMap` | scripts/runatal_v1_physical.py:670-745 | The explicit-stack walk accepts exactly what the recursive walk accepts with the expected count; the node it leaves is always still being visited |
| `PhysicalMap.SummaryCounts` | scripts/runatal_v1_physical.py:683-724 | Every branch's subtree_entries is the number of entries in the leaves below it |
| `PhysicalMap.AcceptedMapsAreTrees` | scripts/runatal_v1_physical.py:670-745 | A map is accepted iff its root heads a tree of distinct nodes of one domain and one construction, each visited once, with valid prefixes and summaries, holding exactly the expected number of entries |
| `PhysicalMapForms.PrefixIs` | scripts/runatal_v1_physical.py:643-667 | A stored prefix is canonical iff it holds the key's first digits padded with zeros |
| `PhysicalMapForms.PrefixBitsAre` | scripts/runatal_v1_physical.py:636-640 | The common prefix of two keys ends at a bit iff they agree before it and differ in it |
| `PhysicalMapForms.SelectorsAre` | scripts/runatal_v1_physical.py:710-710 | Selectors are the places of a bitmap's set bits in rising order |
| `PhysicalMapForms.BitBranchIs` | scripts/runatal_v1_physical.py:687-702 | A binary branch passes iff it splits its keys at the first bit in which its first and last key differ, with their common bits as prefix, each child on its side, and the number of keys as count |
| `PhysicalMapForms.RadixBranchIs` | scripts/runatal_v1_physical.py:709-722 | A radix branch passes iff the same holds for nibbles, one child for each set bit of its bitmap |
| `PhysicalMapForms.TreesAreKeyed` | scripts/runatal_v1_physical.py:670-745 | The validator's trees are exactly those whose nodes stand in one domain and construction over the right keys, and a summary is the number of keys below with the first and the last |
| `PhysicalMapForms.AcceptedMapsAreKeyed` | scripts/runatal_v1_physical.py:670-745 | A map is accepted iff its root heads such a tree of distinct nodes with the expected number of keys |
| `KeyTrees.OrderedIffNested` | scripts/runatal_v1_physical.py:687-724 | A search tree whose branches were tested on their outermost keys only has its leaves in order iff every branch splits later than its parent and starts with its parent's prefix |
| `PhysicalMapOrder.ByteOrder` | scripts/runatal_v1_physical.py:636-667 | Byte strings of one length compare as their bits and as their nibbles do |
| `PhysicalMapOrder.MapView` | scripts/runatal_v1_physical.py:687-724 | The validator's prefix and selector tests are exactly tests on the outermost keys of each subtree, for both constructions |
| `PhysicalMapOrder.KeysAscendIffNested` | scripts/runatal_v1_physical.py:670-745 | The keys of an accepted map ascend iff every child branch splits strictly later than its parent and every child of a radix branch starts with the branch's prefix |
| `PhysicalMapOrder.OutOfOrderMap` | scripts/runatal_v1_physical.py:670-745 | A family of decodable maps that are accepted with their keys out of order, over any five identities |
| `RootJournal.RootExact` | scripts/runatal_v1_reader.py:695-726 | decode_root accepts exactly the encodings of valid transitions and of ordered snapshots |
| `RootJournal.OwnersAreInjective` | scripts/runatal_v1_reader.py:729-736 | Different principals never name the same owner |
| `RootJournal.OwnerExact` | scripts/runatal_v1_reader.py:729-736 | A principal names an owner iff it is that owner's encoding |
| `RootJournal.RecoverRoots` | scripts/runatal_v1_reader.py:896-921 | The loop accepts a journal iff its frames hold a run in which every transition expects the state the principal last had and carries the next generation, a snapshot standing first only; the roots are then each principal's last state |
| `RootJournal.TransitionsCompare` | scripts/runatal_v1_reader.py:912-921 | A run of transitions is accepted iff each one names an owner, expects what the last transition of its principal left, and carries the next generation |
| `RootJournal.AcceptedJournals` | scripts/runatal_v1_reader.py:896-921 | A list of frames replays iff it decodes to such a run, perhaps behind one snapshot at the start |
| `RootJournal.AddEntriesRebuilds` | scripts/runatal_v1_reader.py:904-911 | Replaying a snapshot's ordered entries rebuilds its roots; the duplicate test never fires |
| `RootJournal.SnapshotExists` | scripts/runatal_v1_reader.py:699-716 | Every set of roots has a snapshot in canonical order |
| `RootJournal.ReplayKeepsProper` | scripts/runatal_v1_reader.py:896-921 | Every reachable root has a valid owner and a state a snapshot can carry |
| `RootJournal.GenerationsCount` | scripts/runatal_v1_reader.py:912-921 | Over any accepted run of transitions a principal's generation rises by exactly one per transition of its own |
| `RootJournal.SnapshotReplacesPrefix` | scripts/runatal_v1_reader.py:896-921 | A snapshot of the roots after any accepted prefix, the empty one included, followed by frames that do the same where they now stand, replays to the same roots |
| `RootJournal.CompactionPreservesMeaning` | scripts/runatal_v1_reader.py:699-736 | On journal bytes, for every cut: one snapshot frame in front of the untouched remaining bytes recovers exactly what the whole journal recovers, unless it displaces a snapshot the journal opens with, and then it is refused |
| `StateJournal.ReplayStateJournal` | scripts/runatal_v1_physical_store.py:122-169 | The replay loop accepts exactly the journals whose digest, budget, checkpoint and every swap hold, and returns the final active state |
| `StateJournal.ReadJournal` | scripts/runatal_v1_physical_store.py:122-143 | The frames are read iff the first one is whole and has the expected digest and the tail is within its budget |
| `StateHistory.JournalExact` | scripts/runatal_v1_physical_store.py:122-143 | A journal is read as payloads iff whole frames with these payloads stand end to end, the first with the expected digest, within the tail budget |
| `StateHistory.CheckpointExact` | scripts/runatal_v1_physical_store.py:144-150 | A checkpoint payload is read iff it is the encoding of that checkpoint |
| `StateHistory.SwapExact` | scripts/runatal_v1_physical_store.py:151-158 | A swap payload is read iff it is the encoding of that swap |
| `StateHistory.GenerationsFollow` | scripts/runatal_v1_physical_store.py:187-213 | Root generations pass iff each counter starts at one, stays under the same identity and rises by one under another |
| `StateHistory.AcceptedJournalsAreHistories` | scripts/runatal_v1_physical_store.py:122-213 | A journal is accepted with an active state iff its frames are the encodings of a checkpoint at an authentic state, or of an empty one, and of one swap for each state of a chain that ends there, linked by identity and generation with its counters in step |
| `StateJournal.CheckpointInStep` | scripts/runatal_v1_physical_store.py:172-184 | An accepted checkpoint's active identity names a state of exactly the checkpoint's generation |
| `StateJournal.AdvanceCounts` | scripts/runatal_v1_physical_store.py:151-166 | One swap raises the state generation by one, and the catalogue generation and the epoch by one iff their identity changed |
| `StateJournal.RunCounts` | scripts/runatal_v1_physical_store.py:122-213 | Over every accepted run the state generation rises by one per frame, and catalogue generation and placement epoch by one per identity change |
| `StateJournal.LeftRootsNeverReturn` | scripts/runatal_v1_physical_store.py:122-213 | In an accepted run a catalogue or placement identity that was left never returns, and no state identity becomes active twice |
| `StateJournal.AcceptedJournalCounts` | scripts/runatal_v1_physical_store.py:122-213 | An accepted journal ends in a stored state whose three counters are the checkpoint's plus frames and identity changes |
| `StateJournal.FreshJournalStartsAtOne` | scripts/runatal_v1_physical_store.py:187-193 | The first state of a fresh journal has generation, catalogue generation and epoch one and no predecessor |
| `HostCall.LpCancels` | crates/astrid-audit/src/host_call.rs:300-304 | A length prefix says where its field ends |
| `HostCall.ClassNamesDiffer` | crates/astrid-audit/src/host_call.rs:219-236 | Different call classes have different names in the encoding |
| `HostCall.LegacyBodyCancels` | crates/astrid-audit/src/host_call.rs:264-290 | Within one class the unattributed body determines the action and where the rest begins |
| `HostCall.PreimageInjective` | crates/astrid-audit/src/host_call.rs:241-298 | The digest pre-image is uniquely decodable over all classes: equal pre-images come from equal calls; the JSON encoding matters for attributed calls only |
| `HostCall.HostCallFold.Push` | crates/astrid-audit/src/host_call.rs:194-201 | After any pushes the value is the hash chain over all pushed digests in order from the zero hash, and the count is their number, saturating at 2^64 - 1 |
| `HostCall.FoldIsDigests` | crates/astrid-audit/src/host_call.rs:152-201 | The fold of a list of calls is the hash chain over their digests in order |
| `HostCall.MatchesCalls` | crates/astrid-audit/src/host_call.rs:152-167 | Accepts exactly the non-empty lists of calls whose count, time range and fold are the summary's |
| `HostCall.FoldBinds` | crates/astrid-audit/src/host_call.rs:183-201 | Equal folds come from equal lists, or two different inputs, one hashed for each list, collide, or the lists differ in length and one hashed input has the zero hash |
| `HostCall.SummaryBindsCalls` | crates/astrid-audit/src/host_call.rs:152-167 | Two lists that match one summary are equal call by call and in order, or two different inputs collide that were hashed for the one and the other list |
| `HostCall.SummaryDeterminesCalls` | crates/astrid-audit/src/host_call.rs:152-167 | If the hash has no collision among the inputs the two lists hash, lists that match one summary are equal |
| `Publication.PathShortens` | scripts/crate_publication.py:61-70 | A longer prerequisite chain contains every shorter one |
| `Publication.CycleHasPaths` | scripts/crate_publication.py:61-70 | On a cycle prerequisite chains never end |
| `Publication.StuckIsCyclic` | scripts/crate_publication.py:63-65 | A finite set of packages that all wait on each other contains a cycle |
| `Publication.ReadyIsRank` | scripts/crate_publication.py:64-64 | The packages ready in round k are exactly those whose longest prerequisite path has k steps |
| `Publication.RoundAdvances` | scripts/crate_publication.py:63-70 | One round places exactly the next rank and leaves each package waiting on what remains |
| `Publication.OrderGraph` | scripts/crate_publication.py:61-71 | Succeeds iff the prerequisite graph has no cycle, with a permutation ordered by longest prerequisite path and then name |
| `Publication.PrerequisitesFirst` | scripts/crate_publication.py:61-71 | In a plan every prerequisite comes before its dependent |
| `Publication.NoPackageTwice` | scripts/crate_publication.py:61-71 | In a plan no package occurs twice |
| `Publication.PlansAgree` | scripts/crate_publication.py:61-71 | There is one plan per prerequisite graph |
| `Publication.PrerequisitesAre` | scripts/crate_publication.py:45-59 | The prerequisites of a package are exactly the publishable packages a non-dev dependency names |
| `Publication.PrerequisitesAccepted` | scripts/crate_publication.py:45-59 | Dependencies are accepted iff every one that names a publishable package pins the release version and has a known kind |
| `Publication.PrerequisitesIgnoreOrder` | scripts/crate_publication.py:45-59 | The prerequisites do not depend on the order or repetition of dependencies |
| `Publication.CollectIs` | scripts/crate_publication.py:28-43 | The selection succeeds iff every candidate has a name and the release version and no two share a name, and it then holds exactly the candidates by name |
| `Publication.CollectIgnoresOrder` | scripts/crate_publication.py:28-43 | Reordered package lists select the same packages |
| `Publication.CollectPackages` | scripts/crate_publication.py:28-43 | Succeeds iff every workspace package that publishes has a name and the release version and no two share a name, and then holds exactly those packages by name |
| `Publication.PublicationOrder` | scripts/crate_publication.py:19-71 | Succeeds iff the selection is non-empty and valid, every workspace dependency is pinned and known, and there is no cycle; the result is the plan of the prerequisite graph |
| `Publication.InputOrderIsIrrelevant` | scripts/crate_publication.py:19-71 | Package lists that are permutations of each other give the same plan, or both are refused |

## Left out

- HostCall.PreimageInjective: for calls whose fields are shorter than 2^64 bytes and whose timestamps fit the encoded widths, because the source's own types allow nothing else.
- AuditAppend.TwoBlindLogsFork: for a hash that does not send the given first entry to the zero hash, because the fork is visible only then.
- AuditAppend.SafeIffOneWriter: for a hash that does not send the given first entry to the zero hash, for the same reason.
- Retention.ReceiptAnchorsSuffix: for chains whose totals fit 64 bits or policies without a byte limit, because a saturated byte counter decides the cut otherwise; `Retention.AnchorAtCut` holds for all.
- Retention.ScanRetention: with a byte limit the cut, and always the retained byte count, are exact when the chain's total fits 64 bits, because the source saturates beyond that.
- AuditProgress.FinishesAlone: with two entry ids that were not issued before, because the model, unlike the source, does not draw ids itself.
- KvMeaning.RetainedIs: for references with 32-byte digests, because the source derives an identity for no others.
- KvMeaning.PageSizeIs: for references with 32-byte digests, for the same reason.
- PhysicalMapForms.AcceptedMapsAreKeyed: over nodes the node decoder returned, because the validator is given no others.
- BLAKE3, SHA-384, Ed25519 and UTF-8 decoding of keys: parameters of the model; only the volume's region names check UTF-8 themselves.
- The gear table's values: all chunking results hold for every table.
- Error kinds and messages: all are one rejection, except the closure walks, which name the offending object.
- Identity text: objects are keyed by the identity itself, because its text form is injective.
- Cursors: offsets and remaining bytes are values passed along, so the aliasing of one cursor object between helper calls is not captured; `marks` sets of the key-value decoders are passed in and returned in the same way.
- Byte arrays of the volume: regions are sequences in a map that each record replaces, so in-place update of one `bytearray` is not captured.
- Streaming of extents: `indexed_extents` is a generator in the source, and the model collects its extents before comparing them, which changes the order of failures but not which inputs are accepted.
- The value callback of a physical map: a parameter of the model.
- `validate_state_metadata` beyond decoding the state: one opaque check of the active state in `StateJournal`.
- `decode_v3` and `validate_principal_kv`: wrappers around the decoders modelled here.
- The durable append of the audit store: one atomic step; its several writes, batches of more than one entry, entry format v2 positions and re-signing are not modelled.
- Pruning during an append that hits the retention cap: the append model keeps every stored entry.
- Persisting a prune, archives and segments: the receipt is modelled up to its signature.
- Type tests on Cargo metadata and the canonical form of the version string: the model starts from typed packages.
- Schema checks of runtime profiles, derivations, evidence, sketches and garbage-collection plans: they would only add field tests.
- Budgets, approvals, release scripts and legacy audit import: input and output around code not modelled here.
