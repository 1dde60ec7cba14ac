# Proofs about the Jenkins MCP server

A Dafny model of the parts of the server that are state machines, file formats or algorithms, with
proofs of what they promise. `dafny verify dfyconfig.toml` checks everything.

## What is modelled

| file | what it models |
|---|---|
| `TaskIndex.dfy` | the dependency check of the task-index validator: in-degree counting and the queue loop |
| `Frames.dfy` | the byte grammar of Zstandard frame streams (RFC 8878, sections 3.1.1 and 3.1.2) and the scanner for it |
| `FrameBytes.dfy` | the same frames built byte by byte, with the header fields of the RFC |
| `PackModel.dfy`, `PackWriter.dfy`, `PackReader.dfy` | the L2 pack format: seek tables, the four writers, opening, verifying, range reads |
| `PackAccepts.dfy` | when the writers succeed, stated on their inputs |
| `PackTamper.dfy` | what verification and range reads make of data and tables that no writer built |
| `PackIndexes.dfy`, `Quarantine.dfy` | sidecar indexes and the names used in the quarantine directory |
| `ArchiveStore.dfy`, `StoreReplies.dfy`, `StoreRuns.dfy` | the filesystem store with its catalog: every operation with failures and crashes, its answers case by case, and whole runs |
| `PackLifecycle.dfy` | writers, reader and store put together, from sealed logs to a read after any run |
| `PackSelection.dfy`, `Maintenance.dfy`, `MaintenanceTerms.dfy`, `MaintenanceRuns.dfy`, `MaintenanceProgress.dfy` | batch selection and the maintenance tick: its conditions and outcomes written out, what every tick keeps, and liveness |
| `ReleaseJournal.dfy` | giving up the L1 copy of a packed log under a crash journal |
| `KeyRotation.dfy` | cache encryption keys: init, rotate, load, open, with a crash possible between writes |
| `TokenBucket.dfy` | the rate limiter |
| `AuditSink.dfy`, `AuditTail.dfy` | the rotating audit sink and the reader of its newest events |
| `PolicyApply.dfy`, `PolicyAccess.dfy` | the monotone policy apply and the bindings write; which calls a policy lets through |
| `Allowlist.dfy` | signed adapter allowlists |
| `FlagArgs.dfy` | moving flags in front of positionals, against Go's `flag` package |
| `Prelude.dfy`, `Text.dfy` | sequences, sorting, string trimming |

Code that changes state is a class or a method with loops, proved equal to a specification function;
the lemmas are about that function and about runs of it. A write to a disk, a keyring or a database is
an `Outcome`: it happens, it reports an error, or the process dies before it. Renames are atomic. Clocks,
fresh random keys, directory listings and library calls are parameters.

The libraries are known only through contracts: `PackModel.Tools.Contract` (the codec and JSON are
inverse pairs, one content frame per encoded input, whole TAR blocks), `Frames.HeaderContract` (a header
decoder that depends on the header's bytes only; `Frames.RfcHeaderKeepsContract` shows that the RFC's own
header grammar is one), `PackIndexes.Library.Contract` (digests tell contents apart;
`PackLifecycle.ReaderMeetsContract` shows that the modelled reader meets the rest),
`Allowlist.Library.Contract` (Ed25519, base64, an injective signing body). That altered data fails verification is
proved for digests that tell any two inputs apart (`PackTamper.TellsApart`).

## Properties that hold only under a condition

The code is modelled as it is. Where a promise fails on some inputs, the exact condition is proved.

- A copied payload element may consist of several frames; such a file is written without an error and
  cannot be opened (`OpensIffSingleFrames`).
- A single payload frame that is empty passes for an empty body, and then cannot be copied; the call fails with no
  fallback, though repacking would do (`SinglePayloadIff`, `RouteIff`, `CopyableIff`).
- Store operations under an id with outer white space can leave catalog and disk disagreeing
  (`PutCoherentIff`, `DeleteCoherentIff`, `RebuildCoherentIff`), and an index built under such an id is
  never trusted (`TrustedIffSamePack`).
- A sidecar is trusted by its digests and counts; its member rows are not compared with the pack
  (`AlteredIndexTrustedIff`).
- Delete reports what the catalog held, not what happened to the file (`DeleteReportsCatalog`).
- Quarantine reports mistake `p` for `p-<stamp>` ids (`RunReportsIff`, `StampSegmentMisleads`).
- A pack call marks the latest generation of each build, not the candidate it was given
  (`MarksLatestOnly`), and two sealed generations of one build can never be packed together
  (`TwoGenerationsAreRefused`); so the run properties assume one generation per build.
- A generation that has come of age since may be packed before one that was due earlier (`YoungerMayGoFirst`), so
  packing all that are due at one time takes as many ticks as generations are due by the last of these ticks
  (`TicksPackAll`): n ticks for n when none comes of age in between.
- `cache key init` regenerates a key in use when the secret service is unavailable for the probe, or
  encryption was switched off by hand (`StepRetainsIff`); the frames of the current version are then lost
  (`UnavailableProbeLosesFrames`).
- When the clock goes back, a denied call can be observed unless the bucket was full (`DenialUnseenIff`).
- When the active audit file cannot be reopened, repeated rotations push all retained events off the end
  while every emit reports success (`StuckReopenLosesAll`); the comment at internal/audit/file.go:154-157
  expects the old handle to stay usable. Exactly which successful emit is lost: `SuccessfulEmitLostIff`.
- The monotone check compares neither the three lists that narrow mutations (tools, interrupt modes, job
  prefixes) nor the subject bindings (`AcceptedButWider`, with an input for each). An accepted overlay lets
  through no more than the one before exactly when those fields are kept for every tool it offers to a subject
  (`NarrowsIffUncheckedKept`); for that it is enough that the lists shrink and no binding goes
  (`NarrowsByLists`). The note at internal/policy/overlay.go:101-102 has all mutation targets match a job prefix;
  the handlers of stop-build and cancel-queue-item do not look. The relation chains exactly when no cap is answered by one that is not positive
  (`KeepsChainsIff`), which validation excludes.
- Flag reordering keeps the meaning of a command line exactly when one pass over it finds nothing (`Kept`,
  `MeaningKeptIff`, for all command lines, given that no flag has an empty name). What it finds: a `--` before a flag-like argument
  (`DashDashKeptIff`), a missing value (`MissingValueTakesPositional`), a lone `-` (`LoneDashKeptIff`), a value
  that is itself spelled like a flag that takes a value (`TakingValueKeptIff`, with the inputs of
  `MovedPositional` and `LostSetting`), and a value `--`. A value like `-5` does no harm.
- The release journal loses track of leftover L1 files when a second release overwrites it, when files
  stay, or when a pin arrives between a crash and the recovery (`ReleaseTracksIff`,
  `UndisturbedRecoveryFinishesIff`, `PinAfterCrashLeavesFiles`). The comment at
  internal/store/release.go:337-344 expects the purge to go on despite a pin, but only the status kept in
  memory says so.

## Model

| member | source | states |
|---|---|---|
| TaskIndex.CheckOrder | scripts/validate-task-index.py:48-66 | for every task list the loop counts all tasks iff the ids are unique and known dependencies form no cycle; pops no id twice and none before its dependencies; the ids left over are exactly those that reach a cycle |
| TaskIndex.Report | scripts/validate-task-index.py:24-66 | no finding iff ids are unique, dependencies are known, neither repeated nor the id itself, and acyclic; and each kind of finding exactly when it applies, the cycle one with the number of ids that reach no cycle |
| TaskIndex.CleanIffWorkable | scripts/validate-task-index.py:2-9 | the index is clean iff its tasks can be arranged so that each finds all its dependencies before it, none listed twice |
| TaskIndex.CheckTask | scripts/validate-task-index.py:37-46 | the findings for a record are exactly: repeated dependencies iff one occurs twice, self dependency iff it lists itself, each unknown dependency |
| TaskIndex.CountDependencies | scripts/validate-task-index.py:49-55 | in-degrees count the edges into an id, child lists hold their sources in append order |
| TaskIndex.PopFront | scripts/validate-task-index.py:58-64 | one pop keeps the queue-loop state: everything enqueued is ready, every count is the number of unmet edges |
| TaskIndex.ReleaseChildren | scripts/validate-task-index.py:61-64 | lowers each count once per occurrence and enqueues exactly the ids that become ready |
| TaskIndex.OrderedIdsAvoidCycles | scripts/validate-task-index.py:58-66 | in any dependency order, an ordered id reaches no cycle |
| TaskIndex.BlockedIdsReachCycles | scripts/validate-task-index.py:58-66 | ids each of which waits for another of them all reach a cycle, by a pigeonhole on walks |
| TaskIndex.CyclicIffSomeIdReachesCycle | scripts/validate-task-index.py:65-66 | the relation is cyclic iff some id reaches a cycle |
| Frames.ContentFrameEnd | internal/archive/frames.go:83-126 | returns e iff the bytes up to e form one content frame, terminates, and otherwise no content frame starts there |
| FrameBytes.BuiltFrameEnds | internal/archive/frames.go:83-126 | for every accepted header and block list, the frame made of them byte by byte, with or without a checksum and whatever follows, ends exactly at its length |
| FrameBytes.ContentFramesAreBuilt | internal/archive/frames.go:83-126 | a content frame is nothing else than such a frame |
| FrameBytes.ReservedTypeIsNoFrame | internal/archive/frames.go:99-110 | no frame starts where a block of the reserved type follows |
| FrameBytes.SkippableBytes | internal/archive/frames.go:35-78 | a magic number from 184D2A50 to 184D2A5F with a four-byte length skips exactly that many bytes |
| FrameBytes.RfcHeaderReads | internal/archive/frames.go:84-92 | the header decoder of the RFC reads every descriptor as the sizes and the checksum flag that its bits say |
| Frames.BlocksEndMeaning | internal/archive/frames.go:93-118 | the block walk ends at e iff the bytes up to e are a block list with exactly its last block flagged |
| Frames.ContentEndMeaning | internal/archive/frames.go:83-126 | the computed end and the frame grammar agree in both directions |
| Frames.FrameEndMeaning | internal/archive/frames.go:35-78 | the same for either kind of frame |
| Frames.FrameEndIsLocal | internal/archive/frames.go:83-126 | the end depends on no byte outside the frame and on no offset |
| Frames.FramesArePrefixFree | internal/archive/frames.go:29-80 | no frame is a proper prefix of another |
| Frames.DecompositionIsUnique | internal/archive/frames.go:29-80 | a stream of frames has one decomposition |
| Frames.ScanFrames | internal/archive/frames.go:29-80 | succeeds exactly on non-empty concatenations of well-formed frames, and returns the locations of the one decomposition, tiling all of the data |
| Frames.StuckScan | internal/archive/frames.go:35-78 | where a turn of the loop fails, the whole data is no frame stream |
| Frames.SameStreamSameFrames | internal/archive/frames.go:29-80 | two frame lists with the same concatenation are equal |
| Frames.WriteSkippableFrame | internal/archive/frames.go:130-139 | the bytes it fills in are a skippable frame with that payload; fails iff the payload is too large |
| Frames.RfcHeaderKeepsContract | internal/archive/frames.go:84-92 | the header layout of section 3.1.1.1 of RFC 8878 meets the contract put on the decoder |
| PackModel.Validate | internal/archive/seektable.go:81-163 | accepts iff frames tile both streams, members fit and have distinct keys, and the header fields are right |
| PackModel.ValidIff | internal/archive/seektable.go:81-163 | which tables are valid, without running offsets: each frame starts where the one before ends in both streams, sizes are in range, and no key knows two members |
| PackModel.EndsOfFrames | internal/archive/pack.go:190-211 | the running offsets of a built table are the lengths of what precedes each frame in both streams |
| PackWriter.SplitTarMemberFrames | internal/archive/pack.go:332-358 | the header and padding it cuts out of a TAR block are those of the block |
| PackWriter.CopyPartsAreTheTarStream | internal/archive/pack.go:213-300 | copied and generated frames together stand for the TAR stream of the members |
| PackWriter.TarIsWholeBlocks | internal/archive/pack.go:332-358 | the TAR stream is a whole number of 512-byte blocks |
| PackWriter.TarEndsInZeros | internal/archive/pack.go:297-300 | the TAR stream ends in two blocks of zero bytes |
| PackWriter.RowsCarryBodies | internal/archive/pack.go:258-290 | each catalog row names a 512-aligned range that holds exactly its member's body |
| PackWriter.RowsAreDisjoint | internal/archive/pack.go:258-294 | member ranges increase and a header lies between any two |
| PackWriter.PackBuilder.AppendFrame | internal/archive/pack.go:190-211 | extends the bytes, the running offsets and the table by one part and keeps them in agreement |
| PackWriter.PackBuilder.AppendMember | internal/archive/pack.go:213-295 | one member is copied with its header, frames, row and padding, or refused exactly when it cannot be |
| PackWriter.PackBuilder.Finish | internal/archive/pack.go:297-327 | publishes iff the table is valid and fits, and then the bytes are the compressed parts and one skippable frame with the table |
| PackWriter.WritePackMultiPayload | internal/archive/pack.go:162-327 | succeeds iff every member is accepted by TAR, its payload decodes to its body and the table is valid; its result is the specified file |
| PackWriter.WritePackWithPayloadFrames | internal/archive/writer.go:147-326 | the same with frame i as the whole payload of member i |
| PackWriter.BuildTar | internal/archive/writer.go:329-381 | the bytes and rows it builds are the TAR stream of the members with its two zero blocks |
| PackWriter.WritePack | internal/archive/writer.go:41-145 | succeeds iff members are accepted and the table of the chunked stream is valid; its result is the specified file |
| PackWriter.ChunksAreTheStream | internal/archive/writer.go:86-110 | the chunks it encodes concatenate to the TAR stream, each at most the target size |
| PackWriter.RepackedChunks | internal/archive/writer.go:86-118 | a repacked pack has two frames or more, each of exactly the target size but the last, one after the other |
| PackWriter.TargetIs | internal/archive/writer.go:383-407 | the target is what was asked for, by default 8 MiB, but at most half of the stream; the last adjustment never applies |
| PackWriter.PrepareSinglePayloadCopy | internal/archive/pack.go:118-142 | succeeds iff every member has one payload frame that decodes to its body |
| PackWriter.PayloadOkIff | internal/archive/pack.go:213-244 | a payload can be copied iff it is one or more non-empty frames that decode to pieces which together are the body |
| PackWriter.SinglePayloadIff | internal/archive/pack.go:118-150 | a single payload frame is accepted iff it can be copied, or it is empty and so is the body |
| PackWriter.CopiedPackHolds | internal/archive/pack.go:162-327 | what the copying writers publish stands for exactly these members, every frame copied unchanged or encoded here |
| PackWriter.RepackedPackHolds | internal/archive/writer.go:41-145 | what the repacking writer publishes stands for exactly these members |
| PackWriter.PackFromGenerations | internal/archive/pack.go:56-105 | the exact success condition over the three routes, without a fallback for the single-frame route; a success holds every member |
| PackAccepts.RepackableIff | internal/archive/writer.go:41-145 | the repacking writer succeeds iff the pack is named, has members that TAR takes with distinct ids, the frame size is at most 32 MiB and the table fits |
| PackAccepts.CopyableIff | internal/archive/pack.go:162-327 | the copying writers succeed iff, further, every payload decodes to its body and headers and frames expand to at most 32 MiB |
| PackAccepts.TableValidIff | internal/archive/seektable.go:81-163 | the table of any parts and rows is valid iff the pack is named, there are two parts or more, each sound, and rows fit and differ in id |
| PackAccepts.RouteIff | internal/archive/pack.go:56-105 | which of the three writers makes the pack |
| PackReader.OpenPack | internal/archive/reader.go:24-101 | opens data as a table iff some frames and that table make a pack of it |
| PackReader.PackScansToTable | internal/archive/pack.go:190-327 | scanning a built pack of single-frame payloads gives the table's offsets and sizes in order, then one skippable frame with the marshalled table |
| PackReader.SingleFramesOpen | internal/archive/reader.go:24-101 | a pack built of single frames opens as its own table |
| PackReader.OpensIffSingleFrames | internal/archive/pack.go:228-240 | a built pack whose elements are frame streams opens iff each element is one frame, and only as its own table |
| PackReader.VerifyContentFrames | internal/archive/reader.go:255-286 | accepts iff every frame is in bounds with its digest and the digest over all frames matches; `PackTamper.TamperEvident` says what that accepts and refuses |
| PackReader.BuiltPacksVerify | internal/archive/reader.go:255-286 | every pack a writer builds passes verification |
| PackTamper.TamperEvident | internal/archive/reader.go:255-286 | with the table of a built pack, exactly the data that begins with its frames is accepted |
| PackTamper.ChangedDigestRefused | internal/archive/reader.go:255-286 | an emptied or otherwise changed frame digest in any row, or a changed pack digest, is refused |
| PackTamper.DecompressedIff | internal/archive/reader.go:303-335 | a frame of altered data decodes iff its bytes are the written ones, and then as written |
| PackTamper.ChangedRowFails | internal/archive/reader.go:303-335 | a row whose size or digest differs from what was written decodes to nothing |
| PackTamper.ReadsNeverMislead | internal/archive/reader.go:156-244 | a range read of altered data gives what the written pack gives, or fails |
| PackReader.FindMember | internal/archive/seektable.go:166-178 | finds the first member whose entry id or name is the trimmed id |
| PackReader.FoundIff | internal/archive/seektable.go:166-178 | what is found is the first member that has the id as entry id or as name |
| PackReader.FoundUnderOwnId | internal/archive/seektable.go:166-178 | a member is found under its own id iff the id is trimmed and no earlier member answers to it |
| PackReader.FramesIntersectingRaw | internal/archive/seektable.go:180-192 | the frames that overlap a range, in order |
| PackReader.ReadMemberRange | internal/archive/reader.go:156-244 | returns what the frames overlapping the requested range yield, or the first failure among them |
| PackReader.ReadErrors | internal/archive/reader.go:156-193 | which read is a bad request or names no member, which is empty, and that a range no frame covers is corrupt |
| PackReader.GatherIsWindow | internal/archive/reader.go:198-240 | overlapping frames of a built pack yield exactly the window of the raw stream, or exceed the budget |
| PackReader.MembersReadBack | internal/archive/reader.go:156-244 | reading any range of any held member returns that slice of its body, and fails exactly when its frames exceed the decompression budget |
| PackReader.HeldLayout | internal/archive/pack.go:190-327 | frames tile both streams from first to last byte, members are 512-aligned, in order and disjoint, TarSize is whole blocks |
| PackReader.HeldPackOpensAndVerifies | internal/archive/pack.go:162-327 | what a writer publishes from single frames opens as its table and verifies |
| PackReader.RepackedIsSingleFrames | internal/archive/writer.go:86-110 | a repacked pack always consists of single frames |
| Quarantine.IsQuarantined | internal/archive/lifecycle.go:196-222 | true iff some entry counts for the trimmed id; no slice runs out of range |
| Quarantine.MiddleInRange | internal/archive/lifecycle.go:213-217 | prefix and suffix of a matching name never overlap |
| Quarantine.NameCounts | internal/archive/lifecycle.go:196-243 | a quarantined file of q counts for p iff q is p or continues p with a stamp-shaped segment |
| Quarantine.ReportedIff | internal/archive/lifecycle.go:196-243 | for any list of quarantined files, exactly which ids their names are reported for |
| Quarantine.ReportedIffQuarantined | internal/archive/lifecycle.go:196-243 | for files whose ids have no stamp-shaped segment, exactly the ids themselves |
| Quarantine.StampSegmentMisleads | internal/archive/lifecycle.go:208-220 | without that condition an id never quarantined is reported |
| Quarantine.AllocateName | internal/archive/lifecycle.go:171-182 | ends at the first free name, never an occupied one, or gives up after 1000 |
| Quarantine.LowestFree | internal/archive/lifecycle.go:171-182 | it gives up only when the plain name and all of the numbers 1 to 1000 are taken, and otherwise takes the lowest free one |
| Quarantine.NameSpelled | internal/archive/lifecycle.go:165-182 | the names tried, letter by letter, with the number in decimal |
| Quarantine.NamesDiffer | internal/archive/lifecycle.go:171-182 | no two of them are the same |
| Quarantine.StampIff | internal/archive/lifecycle.go:226-243 | a stamp is eight digits, T, six digits, Z |
| PackIndexes.BuildIndexFromPack | internal/archive/index.go:66-110 | builds the index of exactly these bytes iff id, data and table are usable |
| PackIndexes.TrustedIffSamePack | internal/archive/index.go:146-166 | an index built for (id, d) is trusted for (p, data) iff data is d and id is the trimmed p |
| PackIndexes.AlteredIndexTrustedIff | internal/archive/index.go:241-281 | given the index built for a pack, exactly which other sidecars would be trusted in its place: those equal up to affinity, time, letter case of digests, and member rows |
| PackIndexes.IndexDescribes | internal/archive/index.go:66-110 | the index gives size, digests and counts of the pack and one row per member in order, under the id it is found by |
| ArchiveStore.FSStore.MemPut | internal/archive/memory.go:65-135 | replaces the row of the trimmed id iff the bytes open, verify and name that id |
| ArchiveStore.FSStore.PutPack | internal/archive/fsstore.go:71-134 | each disk step may fail or be the last: the store afterwards is the specified one, rolled back or published |
| ArchiveStore.FSStore.DeletePack | internal/archive/fsstore.go:161-169 | the store after each combination of ignored removal outcomes |
| ArchiveStore.FSStore.Open | internal/archive/fsstore.go:230-258 | loads on first use; the catalog row, its trust flag and the reply are the specified ones |
| ArchiveStore.FSStore.RebuildIndex | internal/archive/fsstore.go:186-211 | writes a fresh sidecar and flags the row only when both writes went through |
| ArchiveStore.FSStore.VerifyAndMaybeQuarantine | internal/archive/fsstore.go:215-225 | moves a corrupt file to a free quarantine name and drops its row, or leaves everything |
| StoreReplies.AcceptsIff | internal/archive/memory.go:65-135 | what the store takes: at most 256 MiB that open, verify and name this id |
| StoreReplies.PathOkIff | internal/archive/fsstore.go:55-69 | which ids are one path segment: no separator, no two dots in a row |
| StoreReplies.PutReplies | internal/archive/fsstore.go:71-134 | which put is published, refused or cut off, from the first of its steps that does not go through |
| StoreReplies.PutLeaves | internal/archive/fsstore.go:71-134 | file, sidecar and row after a put change only as far as its steps went |
| StoreReplies.DeleteLeaves | internal/archive/fsstore.go:161-169 | what each removal takes away, whatever the answer; the answer follows the catalog |
| StoreReplies.OpenReplies | internal/archive/fsstore.go:230-258 | each answer of an open, iff, from row, path, file and quarantine |
| StoreReplies.OpenLoads | internal/archive/fsstore.go:230-258 | an open changes at most the row it loads, trusted iff a readable sidecar is trusted |
| StoreReplies.RebuildLeaves | internal/archive/fsstore.go:186-211 | when a rebuild writes a sidecar, and which; no pack is touched |
| StoreReplies.VerifyMovesSidecar | internal/archive/lifecycle.go:153-192 | the sidecar goes with a moved pack iff its own move is done |
| StoreRuns.PutCoherentIff | internal/archive/fsstore.go:71-134 | exactly when a put leaves every catalog row equal to its file and its trust flag backed by a sidecar |
| StoreRuns.DeleteCoherentIff | internal/archive/fsstore.go:161-169 | the same for a delete |
| StoreRuns.OpenCoherent | internal/archive/fsstore.go:230-258 | loading never makes memory and disk disagree |
| StoreRuns.RebuildCoherentIff | internal/archive/fsstore.go:186-211 | exactly when a rebuild leaves them agreeing |
| StoreRuns.VerifyCoherent | internal/archive/fsstore.go:215-225 | quarantining never makes them disagree |
| StoreRuns.StepRefines | internal/archive/fsstore.go:71-258 | each event changes what readers see exactly as the same event changes a plain map from id to bytes |
| StoreRuns.RunRefines | internal/archive/fsstore.go:71-258 | over any run with failures, crashes and restarts, rows equal files and readers see the plain map |
| StoreRuns.ReaderSeesMap | internal/archive/fsstore.go:137-150 | an open returns exactly the bytes the plain map holds, unless the file cannot be read just now |
| StoreRuns.PutIsAtomic | internal/archive/fsstore.go:71-134 | published means seen, refused means readers see no change, a crash is one or the other |
| StoreRuns.DeleteReportsCatalog | internal/archive/fsstore.go:161-169 | what delete reports follows the catalog, what it does follows the file removal |
| StoreRuns.RunProvenance | internal/archive/index.go:207-225 | in every reachable state each parsed sidecar was built for some verified pack |
| StoreRuns.TrustMeansBuilt | internal/archive/index.go:241-281 | in every reachable state a sidecar is trusted only if built for exactly the id and bytes asked about |
| StoreRuns.TrustedRowHasSidecar | internal/archive/fsstore.go:116-132 | a row flagged trusted has on disk a sidecar built for the file as it is on disk |
| StoreRuns.PublishedIndexIsTrusted | internal/archive/fsstore.go:116-132 | build, write and open without a change in between is trusted, now and after a restart |
| StoreRuns.QuarantineConserves | internal/archive/lifecycle.go:153-192 | no quarantined file is overwritten, and a file that leaves the store arrives there whole |
| StoreRuns.VerifyMovesIff | internal/archive/lifecycle.go:107-151 | a check moves a pack file iff it was asked to, could read the file, found it damaged, a name was free and the move went through; else packs, sidecars and quarantine stay |
| StoreRuns.VerifyReports | internal/archive/fsstore.go:215-225 | a check asked only to look changes nothing; what is answered in each case |
| StoreRuns.QuarantinedIsReported | internal/archive/fsstore.go:230-245 | after a quarantine, opening the id says so |
| StoreRuns.QuarantineChange | internal/archive/lifecycle.go:171-185 | the quarantine directory changes only when a pack is moved there, and then by one name that was free |
| StoreRuns.RunReportsIff | internal/archive/lifecycle.go:153-243 | after any store run with failures, crashes and restarts, an id is reported iff it was before, or the run quarantined it or an id that continues it with a stamp-shaped segment |
| StoreRuns.RunReportsQuarantined | internal/archive/lifecycle.go:153-243 | for ids without such a segment: reported iff some quarantine of that id occurred in the run |
| PackLifecycle.ReaderMeetsContract | internal/archive/reader.go:24-101 | the modelled reader satisfies what the store proofs assume of it |
| PackLifecycle.HeldPackIsAccepted | internal/archive/memory.go:65-135 | a written pack is accepted by the store under its own id |
| PackLifecycle.ArchivedMemberReadsBack | internal/archive/fsstore.go:71-258 | after a publish and any run that neither replaces nor removes the id, every member reads back |
| PackSelection.SelectPackBatches | internal/logmirror/affinity_key.go:255-311 | the loops compute the specified batches, whatever order the map of groups is walked in |
| PackSelection.SelectShape | internal/logmirror/affinity_key.go:240-311 | batch count and sizes are bounded, nothing is taken twice, and with minimum 1 a batch comes out and all is taken unless the limit is reached |
| PackSelection.SelectHomogeneous | internal/logmirror/affinity_key.go:240-254 | a batch never mixes affinities |
| PackSelection.ChunksTakePrefix | internal/logmirror/affinity_key.go:297-308 | a group's batches take a prefix of the sorted group, and stop early only when less than the minimum is left |
| PackSelection.GroupsPartition | internal/logmirror/affinity_key.go:268-278 | grouping loses and repeats nothing |
| PackSelection.SelectInBuildOrder | internal/logmirror/affinity_key.go:285-293 | within every batch generations come by job, build and id |
| PackSelection.SelectLeavesLittle | internal/logmirror/affinity_key.go:285-311 | of each affinity the first by job, build and id are taken; too few for another batch are left unless the batch limit is reached in it |
| PackSelection.SelectInOrder | internal/logmirror/affinity_key.go:279-311 | all that is selected comes in one order: affinity, job, build, id |
| PackSelection.ShortBatchIsLast | internal/logmirror/affinity_key.go:297-308 | a batch that is not full is the last of its affinity |
| Maintenance.Maintainer.ListPackCandidates | internal/app/maintenance.go:629-663 | exactly the sealed, unpacked, unpinned, unleased generations, in listing order |
| Maintenance.Maintainer.CompactTick | internal/app/maintenance.go:507-627 | table and outcome after a compaction are the specified ones, for every failure pattern and a cancellation before any batch |
| Maintenance.Maintainer.PackGenerations | internal/logmirror/pack.go:201-344 | resolving the builds, refusing and marking one by one ends in the specified table: nothing changed on refusal, else exactly the resolved generations of the members it got to mark |
| Maintenance.Maintainer.ReleaseTick | internal/app/maintenance.go:396-484 | table and count after the releases are the specified ones, with cap, gate, errors and cancellation |
| Maintenance.Maintainer.Tick | internal/app/maintenance.go:263-388 | one tick is eviction, compaction and release in that order, and stops when compaction fails to list |
| MaintenanceTerms.SettingsMean | internal/app/maintenance.go:96-165 | every setting as used: the given value, or its default when it is not positive |
| MaintenanceTerms.PackCandidatesAre | internal/app/maintenance.go:629-663 | which rows may be packed, each as often as it is listed, by update time |
| MaintenanceTerms.ReleaseCandidatesAre | internal/store/release.go:287-303 | which rows may be released, each as often as it is listed, by update time |
| MaintenanceTerms.CompactOutcome | internal/app/maintenance.go:507-627 | how a compaction ends in every case: error, skip reason, rows, packs and members |
| MaintenanceTerms.NoBatchesIff | internal/app/maintenance.go:573-591 | among candidates, no batch is found iff the quota has no headroom, nothing has the force age and every affinity has too few members |
| MaintenanceTerms.CountsArePublished | internal/app/maintenance.go:601-624 | packs and members are those of the calls that published |
| MaintenanceTerms.PackableMeans | internal/logmirror/pack.go:201-280 | which batches can be packed: one profile, and of every build a sealed latest row, none twice |
| MaintenanceTerms.LatestIff | internal/store/meta.go:250-262 | the latest row of a build is one that no other row of the build exceeds in generation |
| MaintenanceTerms.ReleasePassExactly | internal/app/maintenance.go:396-484 | a release pass releases exactly the first candidates that can go, up to the cap, and says how many, unless one before the cap is cancelled |
| MaintenanceTerms.JournalFinishes | internal/store/release.go:208-283 | recovery releases the journalled row and no other, and only while it is a candidate whose pack verifies |
| MaintenanceTerms.TickInOrder | internal/app/maintenance.go:263-388 | when each part of a tick runs, on which rows and with which usage |
| MaintenanceRuns.BatchesAreEligible | internal/app/maintenance.go:549-581 | only sealed, unpacked, unheld generations enter batches, none twice, at most maxPacks batches of one affinity each, under headroom only force-aged ones |
| MaintenanceRuns.ShortBatchesAreForced | internal/app/maintenance.go:575-580 | a batch below the minimum size holds force-aged generations only |
| MaintenanceRuns.PackedIffNotSkipped | internal/app/maintenance.go:507-627 | without an error, packs > 0 iff no skip reason is given |
| MaintenanceRuns.CompactTransition | internal/app/maintenance.go:601-621 | a compaction changes only candidates, by one pack mark; under headroom only force-aged ones |
| MaintenanceRuns.ReleaseTransition | internal/app/maintenance.go:447-483 | L1 goes only for a packed, verified, unheld generation that is old enough, under pressure, or journalled, at most cap many |
| MaintenanceRuns.ReleasedOnlyWhen | internal/app/maintenance.go:421-465 | a generation that is not journalled loses L1 only while its pack verifies, and only when the configuration says so, free space is at or below the pressure share, eviction is needed, or it is old enough |
| MaintenanceRuns.TickReleasesOnlyWhen | internal/app/maintenance.go:263-388 | the same over a whole tick, with the usage and times of that tick |
| MaintenanceRuns.ReleasedWhen | internal/app/maintenance.go:447-483 | and such a candidate does lose it when its release goes through and the cap is not reached |
| MaintenanceRuns.TickTransition | internal/app/maintenance.go:263-388 | a tick does to a generation at most one pack mark and then one release; ids and builds stay unique |
| MaintenanceRuns.RunSound | internal/app/maintenance.go:263-388 | in every reachable state a released generation is sealed and in a pack |
| MaintenanceRuns.HeldIsUntouched | internal/app/maintenance.go:640-660 | a generation pinned or leased throughout comes through any run unchanged |
| MaintenanceRuns.PackIsForGood | internal/app/maintenance.go:644-646 | a packed generation keeps its pack through any run |
| MaintenanceRuns.MarksLatestOnly | internal/app/maintenance.go:606-609 | a batch member is marked iff it is the latest generation of its build |
| MaintenanceRuns.PackCallMarks | internal/logmirror/pack.go:258-333 | a pack call marks a row iff it is not refused and the row is the latest generation of the build of a member it gets to mark; every other row stays as it is |
| MaintenanceRuns.TwoGenerationsAreRefused | internal/logmirror/pack.go:252-280 | a batch with two generations of one build is refused, whatever the table holds |
| MaintenanceProgress.TickPacks | internal/app/maintenance.go:560-621 | while any force-aged generation waits, beside whatever younger ones, a quiet tick packs at least one force-aged one: the number due by now or by any later time falls |
| MaintenanceProgress.TicksPackAll | internal/app/maintenance.go:507-627 | for any mix of old and young: all generations due at the first tick are packed after as many quiet ticks as generations are due by the last |
| MaintenanceProgress.YoungerMayGoFirst | internal/app/maintenance.go:577-581 | one that has come of age since can be packed first, so the number due at the first tick alone is no bound |
| MaintenanceProgress.TicksRelease | internal/app/maintenance.go:447-483 | once all is packed, each quiet tick with open gates releases exactly up to the cap |
| MaintenanceProgress.TicksReleaseGiven | internal/app/maintenance.go:447-483 | given packed generations are all released once ticks times cap reach the unreleased ones, whatever else waits or is packed meanwhile |
| MaintenanceProgress.TickMakesProgress | internal/app/maintenance.go:396-627 | due plus unreleased strictly decreases in every quiet tick that finds a generation to force or one it may release |
| MaintenanceProgress.AllPackedThenReleased | internal/app/maintenance.go:396-627 | for any mix: all that are packed or force-aged at the start are packed after the packing ticks and released after enough more |
| ReleaseJournal.ReleaseManager.ReleasePackedL1 | internal/store/release.go:115-204 | disk after a release that may fail or die at any write |
| ReleaseJournal.ReleaseManager.RecoverReleaseJournal | internal/store/release.go:208-283 | disk after a recovery that may fail or die at any write |
| ReleaseJournal.ReleaseManager.ApplyReleaseItem | internal/store/release.go:329-396 | how far one journal item gets past the second pin check and each write, and what it changed |
| ReleaseJournal.ReleaseLeaves | internal/store/release.go:115-204 | rows and journal after a release, from what its steps reached |
| ReleaseJournal.ReleaseReports | internal/store/release.go:115-204 | which release is refused, done, failed or cut off |
| ReleaseJournal.RecoverLeaves | internal/store/release.go:208-283 | rows and journal after a recovery |
| ReleaseJournal.RecoverReports | internal/store/release.go:208-283 | which recovery does nothing, finishes, fails or is cut off |
| ReleaseJournal.RunSafe | internal/store/release.go:51-62 | in every reachable state a log has its whole L1 copy, or is in the very pack that was verified by the call that released it |
| ReleaseJournal.TakenOnlyWhileSound | internal/store/release.go:99-109 | in every reachable state, a release or recovery takes something of an L1 copy only while the pack of that log verifies |
| ReleaseJournal.ReleaseTracksIff | internal/store/release.go:115-204 | exactly when a release leaves L1 leftovers that no journal entry knows |
| ReleaseJournal.UndisturbedRecoveryFinishesIff | internal/store/release.go:208-283 | exactly when an undisturbed recovery leaves leftovers |
| ReleaseJournal.PinAfterCrashLeavesFiles | internal/store/release.go:246-259 | a pin set after a crash makes recovery leave the files of a released generation |
| KeyRotation.KeyCommands.RunCacheKeyInit | cmd/jenkins-mcp/doctor_cmd.go:230-305 | keyring and profile after init or rotate with any failing write; the key buffer is zeroed once stored |
| KeyRotation.CommandLeaves | cmd/jenkins-mcp/doctor_cmd.go:230-305 | profile and keyring after init or rotate, write by write |
| KeyRotation.CommandReports | cmd/jenkins-mcp/doctor_cmd.go:230-305 | which command is declined, done, failed or cut off, and for which version |
| KeyRotation.LoadIff | cmd/jenkins-mcp/cache_crypto.go:30-59 | when a load gives keys, and which |
| KeyRotation.StepRetainsIff | cmd/jenkins-mcp/doctor_cmd.go:230-305 | exactly which step loses the keys N and N-1 with the material their frames were sealed with |
| KeyRotation.RunRetains | cmd/jenkins-mcp/doctor_cmd.go:230-305 | over any regular run with failures and crashes both are retained |
| KeyRotation.ReadableIffRecent | cmd/jenkins-mcp/cache_crypto.go:30-59 | a load now opens a frame iff its version is N or N-1 |
| KeyRotation.FramesStayReadable | cmd/jenkins-mcp/doctor_cmd.go:230-305 | from a fresh profile, after any regular run, every frame sealed at N or N-1 is readable and no older one |
| KeyRotation.TidyStep | cmd/jenkins-mcp/doctor_cmd.go:288-298 | a step without failed writes leaves exactly the last two versions |
| KeyRotation.RunTidy | cmd/jenkins-mcp/doctor_cmd.go:288-298 | the same over whole runs |
| KeyRotation.RotateTidiesStray | cmd/jenkins-mcp/doctor_cmd.go:275-298 | a rotation after a crash that left a stray next key restores that |
| KeyRotation.UnavailableProbeLosesFrames | internal/keyring/cache_key.go:70-85 | after an init during an outage of the secret service, at any version, exactly the frames of the version before are readable |
| TokenBuckets.TokenBucket.Allow | internal/adapter/budget.go:78-103 | refill, clamp, decide and take, with `last` following the clock |
| TokenBuckets.AllowIff | internal/adapter/budget.go:78-103 | a call is granted iff the smaller of the capacity and level plus rate times elapsed time covers it, and what is left then |
| TokenBuckets.NextCallFinds | internal/adapter/budget.go:89-97 | the level between two calls: what was left plus rate times the time between, up to the capacity |
| TokenBuckets.NothingLost | internal/adapter/budget.go:78-103 | while the bucket never fills, grants plus what is left are exactly the first level plus rate times forward time |
| TokenBuckets.RunInRange | internal/adapter/budget.go:61-103 | tokens stay within 0 and capacity over every run |
| TokenBuckets.TokensBound | internal/adapter/budget.go:78-103 | grants plus what is left are at most the first level plus rate times the window's forward time |
| TokenBuckets.AnyWindowBound | internal/adapter/budget.go:78-103 | any window of any run grants at most capacity plus rate times its forward clock steps |
| TokenBuckets.MonotoneLength | internal/adapter/budget.go:89-97 | on a monotone clock those steps sum to the window's length |
| TokenBuckets.DeniedCallsUnobservable | internal/adapter/budget.go:78-103 | on a monotone clock, deleting all denied calls changes no remaining outcome and no later level |
| TokenBuckets.DenialUnseenIff | internal/adapter/budget.go:89-101 | exactly when one denied call leaves no trace |
| AuditSink.File.RotateLocked | internal/audit/file.go:134-169 | files, handle and size after a rotation that any rename, removal or reopen may end |
| AuditSink.File.Emit | internal/audit/file.go:98-132 | rotates when the line would not fit, writes through the handle whatever came of that |
| AuditSink.ShiftKeepsSuffix | internal/audit/file.go:138-155 | however far a shift gets, the files oldest-first hold a suffix of what there was |
| AuditSink.RunKeepsSuffix | internal/audit/file.go:98-169 | over any run with faults and restarts the files oldest-first are a suffix of the log |
| AuditSink.HealthyEmit | internal/audit/file.go:98-169 | without faults only the one file past the limit is ever lost |
| AuditSink.RunBounded | internal/audit/file.go:98-169 | over any run with faults and restarts the size kept is that of the open file; without failing renames and reopens no file outgrows the limit unless it is a single line |
| AuditSink.FittingEmit | internal/audit/file.go:113-129 | where the line fits, or the file is empty, or there is no limit, an emit only appends to the open file |
| AuditSink.OverflowingEmit | internal/audit/file.go:134-169 | where it does not fit it is alone in a fresh file and what was open is the next one |
| AuditSink.HandleFollows | internal/audit/file.go:134-155 | a rename leaves the handle at the file it was at, unless that file was replaced |
| AuditSink.EmitCounts | internal/audit/file.go:124-131 | a line that is written counts towards the size, also where the open file has been unlinked |
| AuditSink.StuckRotation | internal/audit/file.go:156-163 | a rotation that cannot reopen pushes the handle one file down, and from the last one off the end |
| AuditSink.StuckReopenLosesAll | internal/audit/file.go:113-127 | repeated, that loses all retained events while every emit succeeds |
| AuditSink.SuccessfulEmitLostIff | internal/audit/file.go:98-169 | exactly which successful emit keeps nothing of its event; in every other case, whatever else fails, the event is the newest retained |
| AuditTail.Window.Push | internal/admin/audit_read.go:310-317 | the in-place shift keeps the newest limit events in order |
| AuditTail.Window.Reverse | internal/admin/audit_read.go:256-259 | the in-place swap loop reverses the window |
| AuditTail.AppendMatches | internal/admin/audit_read.go:268-323 | the window holds the last limit of everything matched so far; fails iff a line is too long |
| AuditTail.ReadAuditFile | internal/admin/audit_read.go:233-263 | over the listed files: fails iff one cannot be read, else the reverse of the last limit matches, truncated iff there are more |
| AuditTail.ListAuditReadPaths | internal/admin/audit_read.go:138-223 | stamped siblings by time, numbered ones from high to low within 1 to 32, then the active file |
| AuditTail.ReadOrderIs | internal/admin/audit_read.go:138-223 | which entries are read, each as often as listed: stamped ones by time and name, numbers 1 to 32 downwards, the active file last or alone |
| AuditTail.MatchingCounts | internal/admin/audit_read.go:295-309 | an event is kept as often as it occurs iff kind, subject and time are as asked |
| AuditTail.PageIs | internal/admin/audit_read.go:245-263 | a page is the end of the matches backwards, truncated iff there are more |
| AuditTail.NormalizeMeans | internal/admin/audit_read.go:96-113 | limits 50 and 200, trimmed filters, a subject cut to 128 |
| AuditTail.ListedDescends | internal/admin/audit_read.go:191-222 | the numbered part goes strictly down and misses no file of the sink |
| AuditTail.DescendingIsConcat | internal/admin/audit_read.go:209-222 | reading in that order is reading the events in the order they were appended |
| AuditTail.NewestOfLog | internal/admin/audit_read.go:225-232 | when the retained events fill a page, they are the newest matches of the whole log |
| AuditTail.ListingReadsAll | internal/admin/audit_read.go:138-263 | reading through the listing of the directory is reading the retained events in append order |
| AuditTail.PageOfRun | internal/admin/audit_read.go:138-323 | after any sink run of at most 32 files, the page read through the listing holds the newest matches of the retained events, a suffix of the log, and of the log itself when they fill it |
| PolicyApply.Validate | internal/policy/overlay.go:302-379 | accepts iff version, mode, deny entries, caps and every subject binding are valid, and leaves lists and bindings trimmed |
| PolicyApply.ValidIff | internal/policy/overlay.go:302-379 | which overlays are valid, field by field and entry by entry |
| PolicyApply.CheckMonotonicRestrict | internal/admin/policy_write.go:327-415 | no error iff the draft keeps every force flag, strict mode, deny entry and cap |
| PolicyApply.KeepsIff | internal/admin/policy_write.go:327-452 | what the check compares: each flag, strict mode, every denied name, every cap in force |
| PolicyApply.Missing | internal/admin/policy_write.go:417-452 | reports exactly the current entries the proposed list lacks, after trimming |
| PolicyApply.KeepsReflexive | internal/admin/policy_write.go:327-415 | applying the current overlay again is accepted |
| PolicyApply.KeepsChainsIff | internal/admin/policy_write.go:375-414 | the relation chains through an overlay iff it carries every cap |
| PolicyApply.KeepsTransitive | internal/admin/policy_write.go:327-415 | on valid overlays the relation is transitive |
| PolicyApply.CleanIsSame | internal/policy/overlay.go:316-361 | trimming changes neither validity nor what is enforced |
| PolicyApply.PolicyFile.Apply | internal/admin/policy_write.go:121-216 | the file changes only to a valid draft that keeps everything, and only when the write goes through |
| PolicyApply.PolicyFile.PutBindings | internal/admin/policy_bindings.go:104-213 | replaces the subjects of the current overlay, or of a fresh read-only one, and nothing else |
| PolicyApply.ApplyIff | internal/admin/policy_write.go:121-216 | which apply goes through, is refused or fails to write, from the file as it is on disk; the file changes only then |
| PolicyApply.BindingsIff | internal/admin/policy_bindings.go:104-213 | the same for a bindings write, and what it leaves as it was |
| PolicyApply.PolicyFile.LoadBaseline | internal/admin/policy_write.go:521-578 | the current overlay trimmed, nothing, or an error |
| PolicyApply.RunKeeps | internal/admin/policy_write.go:121-216 | after any run of applies and bindings writes, force flags and strict mode stay on, deny sets contain the original, caps are set and no larger |
| PolicyAccess.NarrowsIffUncheckedKept | internal/admin/policy_write.go:311-326 | an accepted overlay lets through no call the earlier one refused iff, for every tool it offers to a subject, the mutation lists and what the bindings add are kept |
| PolicyAccess.PermitsIff | internal/policy/rbac.go:241-430 | which calls a policy lets through, from the single entries of all lists and caps that apply to the subject |
| PolicyAccess.IsForIff | internal/policy/bindings.go:184-224 | whom a binding is for: by user id, by external subject, by both, or by group |
| PolicyAccess.KeptCallPasses | internal/policy/rbac.go:241-430 | a call that passes the later policy passes the earlier one when its fields are kept |
| PolicyAccess.GivenUpFieldWidens | internal/policy/rbac.go:241-430 | a field given up for an offered tool shows in a well-formed call that now passes |
| PolicyAccess.JobsShrinkIff | internal/policy/mutation_allowlist.go:77-99 | no further job becomes allowed iff every later prefix lies, at a segment boundary, under an earlier one and the list is not emptied |
| PolicyAccess.NarrowsByLists | internal/policy/bindings.go:226-248 | enough for that: the mutation lists shrink and no binding goes away |
| PolicyAccess.AcceptedButWider | internal/admin/policy_write.go:327-415 | four overlays that the check lets be replaced by one that permits more: by tools, modes, job prefixes, bindings |
| Allowlist.AllowlistFromIDs | internal/adapter/allowlist.go:44-54 | the set of non-empty normalized ids |
| Allowlist.NormalizeApproved | internal/adapter/allowlist.go:282-298 | a sorted list without repetition of exactly that set |
| Allowlist.CanonicalUnique | internal/adapter/allowlist.go:282-298 | two canonical lists are equal iff their id sets are |
| Allowlist.SameBodyIffSameAllowlist | internal/adapter/allowlist.go:273-298 | signing bodies are equal iff versions are and the lists load to the same allowlist |
| Allowlist.CanonicalKeepsIds | internal/adapter/allowlist.go:402-404 | the canonical list stands for the same ids, so signing it signs the list |
| Allowlist.VerifySignatures | internal/adapter/allowlist.go:300-365 | accepts iff every entry verifies under a trusted key and enough different key ids signed, or the single signature verifies |
| Allowlist.LoadAllowlistFile | internal/adapter/allowlist.go:164-201 | loads exactly when unsigned use is allowed or the signatures hold, and then as the approved set |
| Allowlist.LoadsIff | internal/adapter/allowlist.go:164-201 | which documents load: unsigned ones unless signatures are required and there are trusted keys; signed ones iff every signature is good and enough different key ids signed |
| Allowlist.SignAllowlistMulti | internal/adapter/allowlist.go:416-451 | one entry per signer, each a signature over the canonical body; refused iff there is no signer or an id is blank |
| Allowlist.SignedLoadsIff | internal/adapter/allowlist.go:416-451 | signed by trusted keys, it loads as what was signed iff enough different key ids signed |
| Allowlist.RewritingKeepsSignatures | internal/adapter/allowlist.go:273-280 | order, case, padding and repetitions matter neither to signatures nor to the result |
| Allowlist.MovedSignaturesLoadIff | internal/adapter/allowlist.go:300-365 | with its signatures moved to another version or list, a document loads iff every one of them is good for that too |
| Allowlist.TamperingIsRefused | internal/adapter/allowlist.go:300-365 | so when one signature tells the two bodies apart, it loads iff it is the same allowlist |
| Allowlist.ContainsIffApproved | internal/adapter/allowlist.go:57-63 | an id is allowed iff some approved entry normalizes to the same name |
| FlagArgs.ValueTakingFlags | cmd/jenkins-mcp/main.go:2559-2568 | exactly the flags that are not boolean |
| FlagArgs.ReorderFlagArgs | cmd/jenkins-mcp/main.go:2570-2594 | the loop computes the front and the back part of the arguments |
| FlagArgs.ReorderedIsPermutation | cmd/jenkins-mcp/main.go:2570-2594 | a permutation of the arguments, less the first `--` |
| FlagArgs.ReorderIsIdempotent | cmd/jenkins-mcp/main.go:2570-2594 | without `--`, reordering twice is reordering once |
| FlagArgs.TakesNextIffNeeds | cmd/jenkins-mcp/main.go:2584-2592 | a following argument is moved along iff the parser would consume it as a value |
| FlagArgs.MeaningKeptIff | cmd/jenkins-mcp/main.go:2553-2594 | for every command line: Go's parser reads the reordered line as it was meant iff the one-pass scan `Kept` finds nothing |
| FlagArgs.FrontReadsAsIntended | cmd/jenkins-mcp/main.go:2553-2594 | the front part parses to the intended settings and then the parser goes on with what follows |
| FlagArgs.ReorderingKeepsMeaning | cmd/jenkins-mcp/main.go:2553-2594 | without `--` and lone `-`, with every flag given a value, be it with a dash, that takes no further argument along: same values in the same order, same positionals, or the same usage error |
| FlagArgs.LineReadsBack | cmd/jenkins-mcp/main.go:2553-2594 | a line of flags and positionals written in any order, reordered and parsed, gives back exactly the flags with their values and the positionals, in order |
| FlagArgs.WrongFlagIsRefused | cmd/jenkins-mcp/main.go:2553-2594 | a flag that is not registered is a usage error wherever it stands among proper pieces |
| FlagArgs.TokenSpelled | cmd/jenkins-mcp/main.go:2584-2592 | what each spelling of a flag is to the parser, with one dash or two, alone or with a joined value |
| FlagArgs.TokenIsSpelled | cmd/jenkins-mcp/main.go:2584-2592 | and the parser takes nothing else for a flag |
| FlagArgs.DashDashKeptIff | cmd/jenkins-mcp/main.go:2574-2577 | after a `--`, meaning is kept iff a positional precedes it or its tail does not begin like a flag |
| FlagArgs.MissingValueTakesPositional | cmd/jenkins-mcp/main.go:2588-2591 | a last flag without its value takes the first positional, and is an error only without positionals |
| FlagArgs.LoneDashKeptIff | cmd/jenkins-mcp/main.go:2578-2583 | a lone `-` keeps its meaning iff no positional precedes it and only lone dashes and then positionals follow |
| FlagArgs.TakingValueKeptIff | cmd/jenkins-mcp/main.go:2584-2592 | a value spelled like a value flag takes the next argument along: meaning is kept iff nothing is set after it and no other positional stands before |
| FlagArgs.MovedPositional | cmd/jenkins-mcp/main.go:2584-2592 | an input where that swaps positionals |
| FlagArgs.LostSetting | cmd/jenkins-mcp/main.go:2584-2592 | an input where that drops a later setting |

## Left out

- HTTP handlers, the admin pages, SAML, JWT and gateway commands, serve wiring, doctor and support-bundle output: plumbing over libraries, or settled by one branch.
- Zstandard, TAR, JSON, SHA-256, Ed25519, AES-GCM and base64 themselves: contracts only. Strings are Unicode scalars, so JSON's replacement of invalid UTF-8 is not modelled.
- The status-note rule after the graph checks of the task-index validator (scripts/validate-task-index.py:68-100): a text filter, which the summary at the head of the script does not mention.
- The skippable branch inside contentFrameEnd: the magic number read before the call rules it out.
- Decoder memory limits and concurrent use: calls are sequential, as the store does not lock reads and deletes against a put.
- PackReader.ReadMemberRange: does not model the store's own range ceiling and metadata, since each is one comparison in front of it; offset plus length does not wrap at 64 bits, which the ceiling keeps from happening through the store.
- Cancelled contexts inside one store call: a cancelled verification would count as corrupt and move a healthy file; the context is taken to stay live.
- AttachIndex of the in-memory store: not reachable through the filesystem store; it would flag a row as trusted without a file.
- ArchiveStore.FSStore.PutPack: does not model the catalog's schema version, creation time and counts, which readers of bytes never see; temporary files are not listed.
- ArchiveStore.FSStore.VerifyAndMaybeQuarantine: does not model the report's issue list nor where a moved sidecar ends up; its stamped name may replace an older moved sidecar.
- Maintenance.Maintainer.CompactTick: takes quota and usage as integers compared over the reals and the affinity key as a function, because its text normalization and labels do not affect which batches are made.
- Maintenance.Maintainer.Tick: eviction and its journal are a given set of removed generations, as the quota manager is not part of this model.
- ReleaseJournal.ReleaseManager.ReleasePackedL1: keeps chunk rows and frame files as flags per generation, not as lists; which packs verify does not change during one call.
- KeyRotation.KeyCommands.RunCacheKeyInit: profile and keyring belong to one profile; two commands at once are not modelled.
- TokenBuckets.TokenBucket.Allow: times and tokens are real numbers, so saturation of very long durations and rounding are not modelled.
- AuditSink.File.Emit: a write happens entirely or not at all, so a line cut short by a full disk is not modelled; a file status call tells the truth.
- AuditTail.ListAuditReadPaths: takes the number or stamp in a file name as given; the fallback probing for an unreadable directory lists the same numbers.
- PolicyApply.Validate: the syntax of a deny pattern and the anonymous user's name are given predicates.
- PolicyAccess.NarrowsIffUncheckedKept: the pattern language, letter case, the form of job names and the arguments each tool takes are given; rates per minute are not a matter of one call; policies take effect when the server has loaded them.
- PolicyApply.PolicyFile.Apply: one plain policy file. A policy path that ends in `.bundle.json` but holds plain content is read from there and written to the default file, which this model does not follow.
- Allowlist.SignAllowlistMulti: keys have the right size. The single-signature writer, which differs in the field it fills, has no proof of its own.
- Values of flags: a flag accepts any value, so errors from parsing a number are not modelled.
