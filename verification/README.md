# Verified model of the audit log, the contract ABI tools and the canonical encodings

This project models the parts of Glassbox whose correctness is decided by code rather than by a library, and proves what they promise. It is a Dafny 4.11 project; `dafny verify dfyconfig.toml` checks all of it.

What is modelled, by file:

- **The rotating, hash-chained audit log.** `Segment.dfy` (names, manifests), `Rotation.dfy` (what each writer call does to a directory and to the writer's fields, stopped at any stage or not), `LogInvariant.dfy`, `LogRuns.dfy` and `LogReach.dfy` (the invariant, runs of writes, rotations, closes, deaths and reopens, and runs that fill the log), `LogTimes.dfy` (when a run closes a segment, by size and by the clock), `Writer.dfy` (the directory and the writer as classes, each method proved to do exactly what `Rotation.dfy` says), `Verify.dfy` and `VerifyLaws.dfy` (verification of a directory and its exact meaning), `PolicyVerify.dfy` and `PolicyLaws.dfy` (verification under a policy, and how much a fail-fast report holds), `VerifyIssues.dfy` (which issue is raised of which segment), `Replacement.dfy` (replacing one segment of a verified directory), and `Retention.dfy`, `RetentionRule.dfy` and `RetentionOrder.dfy` (which segments to drop, the rule in sequence numbers, and when the oldest go first).
- **The ABI type language.** `TypeDef.dfy` (printer), `TypeParser.dfy` (parser and its loops), `BracketDepth.dfy` and `TypeShapes.dfy` (what counting brackets without telling them apart implies), `TypeTexts.dfy` (what is accepted, told of the text), `TypeRoundTrip.dfy` (exactly which types and strings round-trip) and `TypeGrammar.dfy` (the texts types are printed as). `ContractSpec.dfy`, `AbiJson.dfy`, `AbiText.dfy` and `AbiHash.dfy` put whole specifications, their JSON value and the ABI hash on top.
- **The ABI compatibility checker.** `Compat.dfy` (when a difference holds between two specifications), `CompatReport.dfy` (the comparing loops, proved to report exactly those differences), `CompatLaws.dfy` (triangle law, duality, completeness) and `CompatStatus.dfy` (what the overall status says about the old interface). `AbiCompat.dfy` relates the report to the ABI hash.
- **The WebAssembly section readers.** `Wasm.dfy`, against the encodings of sections 5.2.2, 5.5.2 and 5.5.3 of the WebAssembly Core Specification, and `WasmReaders.dfy` (any bytes, truncated ones included).
- **Canonical JSON.** `Nfc.dfy` and `NfcLaws.dfy` (composition by table, and which texts it makes alike), `CanonicalJson.dfy` (encoding and decoding over tokens), `CanonicalOps.dfy` (the buffer-based encoder and the recursive decoder), `CanonicalLaws.dfy` and `CanonicalOrder.dfy` (exactly when the order of enumeration does not show), and `CanonicalText.dfy` (what is written is JSON with ascending keys).
- **The content-addressed WASM cache.** `CacheKey.dfy`, `WasmCache.dfy` (operations as interleaved steps, removals outside the lock) and `CacheStore.dfy` (the operations called in sequence are a map with expiry).
- **Three smaller pieces.** `Bundle.dfy` (length-framed ledger state), `Signers.dfy` (fewest signers to reach a weight), `Artifact.dfy` (metadata header of generated bindings).
- `Wrappers.dfy`, `Sorting.dfy` and `Spaces.dfy` stand for the libraries' option type, sorts and white space.

How the outside world appears: SHA-256, JSON text, XDR, number formatting and clock formatting are function parameters gathered in a `Lib` datatype whose `Sound` predicate says what is asked of them (decoding undoes encoding, a digest is 64 hexadecimal characters, a printed time keeps whole seconds). That a digest separates two texts is never part of `Sound`; a lemma that needs it names the texts. Clock readings, random suffixes and orders of map enumeration are parameters, so each statement covers all of them. A process death is a stop at one of the named stages of `internal/audit/atomic.go` and `internal/audit/rotation.go`; the next open starts from the directory that is left.

Where the code and its own description part ways, the model follows the code and the difference is a result:

- Segment names are formatted with at least six digits and read with exactly six, so the log is recovered up to segment 999999 (`LogRuns.RotationLimitExact`, `LogRuns.PastTheLimit`, reached in `LogReach.LimitReached`).
- `FailFast` is described as stopping after the first violation; it stops after the first invalid segment, with all of that segment's findings, and the note about unknown signers does not stop it (`PolicyLaws.FailFastSingleExact`, `PolicyLaws.TwoUnderFailFast`).
- `ExpectedSigners` can never be satisfied, because manifests carry no signer (`PolicyVerify.SignersNeverKnown`). `RequireHashChain` is never read (`PolicyVerify.FailFastReport`).
- Two closed bodies with equal bytes pass plain verification and fail it under the empty policy (`PolicyVerify.EmptyPolicyExact`, `PolicyLaws.EqualBodiesFail`).
- A retention limit under a policy is described in days; beyond 106751 of them the product of durations wraps (`VerifyIssues.RetentionExact`).
- Retention budgets are described as deleting oldest first; the size budget passes over a segment that does not fit and may keep older ones (`RetentionOrder.OldestFirstExact`, `Retention.SizeBudgetSkips`).
- The ABI hash is described as changing if and only if the ABI changes; that holds up to the order of entries and empty tuple cases, for specifications whose type names cannot be read as something else (`AbiJson.HashExact`, `AbiJson.HashMissesUnstableName`). It is described as independent of the input format; that holds exactly for types spelt as the printer spells them (`AbiHash.HashFormatExact`).
- The triangle law of compatibility, duality and completeness fail for functions that repeat a parameter name, exactly as `CompatLaws.TriangleExact`, `CompatLaws.SwapDualityExact` and `CompatLaws.EmptyDiffExact` say.
- The LEB128 reader accepts a fifth byte with spare bits set and drops them (`Wasm.DecodeFaithfulExact`, `Wasm.SpareBitsLost`).
- The signer count adds on 32 bits and can miss the crossing (`Signers.GreedyExact`, `Signers.WrappingCountsTooMany`).
- Canonical JSON is described as normalising to NFC; it composes the pairs of a table, so texts become alike exactly when they differ only in whether letters of that table are composed, and marks that commute under canonical equivalence keep their order (`NfcLaws.AlikeExact`, `NfcLaws.MarkOrderShows`). Its encoder, unlike its decoder, does not notice keys that normalise alike, and then the order of enumeration shows unless their members encode alike (`CanonicalOrder.OrderExact`).
- A cache entry can be removed by a reader that judged its expired predecessor (`WasmCache.SlowReaderRemovesFreshEntry`; exactly when, `WasmCache.KeptExact`).
- Frame lengths of ledger state wrap at 2^32 (`Bundle.FramingBoundExact`, `Bundle.LongStatesCollide`).

## Model

| member | source | states |
|---|---|---|
| LogRuns.Conservation | internal/audit/rotation.go:44-253 | after any run of opens, writes, rotations, closes and deaths at any stage, the directory holds a log whose records are exactly the acknowledged ones in order, and a live writer agrees with it |
| LogRuns.StepKeeps | internal/audit/rotation.go:90-253 | each single event, however it is stopped, keeps that invariant, the size bound and the configuration |
| LogRuns.BytesConserved | internal/audit/rotation.go:163-253 | the closed bodies in sequence followed by the active file are, byte for byte, the records of the log |
| LogRuns.HoldsSameBytes | internal/audit/rotation.go:276-291 | a directory holds at most one log up to where records end: same segments, same bytes |
| LogRuns.SegmentSizes | internal/audit/rotation.go:150-161 | with one limit in force, in every reachable state a segment over the limit holds a single record, and no record spans two segments |
| LogRuns.ManifestsCount | internal/audit/rotation.go:207-217 | each manifest's record count and size are those of its body when no record has a newline inside |
| LogRuns.RotationLimitExact | internal/audit/rotation.go:207-217 | a completed rotation leaves every record in a recognised place exactly while the sequence number is at most 999999 |
| LogRuns.PastTheLimit | internal/audit/rotation.go:276-291 | the millionth rotation reports success and leaves a directory that shows only the earlier segments |
| LogReach.ReachSegments | internal/audit/rotation.go:175-253 | every number of closed segments up to 999999 is reached by a run of opens, writes and rotations |
| LogReach.LimitReached | internal/audit/rotation.go:276-291 | such a run reaches 999999 segments and a record in the active file; the next rotation reports success and the record is in no recognised place |
| LogRuns.NoOrphans | internal/audit/rotation.go:216-234 | a run never stopped between the manifest and the rename of the body leaves no manifest without its body |
| LogRuns.OrphansStep | internal/audit/rotation.go:216-234 | no other event creates a manifest without its body |
| LogInvariant.RotateKeeps | internal/audit/rotation.go:175-253 | a rotation stopped anywhere, or by a failed rename, keeps the log; completed, it closes exactly the active records under the next number, linked to the predecessor's hash |
| LogInvariant.WriteKeeps | internal/audit/rotation.go:90-117 | a write appends its record exactly when it is acknowledged, whatever the rotation before it does |
| LogInvariant.CloseKeeps | internal/audit/rotation.go:128-145 | closing keeps every record, stopped or not |
| LogInvariant.OpenKeeps | internal/audit/rotation.go:44-85 | opening recovers from the directory alone the next number, the link of the chain, the size and the record count of the log it holds |
| LogInvariant.HighestIsLast | internal/audit/rotation.go:276-291 | the highest sequence number in the directory is the number of closed segments |
| LogInvariant.LatestIsLast | internal/audit/rotation.go:293-324 | the recorded hash of the greatest name is the hash of the last closed body |
| LogInvariant.CountsRecords | internal/audit/rotation.go:326-341 | counting newlines counts records when none has a newline inside |
| LogTimes.RotationRule | internal/audit/rotation.go:150-161 | in every run an acknowledged write makes a new closed body appear exactly when the active file holds something and either its bytes and those of the stored record pass a size limit, or an age limit is set and the time since the active segment was opened has reached it; opening times are those of the events, the configuration that of the last opening |
| LogTimes.NoLateAppend | internal/audit/rotation.go:157-159 | under an age limit no record is appended to a segment that has been open for as long as the limit |
| LogTimes.ClockOfRun | internal/audit/rotation.go:255-274 | an open writer's recorded opening time and configuration are what the history of the run gives: the last opening, or the reopening after the last segment closed; reopening a file that is not empty changes neither |
| LogTimes.ManifestsDated | internal/audit/rotation.go:207-217 | the manifest of every segment a run closes reads back as created when the segment was opened and closed when it was |
| LogTimes.WriteClosesExact | internal/audit/rotation.go:90-161 | the same rule for one write in any directory that holds a log; a write that nothing stops succeeds |
| LogTimes.CloseExact | internal/audit/rotation.go:128-145 | a writer that survives Close is closed; a Close that succeeds has closed a segment exactly when the file of an open writer held something, and one that nothing stops succeeds |
| LogTimes.ClosedRefuses | internal/audit/rotation.go:90-145 | a closed writer refuses to write and to rotate, and closing it again does nothing |
| LogTimes.PayloadLeast | internal/audit/rotation.go:99-102 | a record is stored as the shortest text that starts with it and ends in a line feed |
| LogTimes.UnfinishedCounted | internal/audit/rotation.go:326-341 | a file of whole lines and an unfinished one counts one record a line, the unfinished one included |
| AuditWriter.Writer.constructor | internal/audit/rotation.go:44-85 | opening a writer relates the directory, the scans and the new fields as Opens says |
| AuditWriter.Writer.ReopenActive | internal/audit/rotation.go:255-274 | the fields and the directory after reopening are those of the value-level step |
| AuditWriter.Writer.Rotate | internal/audit/rotation.go:175-253 | for every stop, directory, fields and outcome are exactly those of the value-level rotation |
| AuditWriter.Writer.PublishSegment | internal/audit/rotation.go:220-253 | the same for the half after the manifest is written, with its two ways of undoing |
| AuditWriter.Writer.MaybeRotate | internal/audit/rotation.go:150-161 | rotates, with exactly the effects of the value-level rotation, when that must happen before the record, and otherwise changes nothing; when it must is LogTimes.RotationRule |
| AuditWriter.Writer.WriteRecord | internal/audit/rotation.go:90-117 | directory, fields and outcome are exactly those of the value-level write; when it closes a segment is LogTimes.WriteClosesExact, what it stores LogTimes.PayloadLeast |
| AuditWriter.Writer.Close | internal/audit/rotation.go:128-145 | directory, fields and outcome are exactly those of the value-level close |
| AuditWriter.HighestSequence | internal/audit/rotation.go:276-291 | the scan's running maximum is the highest sequence number among closed names, or 0 |
| AuditWriter.LatestSegmentHashByName | internal/audit/rotation.go:293-324 | the scan finds the recorded hash of the name with the highest number, greatest in name order |
| AuditWriter.CountRecordsInFile | internal/audit/rotation.go:326-341 | one per newline and one for a last line without |
| AuditWriter.Directory.WriteFileAtomic | internal/audit/atomic.go:41-102 | done: the path holds the data; an injected error: nothing changed; a death: only a temp file was added, with what had been written by then |
| Segments.TempIsInert | internal/audit/atomic.go:45-60 | a temp file left behind is neither a body, nor a manifest, nor the active file |
| Segments.SequenceReadsBack | internal/audit/segment.go:73-101 | a formatted name gives its sequence number back exactly up to 999999 and nothing beyond |
| Segments.SegmentNameInjective | internal/audit/segment.go:73-76 | closed names with up to six digits clash only for the same number and the same stamp |
| Segments.ManifestLeadsBack | internal/audit/segment.go:80-88 | the manifest name of a body leads back to the body and is a manifest name |
| Segments.ManifestNameIsNotClosed | internal/audit/segment.go:91-106 | manifest names are never taken for bodies or for the active file |
| Verify.ListSegments | internal/audit/segment.go:161-198 | the listing has each closed body once with its manifest, by sequence then path; it fails exactly when some manifest cannot be read, on the first such body in name order |
| Verify.ListedUnique | internal/audit/segment.go:191-197 | a directory has one listing |
| Verify.VerifyDirectory | internal/audit/verify.go:511-659 | the verdict is exactly ValidDir: pairs match up, manifests can be read, and the listing is a chain 1..n; the issues are the pairing issues followed by those of the walk |
| Verify.VerdictExact | internal/audit/verify.go:511-659 | no issue is raised exactly when the directory is valid |
| Verify.WalkSilent | internal/audit/verify.go:582-651 | from any segment on, the walk is silent exactly when each segment has its number, digest, link and schema |
| Verify.CheckSegment | internal/audit/verify.go:585-648 | the checks of one segment raise exactly the issues the walk lists for it, in order |
| Verify.CheckChain | internal/audit/verify.go:580-651 | the loop over the segments raises exactly the issues of the walk, and remembers the digests of the first segment and of the last one with a well-formed digest |
| Verify.CheckPairing | internal/audit/verify.go:545-570 | exactly the bodies without a manifest and the manifests without a body are reported |
| Verify.SplitNames | internal/audit/verify.go:523-543 | the names are split into manifests and closed bodies, each body once |
| VerifyIssues.WalkExact | internal/audit/verify.go:582-651 | an issue is in the walk exactly when it is raised of some segment, kind by kind: a schema other than the supported one, a number other than one more than the number before, a digest that is not 64 hexadecimal digits, a body with another digest, and after a well-formed digest a first segment with a link, a later one whose link is malformed or differs from the digest of the last body before it with a well-formed one |
| VerifyIssues.RaisedExact | internal/audit/verify.go:585-648 | the issues of one segment are exactly those raised of it |
| VerifyIssues.LowerHexExact | internal/audit/verify.go:607-640 | digests are taken for equal exactly when they differ in the case of letters at most |
| VerifyLaws.HeldValidExact | internal/audit/verify.go:511-659 | a directory that holds a log verifies exactly when no manifest lacks its body |
| VerifyLaws.OnlyMissingBodies | internal/audit/verify.go:554-570 | the only issue such a directory can show is a manifest without its body |
| VerifyLaws.RunsVerify | internal/audit/verify.go:511-659 | after every run not stopped between manifest and rename, the directory verifies |
| VerifyLaws.DeletionExact | internal/audit/verify.go:582-640 | deleting whole pairs from a valid directory keeps it valid exactly when the survivors are a prefix |
| Replacement.ReplacementExact | internal/audit/verify.go:582-640 | replacing one body and its manifest keeps a valid directory valid exactly when the new manifest has the same number and link, a supported schema and the digest of the new body, which is the old digest unless the segment is the last |
| PolicyVerify.VerifyDirectoryWithPolicy | internal/audit/verify.go:152-484 | the report is determined by directory, policy, clock and manifest order; issues equal structural plus policy counts; valid exactly when there is none, and exactly when the directory is valid under the policy; cut off exactly when fail-fast stops among the pairing findings or at a segment |
| PolicyVerify.PolicyVerdictExact | internal/audit/verify.go:203-483 | nothing is found exactly when pairing holds and every listed segment passes schema pin, number, digest, link, age, signer and duplicate checks |
| PolicyVerify.EmptyPolicyExact | internal/audit/verify.go:152-162 | under the empty policy the directory passes exactly when it is valid and no two closed bodies share a hash |
| PolicyVerify.SignersNeverKnown | internal/audit/verify.go:424-452 | with expected signers configured, only a directory without closed segments passes |
| PolicyVerify.FailFastReport | internal/audit/verify.go:474-483 | failing fast never changes the verdict and reports a prefix of the full report for the same order of the manifest map; requiring a hash chain changes nothing |
| PolicyLaws.FailFastCount | internal/audit/verify.go:474-483 | how many findings a fail-fast report holds: one when pairing or listing fails, else the failed demands of the segments up to the first that fails more than the signer note |
| PolicyLaws.FailFastSingleExact | internal/audit/verify.go:474-483 | a fail-fast report holds at most one finding exactly when pairing or listing fails, or the first segment that does not pass fails a single demand, and is the last one if that is only the signer note |
| PolicyLaws.TruncatesExact | internal/audit/verify.go:203-483 | a report is cut off exactly under fail-fast, when pairing fails, or the listing succeeds and some segment fails more than the signer note |
| PolicyLaws.TwoUnderFailFast | internal/audit/verify.go:474-483 | a directory with one segment of unknown schema and wrong number gives two findings under fail-fast |
| PolicyLaws.FaultsFound | internal/audit/verify.go:259-472 | every failed demand of a segment is one finding |
| PolicyLaws.EqualBodiesFail | internal/audit/verify.go:440-462 | a run that writes one record twice leaves a directory that is valid and fails the empty policy |
| PolicyVerify.FailFastPrefix | internal/audit/verify.go:474-478 | groups reported up to the first that invalidates are a prefix of all, empty only when all are |
| PolicyVerify.ListedAsUnique | internal/audit/verify.go:240-247 | the listing, or the manifest it fails on, does not depend on anything but the directory |
| PolicyVerify.BodiesUnique | internal/audit/verify.go:195-201 | the bodies have one order |
| PolicyVerify.CheckBodies | internal/audit/verify.go:203-218 | reports the bodies without a manifest in order, under fail-fast only the first |
| PolicyVerify.CheckManifests | internal/audit/verify.go:220-241 | reports the manifests without a body in map order, under fail-fast only the first |
| PolicyVerify.CheckSegments | internal/audit/verify.go:252-479 | reports segment by segment, under fail-fast up to and with the first invalid one; names, numbers and the first and last hash are those of the segments checked |
| PolicyVerify.CheckSegmentPolicy | internal/audit/verify.go:259-472 | one segment's findings in order; each flag says whether its condition holds; valid exactly when there is no finding other than the signer note |
| PolicyVerify.CheckHeader | internal/audit/verify.go:271-314 | schema and number findings |
| PolicyVerify.CheckDigest | internal/audit/verify.go:316-402 | digest and link findings, none after a malformed digest |
| PolicyVerify.CheckAgainstPolicy | internal/audit/verify.go:404-467 | age, signer and duplicate findings, and the seen hashes afterwards |
| PolicyVerify.Report.Raise | internal/audit/verify.go:204-211 | an issue and its count move together |
| PolicyVerify.GroupsSilent | internal/audit/verify.go:259-479 | from any segment on nothing is raised exactly when every segment passes |
| VerifyIssues.GroupsExact | internal/audit/verify.go:259-479 | the pass under a policy has one group of findings for each segment, holding exactly what is raised of it: the issues of the walk, an expected schema version in place of the supported one, and after a well-formed digest age, unknown signer, and a body seen before, with the first segment that had it |
| VerifyIssues.RetentionExact | internal/audit/verify.go:404-410 | the age check says that the segment was closed more than so many days of 24 hours ago, at all times, exactly when the limit is at most 106751 days |
| VerifyIssues.BodiesBySequence | internal/audit/verify.go:195-201 | bodies are taken by rising sequence number, and by name where numbers repeat |
| VerifyIssues.CountsExact | internal/audit/verify.go:204-211 | the structural count is the number of structural issues, and the chain flag falls with any but an unsupported schema |
| Retention.PlanRetention | internal/audit/retention.go:52-121 | the planner's loops compute the plan that the statements below are about |
| Retention.PlanPartitions | internal/audit/retention.go:108-119 | Keep and Remove split the segments, each in ascending sequence, and their sizes add up |
| Retention.KeepMeetsLimits | internal/audit/retention.go:68-106 | what is kept meets the age, count and size limits together |
| Retention.ReplanRemovesNothing | internal/audit/retention.go:52-121 | planning again on Keep with the same configuration and clock removes nothing |
| Retention.RemovalExact | internal/audit/retention.go:68-106 | a segment is removed exactly when it is too old, or enough newer ones are not too old, or it does not fit after the newer ones that stay |
| Retention.CountOnlyKeepsNewest | internal/audit/retention.go:81-92 | a count limit alone keeps exactly the first so many of the working order |
| Retention.NewestOrdered | internal/audit/retention.go:57-64 | the working order is a permutation sorted newest first; in numbers, RetentionRule.NewestBySequence |
| RetentionOrder.OldestFirstExact | internal/audit/retention.go:21-27 | among the segments that are neither too old nor over the count, none goes while an older one stays exactly when there is no size budget, or at some point all newer ones fit and every older one is larger than what is left |
| RetentionOrder.StaysExact | internal/audit/retention.go:94-106 | such a segment stays exactly when it fits after the newer ones that stay |
| Retention.SizeBudgetSkips | internal/audit/retention.go:94-106 | an input on which a size budget keeps the older segment and removes the newer one |
| Retention.TotalRemoveBytes | internal/audit/retention.go:35-41 | the loop adds up the sizes of Remove |
| RetentionRule.NewestBySequence | internal/audit/retention.go:57-64 | the working order is by falling sequence number, and by falling path where numbers repeat |
| RetentionRule.RemovalRule | internal/audit/retention.go:68-106 | a segment is removed exactly when it was closed longer ago than the age limit, or as many segments of greater sequence, or equal sequence and greater path, as the count allows were not, or with those of them that are kept it exceeds the size limit |
| RetentionRule.CountLimitKeepsNewest | internal/audit/retention.go:81-92 | under a count limit alone no kept segment has a smaller sequence number than a removed one, and as many are kept as the limit allows |
| RetentionRule.PlanAscends | internal/audit/retention.go:108-119 | both lists of the plan are by rising sequence number |
| TypeRoundTrip.NormalForm | internal/abi/importer.go:181-322 | whatever string a type was read from, printing it gives a string that reads as the same type |
| TypeRoundTrip.PrintingInherits | internal/abi/importer.go:181-322 | printing what was read keeps the bracket depth of the text and adds no comma at an outer depth |
| TypeRoundTrip.RoundTripExact | internal/abi/importer.go:181-322 | printing then reading gives the type back exactly when names cannot be taken for anything else and paired types are atoms for the splitter |
| TypeRoundTrip.WellNamedRoundTrips | internal/abi/importer.go:181-322 | types whose names are non-empty, not built in and free of brackets, commas and blanks round-trip |
| TypeParser.SplitTypes | internal/abi/importer.go:350-375 | the depth-counting loop gives the pieces of the text, or reports unbalanced brackets |
| TypeParser.TrimSpace | internal/abi/importer.go:377-386 | the two closing indices leave exactly the trimmed text |
| BracketDepth.SplitJoin | internal/abi/importer.go:350-375 | splitting a joined list of atoms gives the list |
| BracketDepth.SplitPieces | internal/abi/importer.go:350-375 | an accepted text is balanced and each piece is trimmed, balanced and without outer commas of its own |
| BracketDepth.CommaIndexProfile | internal/abi/importer.go:353-370 | where the scan stops, the text so far is balanced and has no comma at that depth |
| TypeShapes.ParseAllExact | internal/abi/importer.go:295-306 | a list of pieces parses exactly when each does, to the types in order |
| TypeTexts.PairTextExact | internal/abi/importer.go:247-282 | Map<x> and Result<x> are read as a pair of types exactly when x is two balanced pieces without outer commas, joined by a comma, that read as those types without the blanks around them, perhaps followed by one more comma and blanks; a third piece is refused |
| TypeTexts.PairExact | internal/abi/importer.go:336-346 | the same for the text between the brackets |
| TypeTexts.TupleTextExact | internal/abi/importer.go:295-311 | (x) is read as a tuple exactly when the pieces of x, joined by commas, an empty last one left out, read as its types |
| TypeTexts.SizeTextExact | internal/abi/importer.go:284-293 | BytesN(x) is read as a size exactly when the digits after the leading blanks of x stand for a number of 32 bits; what follows them is ignored, as the scanner of the library does |
| TypeTexts.SplitExact | internal/abi/importer.go:350-375 | a text splits into parts exactly when it is pieces joined by commas and the parts are the pieces without their blanks, an empty last one left out; a piece has as many opening as closing brackets and no comma outside them |
| TypeTexts.SplitsExact | internal/abi/importer.go:350-375 | a text splits at all exactly when as many brackets open as close |
| TypeTexts.CoreExact | internal/abi/importer.go:377-386 | trimming takes away exactly the spaces and tabs at both ends |
| TypeTexts.ScanSpaceExact | internal/abi/importer.go:284-293 | the number scanner skips white space other than line feeds |
| AbiText.DetectExact | internal/abi/importer.go:55-61 | a text is taken for JSON exactly when the first thing in it other than white space is an opening brace |
| TypeRoundTrip.PrintingInjective | internal/abi/printer.go:312-394 | printing tells any two stable types apart |
| TypeRoundTrip.UnstableNameCollides | internal/abi/printer.go:312-394 | a name spelt like a type prints like that type |
| TypeGrammar.GrammarExact | internal/abi/printer.go:312-394 | the texts that stable types are printed as are those of a grammar: built-in names, wrappers, pairs and lists of pieces separated by a comma and a blank, plain decimal sizes, and names of no such shape |
| TypeShapes.DecimalReads | internal/abi/printer.go:312-394 | printed sizes read back as digits |
| AbiJson.FormatJson | internal/abi/printer.go:172-295 | the sorting and appending loops give the JSON value of the specification |
| AbiJson.CanonicalIsNormal | internal/abi/printer.go:172-295 | the canonical form prints alike and is its own canonical form |
| AbiJson.PrintExact | internal/abi/printer.go:172-295 | stable specifications print alike exactly when their canonical forms agree |
| AbiJson.OrderIrrelevant | internal/abi/printer.go:175-286 | with distinct names, permuting entries changes neither JSON nor canonical form |
| AbiJson.AnySortAgrees | internal/abi/printer.go:178-180 | with distinct names every sorted copy is the same, stable or not |
| AbiJson.FormatFunctions | internal/abi/printer.go:182-194 | each function with its printed inputs and outputs, in order |
| AbiJson.FormatStructs | internal/abi/printer.go:203-209 | each struct with its printed fields, in order |
| AbiJson.FormatUnions | internal/abi/printer.go:233-248 | each union with its cases, void cases without types |
| AbiJson.FormatEvents | internal/abi/printer.go:272-286 | each event with its parameters and their place |
| AbiText.SpecAscends | internal/abi/printer.go:175-286 | every section shows the entries of the specification by rising name, each as often |
| AbiText.LocationExact | internal/abi/printer.go:272-286 | a topic parameter is shown as topic and any other as data; on reading, whatever is not called topic is data |
| AbiJson.JsonSpecToContractSpec | internal/abi/importer.go:65-177 | the import loops give the specification, or the first part that does not parse |
| AbiJson.SpecRoundTripExact | internal/abi/importer.go:65-177 | importing what was printed gives the canonical specification exactly when every type is stable |
| AbiJson.ImportFormatsOnce | internal/abi/importer.go:65-177 | any accepted JSON, formatted, reads back to the canonical specification and formats to itself |
| AbiJson.ImportedStable | internal/abi/importer.go:65-177 | every specification read from accepted JSON is stable |
| AbiJson.UnionBack | internal/abi/importer.go:116-143 | a union comes back, empty tuple cases as void, exactly when its types are stable |
| AbiJson.ImportFunctions | internal/abi/importer.go:68-91 | functions in order, or the first input or output that does not parse |
| AbiJson.ImportUnions | internal/abi/importer.go:116-143 | unions in order, or the first case type that does not parse |
| AbiJson.ImportEvents | internal/abi/importer.go:156-174 | events in order, unknown places read as data |
| AbiHash.HashFormatIndependent | internal/bindings/artifact.go:64-102 | a specification whose types are spelt as the printer spells them has one hash, from its XDR and from its own JSON, with the format named or detected |
| AbiHash.HashFormatExact | internal/bindings/artifact.go:64-102 | a specification hashes alike from its XDR and from its own JSON exactly when every type in it is spelt as the printer spells types, for a digest that separates the two texts |
| AbiHash.SpecReprintsExact | internal/bindings/artifact.go:64-102 | the JSON of a specification is read and printed again exactly under that condition |
| AbiHash.OddSpelling | internal/bindings/artifact.go:64-102 | a name such as Map<U32,U32>, without the space, does not meet it |
| AbiHash.PrintsLikeExact | internal/bindings/artifact.go:60-71 | next to a stable specification any other prints alike exactly when its types are spelt as the printer spells them and its JSON reads as the canonical form of the first |
| AbiHash.HashesLikeExact | internal/bindings/artifact.go:60-71 | the same for hashes, for a digest that separates the two texts |
| AbiCompat.EqualJsonDiffExact | internal/bindings/artifact.go:60-71 | specifications with the same JSON show no difference exactly when no function lists a parameter name with types that fold apart, so never with distinct parameter names |
| AbiCompat.EqualHashDiffExact | internal/bindings/artifact.go:60-71 | the same for equal hashes, for a digest that separates the two texts |
| AbiJson.HashExact | internal/bindings/artifact.go:60-71 | hashes of stable specifications agree exactly when the canonical forms do, for a digest that separates the two texts |
| AbiJson.HashNormalForm | internal/bindings/artifact.go:77-102 | hashing accepted JSON and hashing the JSON of what it holds agree |
| AbiJson.HashMissesUnstableName | internal/bindings/artifact.go:60-71 | without stability a change can go unnoticed |
| Artifact.RenderMetadataHeader | internal/bindings/artifact.go:106-115 | the builder's lines are the header |
| Artifact.ParseMetadataHeader | internal/bindings/artifact.go:121-173 | the line loop gives what the scan and the assembly say |
| Artifact.HeaderRoundTripExact | internal/bindings/artifact.go:106-173 | metadata comes back from its header, whatever follows it, exactly when its fields are trimmed single lines the scanner can take and its time is a whole second of a four-digit year |
| Artifact.ScanHeader | internal/bindings/artifact.go:126-150 | scanning a clean header finds its four fields or fails on a line too long |
| Artifact.ParsedClean | internal/bindings/artifact.go:137-150 | every field that is ever read is trimmed and on one line |
| Artifact.NoBlockNoMetadata | internal/bindings/artifact.go:128-158 | content without the opening line has no metadata |
| Artifact.ScannableExact | internal/bindings/artifact.go:126-150 | a line can be scanned exactly when it takes fewer than 64 KiB in UTF-8 |
| Artifact.FourDigitYearsExact | internal/bindings/artifact.go:106-115 | the years of four digits are the 3652425 days from the one 719528 days before 1970 |
| Spaces.WhiteSpace | internal/bindings/artifact.go:129-148 | white space is the property White_Space of the Unicode Character Database |
| CompatReport.CompareSpecs | internal/abi/compat.go:140-202 | the report lists exactly the differences, each as often as list entries show it and with its values, in path order; the overall status is the worst of them and the counts are those of the list; a missing specification counts as empty |
| CompatReport.ReportedOnce | internal/abi/compat.go:239-288 | without repeated parameter or case names no difference is reported twice |
| CompatStatus.NonBreakingExact | internal/abi/compat.go:74-96 | the overall status is not breaking exactly when the old interface is still there: every function with every parameter, its type and the order, every struct field with its type, every enum case with its value, every union case |
| CompatStatus.AdditiveExact | internal/abi/compat.go:74-96 | it is at most additive exactly when, besides, no function of both versions has a new parameter or a return type that folds differently |
| CompatStatus.LastWins | internal/abi/compat.go:542-610 | of several entries under one name the last counts |
| CompatStatus.FirstOutputOnly | internal/abi/compat.go:542-560 | only the first output of a function is compared, as printed |
| CompatStatus.NamedCasesOnly | internal/abi/compat.go:594-610 | union cases are compared by name, those without one not at all |
| CompatReport.ReportOrdered | internal/abi/compat.go:159-165 | changes come by path, and at one path by the name of their kind |
| CompatReport.StatusCounts | internal/abi/compat.go:168-187 | each count is the number of changes of its status, and together they are all changes |
| CompatReport.ShownAs | internal/abi/compat.go:502-513 | how a function and the order of its parameters are shown |
| AbiCompat.SelfDiffExact | internal/abi/compat.go:239-288 | a specification shows no difference to itself exactly under that condition |
| AbiCompat.SelfDifference | internal/abi/compat.go:239-288 | a function that lists one name with two types differs from itself, and breaks |
| AbiCompat.PayloadUnseen | internal/abi/compat.go:439-487 | a changed payload type of a union case changes the JSON and shows no difference |
| CompatLaws.TriangleExact | internal/abi/compat.go:140-202 | the status of a whole change is at most the worse of its two steps, exactly when a step already breaks or no function is skewed by repeated names |
| CompatLaws.TriangleLaw | internal/abi/compat.go:140-202 | with distinct parameter names the triangle law holds, reordered and added parameters included |
| CompatLaws.NonBreakingTransitive | internal/abi/compat.go:140-202 | not breaking is transitive |
| CompatLaws.TriangleNeedsDistinctNames | internal/abi/compat.go:652-678 | three specifications of one function: a repeated name hides a reorder behind two empty diffs |
| CompatLaws.SwapDualityExact | internal/abi/compat.go:206-487 | swapping the versions maps a difference to its dual at the same path exactly unless it is a type change under a repeated name of which only one version has another type, or a reorder of lists of one length with the names of one strictly among those of the other |
| CompatLaws.SwapDuality | internal/abi/compat.go:206-487 | with distinct parameter names every difference is mapped to its dual |
| CompatLaws.RepeatedNameHidesType | internal/abi/compat.go:239-288 | two specifications with a type change in one direction and no difference in the other |
| CompatLaws.RepeatedNameHidesReorder | internal/abi/compat.go:652-678 | two specifications with a reorder in one direction only |
| CompatLaws.EmptyDiffExact | internal/abi/compat.go:206-487 | there is no difference exactly when types agree up to case, fields and cases as maps and sets, and parameter lists have the same names, every old entry the type the new list gives last, and the same order if of one length |
| CompatLaws.EmptyDiffDistinct | internal/abi/compat.go:206-487 | with distinct parameter names there is no difference exactly when, besides, parameters are the same in the same order |
| CompatLaws.RepeatedNameHidden | internal/abi/compat.go:239-288 | a parameter listed twice is a change the report does not show |
| CompatReport.CompareFunctions | internal/abi/compat.go:206-237 | exactly the differences of functions, each as often as list entries show it |
| CompatReport.CompareFunctionParams | internal/abi/compat.go:239-288 | exactly the differences of one function's parameters, each as often as list entries show it, a reorder only for the same names |
| CompatReport.CompareFunctionReturns | internal/abi/compat.go:290-301 | exactly the difference of one return type, each once |
| CompatReport.CompareStructs | internal/abi/compat.go:305-329 | exactly the differences of structs, each once |
| CompatReport.CompareStructFields | internal/abi/compat.go:331-368 | exactly the differences of one struct's fields, each once |
| CompatReport.CompareEnums | internal/abi/compat.go:372-396 | exactly the differences of enums, each once |
| CompatReport.CompareEnumCases | internal/abi/compat.go:398-435 | exactly the differences of one enum's cases, each once |
| CompatReport.CompareUnions | internal/abi/compat.go:439-487 | exactly the differences of unions, each as often as list entries show it |
| CompatReport.Aggregate | internal/abi/compat.go:168-187 | the counts and the overall status of the changes |
| CompatReport.OverallIsWorst | internal/abi/compat.go:168-187 | the overall status is the worst among the differences |
| CompatReport.NormFunctions | internal/abi/compat.go:542-560 | the map of normalised functions, the last of a name winning |
| CompatReport.NormStructMap | internal/abi/compat.go:562-576 | the map of structs to their fields |
| CompatReport.NormEnumMap | internal/abi/compat.go:578-592 | the map of enums to their cases |
| CompatReport.NormUnionMap | internal/abi/compat.go:594-610 | the map of unions to their named cases |
| CompatReport.IndexByName | internal/abi/compat.go:680-686 | the index of parameters, the last of a name winning |
| CompatReport.CheckSameNames | internal/abi/compat.go:652-666 | same number and every new name known |
| CompatReport.CheckSameOrder | internal/abi/compat.go:668-678 | same names at the same places |
| Wasm.DecodeLEB128 | internal/abi/wasm.go:94-109 | the shift-and-or loop on 32 bits computes the value modulo 2^32 of up to five groups, or the right error |
| Wasm.LebRoundTrip | internal/abi/wasm.go:94-109 | decoding undoes the encoding of section 5.2.2 of the WebAssembly Core Specification |
| Wasm.DecodeFaithfulExact | internal/abi/wasm.go:94-109 | the decoded value is the number written exactly when the spare bits of a fifth byte are clear |
| Wasm.SpareBitsLost | internal/abi/wasm.go:94-109 | the group 80 80 80 80 10 stands for 2^32 and is decoded as 0 |
| Wasm.ExtractCustomSection | internal/abi/wasm.go:38-90 | the payload of the first custom section of that name, none, or the first framing error |
| Wasm.ExtractRoundTrip | internal/abi/wasm.go:38-90 | on written sections it is the payload of the first custom section with the name, or none |
| WasmReaders.ExtractExact | internal/abi/wasm.go:38-90 | on any bytes, the first custom section that has the name or whose name cannot be read answers; without one the answer is the fault that ends the sections, or none |
| WasmReaders.LebExact | internal/abi/wasm.go:94-109 | a length ends unexpectedly exactly when fewer than five bytes are left, all with the high bit; it is too large exactly when five have it; otherwise it ends at the first byte without |
| WasmReaders.CustomNameExact | internal/abi/wasm.go:62-76 | the name of a custom section is as many bytes as the length in front of it says, within the section |
| Wasm.AnalyzeWasmSize | internal/abi/wasm_size.go:73-137 | the section loop stays in bounds and gives ids, sizes and warnings of the frames, or the first error |
| Wasm.FramesExact | internal/abi/wasm_size.go:86-125 | the walk succeeds with a list of frames exactly when they tile the bytes |
| Wasm.SizesAddUp | internal/abi/wasm_size.go:86-125 | headers and sizes add up to the length of the file |
| WasmReaders.ReadableExists | internal/abi/wasm_size.go:86-125 | any bytes are sections up to their end or up to a fault, and the walk gives those sections or that fault |
| WasmReaders.WarningsExact | internal/abi/wasm_size.go:14-48 | a section is warned of exactly when it is longer than 128 KiB, under the name of its id; the file exactly from 256 KiB, and as critically large from 512 KiB |
| WasmReaders.SectionsListed | internal/abi/wasm_size.go:97-125 | every section is listed in order with its id, the name for it and its size |
| Wasm.ReadersAgree | internal/abi/wasm_size.go:86-125 | wherever the walk succeeds, both readers agree on every section |
| Wasm.FramingRoundTrip | internal/abi/wasm_size.go:86-125 | on written sections the walk finds exactly the list |
| Wasm.ModuleRoundTrip | internal/abi/wasm_size.go:73-137 | the same two facts for a whole module, framed as sections 5.5.2 and 5.5.3 of the WebAssembly Core Specification say |
| Signers.MinSignaturesForWeight | internal/authtrace/reporter.go:147-168 | the loops add up the positive weights, heaviest first, on 32 bits |
| Signers.GreedyExact | internal/authtrace/reporter.go:147-168 | the count is the least size of a reaching sub-collection exactly when the sum at the crossing does not wrap or everyone is counted |
| Signers.WrappingCountsTooMany | internal/authtrace/reporter.go:160-167 | weights 2^31, 2^31 and 1 with 2^31 + 1 required: three are counted where two suffice |
| Signers.GreedyOptimal | internal/authtrace/reporter.go:147-168 | without overflow the count is optimal |
| Signers.AllCounted | internal/authtrace/reporter.go:160-167 | when all together fall short, every positive weight is counted |
| Signers.CrossingIsLeast | internal/authtrace/reporter.go:152-167 | the first prefix of the ranking to reach the weight has the least size of any choice that does |
| Signers.TopIsBest | internal/authtrace/reporter.go:152-158 | no choice of c signers outweighs the c heaviest |
| Bundle.LedgerStateInput | internal/bundle/bundle.go:414-432 | the loops feed the hasher the frames of the sorted entries, or the two braces of the empty state |
| Bundle.WriteFramed | internal/bundle/bundle.go:435-443 | four length bytes, big endian and wrapping, then the data |
| Bundle.CollectKeys | internal/bundle/bundle.go:419-423 | the keys once each in order, however the map is walked |
| Bundle.LedgerStateInjective | internal/bundle/bundle.go:414-443 | the hashed bytes determine the ledger state, the empty one included, while keys and values are shorter than 2^32 bytes |
| Bundle.FramesInjective | internal/bundle/bundle.go:425-443 | frames can be taken apart again |
| Bundle.LongStatesCollide | internal/bundle/bundle.go:414-443 | two different states, with a key and a value of 2^32 bytes, feed the hasher the same bytes |
| Bundle.FramingBoundExact | internal/bundle/bundle.go:414-443 | all states with keys and values shorter than a bound are told apart exactly when the bound is at most 2^32 |
| Bundle.EmptyStateText | internal/bundle/bundle.go:414-418 | an empty ledger state is hashed as the two characters of an empty object, and no other state is |
| Bundle.ComputeChecksums | internal/bundle/bundle.go:388-404 | one checksum for each member that is present |
| Bundle.Verify | internal/bundle/bundle.go:210-236 | ok exactly when every live checksum is stored and equal; mismatched and missing members are listed exactly |
| Bundle.VerifyExact | internal/bundle/bundle.go:210-236 | checksums agree exactly when no member has changed, for a digest that separates the members |
| CacheKeys.NewCacheKey | internal/cache/key.go:77-119 | the key of the inputs, or the first missing input |
| CacheKeys.NormalizeInputs | internal/cache/key.go:98-109 | the non-empty inputs once each in ascending order |
| CacheKeys.BuiltKeysValidate | internal/cache/key.go:77-175 | a constructed key always has a digest |
| CacheKeys.DigestExact | internal/cache/key.go:77-152 | digests agree exactly when bytes, kind, tool version, configuration and the set of non-empty inputs do, for a hash that separates what is hashed |
| CacheKeys.InputsExact | internal/cache/key.go:98-109 | one key is the key of two lists of inputs exactly when they have the same non-empty members |
| CacheKeys.ConfigDefault | internal/cache/key.go:179-195 | a missing configuration counts as an empty object |
| CacheKeys.DigestsExist | internal/cache/key.go:124-175 | a key has a digest exactly when its fields are present, its content hash has 64 characters and its version is current |
| WasmCache.HitExact | internal/cache/wasm_cache.go:94-156 | in every interleaving a read hits exactly when it found the last set entry whole and unexpired, and returns that entry; its key is the requested one when the digest separates the two |
| WasmCache.RunInv | internal/cache/wasm_cache.go:94-298 | the invariant holds after every interleaving |
| WasmCache.NextKeeps | internal/cache/wasm_cache.go:94-298 | every step keeps it, whatever else is in flight |
| WasmCache.KeptExact | internal/cache/wasm_cache.go:109-298 | a stored entry survives every interleaving up to its expiry that does not invalidate, truncate or set it again exactly when no removal of its file is in flight and no reader holds content that can be judged no good by then |
| WasmCache.ReaderCondemnsExact | internal/cache/wasm_cache.go:109-141 | a reader in flight is such a danger exactly when it found an entry cut short or one that expires earlier |
| WasmCache.StoredUntilDamaged | internal/cache/wasm_cache.go:160-239 | only a removal or a truncation loses the last set entry, and an undamaged rename restores it |
| WasmCache.StoredThroughout | internal/cache/wasm_cache.go:160-239 | until another set of it takes effect the entry is there exactly when no step has damaged it |
| WasmCache.SlowReaderRemovesFreshEntry | internal/cache/wasm_cache.go:109-141 | a reader that judged a stale entry can remove a fresh one set since |
| WasmCache.JudgeWhole | internal/cache/wasm_cache.go:329-352 | a whole entry is a hit until it expires |
| WasmCache.JudgeTruncated | internal/cache/wasm_cache.go:329-352 | a truncated entry is a miss and is removed |
| WasmCache.JudgeExact | internal/cache/wasm_cache.go:109-156 | bytes are a hit exactly when they parse to an entry of the current version whose payload has its recorded hash, under the digest asked for, not after it expires; missing bytes are a plain miss and any others are removed |
| WasmCache.EntryLives | internal/cache/wasm_cache.go:160-219 | an entry set with a time to live is found exactly until that much later |
| CacheStore.Cache.Get | internal/cache/wasm_cache.go:94-156 | called in sequence, the answer is that of a map with expiry, and the call is a run of the steps |
| CacheStore.Cache.Set | internal/cache/wasm_cache.go:160-219 | the map is updated, or nothing changes and the error says why; the call is a run of the steps |
| CacheStore.Cache.Invalidate | internal/cache/wasm_cache.go:223-239 | the entry is gone from the map and from the disk |
| CacheStore.Cache.PurgeFile | internal/cache/wasm_cache.go:273-296 | a file is removed exactly when its entry has expired |
| CacheStore.Cache.PurgeExpired | internal/cache/wasm_cache.go:268-298 | exactly the unexpired files stay and the removed ones are counted, in any order of the walk |
| Nfc.NormalizeUnicodeString | internal/cmd/canonical.go:119-124 | the ASCII shortcut and the loops both give the composed text |
| Nfc.NfcString | internal/cmd/canonical.go:130-182 | the quick check and the run-by-run loops give the composed text |
| Nfc.ComposeIdempotent | internal/cmd/canonical.go:130-182 | composing twice is composing once |
| NfcLaws.AlikeExact | internal/cmd/canonical.go:112-182 | two texts normalise alike exactly when they agree once every composed letter of the table is spelt out as its letter and mark |
| NfcLaws.ComposeSpelling | internal/cmd/canonical.go:130-182 | composing does not change how a text is spelt out |
| NfcLaws.SpellingComposes | internal/cmd/canonical.go:130-182 | the spelt-out text composes to the same text |
| NfcLaws.ComposedOrApart | internal/cmd/canonical.go:112-182 | anywhere in a text a letter of the table may be given composed or apart |
| NfcLaws.MarkOrderShows | internal/cmd/canonical.go:112-118 | a dot below and a circumflex in the two orders, canonically equivalent in Unicode Standard Annex #15, normalise differently |
| NfcLaws.PartsExact | internal/cmd/canonical.go:184-257 | the table composes a pair to a letter exactly when the letter is spelt out as that pair |
| NfcLaws.ComposesByChart | internal/cmd/canonical.go:184-257 | the table is the Latin-1 code chart for five marks: consecutive places in the block of a vowel, small letters 32 behind their capitals |
| Nfc.TableRange | internal/cmd/canonical.go:184-257 | only ASCII letters compose, only with marks, and what they compose to composes no further |
| CanonicalOps.CanonicalJSON | internal/cmd/canonical.go:397-403 | the buffer holds the encoding, or the error is returned |
| CanonicalOps.EncodeCanonical | internal/cmd/canonical.go:406-442 | appends the encoding of any value, or fails as it does |
| CanonicalOps.EncodeObject | internal/cmd/canonical.go:472-497 | appends the members in order of their normalised keys |
| CanonicalOps.EncodeArray | internal/cmd/canonical.go:500-512 | appends the items in order |
| CanonicalOps.EncodeString | internal/cmd/canonical.go:447-459 | appends the normalised string |
| CanonicalOps.DecodeCanonicalValue | internal/cmd/canonical.go:300-335 | takes one value from the tokens, normalised, or fails as the specification does |
| CanonicalOps.DecodeCanonicalObject | internal/cmd/canonical.go:339-368 | takes the members, failing on the first key that repeats after normalisation |
| CanonicalOps.DecodeCanonicalArray | internal/cmd/canonical.go:371-385 | takes the items up to the closing bracket |
| CanonicalLaws.EncodeExact | internal/cmd/canonical.go:406-442 | encoding succeeds exactly when every number can be written |
| CanonicalLaws.RoundTripExact | internal/cmd/canonical.go:300-512 | the tokens of a value decode to its normal form exactly when no object has two keys that normalise alike, and otherwise decoding fails |
| CanonicalLaws.ReencodeSame | internal/cmd/canonical.go:397-512 | encoding what was decoded gives the same tokens |
| CanonicalLaws.EncodeNormal | internal/cmd/canonical.go:406-512 | a value and its normal form have one encoding |
| CanonicalOrder.OrderExact | internal/cmd/canonical.go:472-497 | every enumeration of the maps gives the same encoding exactly when, in every object at every depth, members whose keys normalise alike have equal encodings |
| CanonicalOrder.OneNormalForm | internal/cmd/canonical.go:472-497 | a reordering of a value whose normalised keys differ has them too, and the same normal form |
| CanonicalOrder.EncodeCloses | internal/cmd/canonical.go:406-512 | no encoding ends before its outermost bracket closes, so none is a proper prefix of another |
| CanonicalLaws.CanonicalizeIdempotent | internal/cmd/canonical.go:282-403 | whatever is accepted encodes, and canonicalising again changes nothing |
| CanonicalLaws.DecodedFit | internal/cmd/canonical.go:300-385 | a decoded value has writable numbers and distinct normalised keys at every level |
| CanonicalLaws.AlikeKeysDependOnOrder | internal/cmd/canonical.go:472-497 | two alike keys with different flags encode differently in the two orders |
| CanonicalOrder.AccentedKeysDependOnOrder | internal/cmd/canonical.go:472-497 | so do the keys e with an acute accent, composed and apart |
| CanonicalLaws.WholeReads | internal/cmd/canonical.go:83-107 | a safe whole number is written so that it is accepted and read back |
| CanonicalText.KeysAscend | internal/cmd/canonical.go:472-497 | the keys of a written object are the normalised keys of its members, each before the next: a prefix of it, or smaller in the first character where they differ |
| CanonicalText.WritesJson | internal/cmd/canonical.go:397-512 | whatever is written is one value by the grammar of RFC 8259, commas between items and a colon after each key |
| CanonicalText.WholeExact | internal/cmd/canonical.go:73-107 | a whole number is written exactly when it is below 2^53 in magnitude, in decimal; negative zero, infinities and NaN are refused |
| CanonicalText.NumberReadExact | internal/cmd/canonical.go:83-107 | a number in the text is accepted exactly when it has no exponent and no leading zeros and stands for a fraction or a whole number below 2^53 in magnitude |
| CanonicalText.FractionWritten | internal/cmd/canonical.go:464-469 | a fraction is written as its shortest text |
| Sorting.StringLeExact | internal/cmd/canonical.go:481 | the order of keys, names and inputs: a prefix comes first, and otherwise the first difference decides |

## Left out

- LogRuns.Conservation: covers deaths and injected errors at the named stages and a failed rename of the active file; short or failed writes inside WriteRecord, errors of sync, close and hashing, permissions and power loss are not events of the model.
- LogRuns.ManifestsCount: is for records without a newline inside; with one, a reopened writer counts lines, as the code does.
- Rotation: 64-bit sizes, record counts and sequence numbers are unbounded integers; the sequence number runs into the six digits of a name long before it could wrap.
- Segments: a stamp is any string of the printed shape with its instant beside it; calendar arithmetic, and years outside four digits, are not modelled. Subdirectories of the log directory are not modelled.
- Verify: the digest is compared without regard to the case of hexadecimal digits, which is all that case folding means on validated digests.
- PolicyVerify.VerifyDirectoryWithPolicy: the texts of the messages are not modelled, only which issue it is and for which segment; that a body disappears while the directory is being read is not either.
- Retention.PlanRetention: sizes are unbounded, so the running sum does not wrap at 2^63. ApplyRetention only removes what the plan lists and is left out. Nothing is claimed about verifying a directory after retention: the verifier expects it to start with segment 1.
- AbiJson: a specification has the fields that FormatJSON writes; library names, event topic prefixes, event data formats and contract metadata are not in the JSON and not in the model. Union cases of an unknown kind are not modelled. FormatText and the marshalled text itself are left out.
- AbiJson.FormatJson: the library's unstable sort is a stable one here; AnySortAgrees says that with distinct names every sort gives the same result.
- AbiCompat.EqualJsonDiffExact: for entries that repeat a name it relies on the stable sort of the model; with distinct entry names any sort gives the same JSON.
- CompatReport.CompareSpecs: the remediation texts are not modelled, and case folding of type strings is a parameter. The old and new values of added and removed enum cases are as the code sets them, and are not dual to each other; SwapDualityExact is about kinds and paths.
- Wasm: contract metadata parsing (ExtractContractMetadata and below) reads fixed tables out of payloads and is left out, as is the text of the size warnings.
- Signers.MinSignaturesForWeight: the rest of the report text is left out.
- Bundle.Verify: messages, validation of required fields, files and path policy are left out.
- WasmCache: InvalidateKind, statistics, directory creation and read errors other than a missing file are left out. A temp file is written in two pieces, the first of any length; content that differs from what was set other than by being cut short is not modelled.
- CacheStore.Cache.PurgeExpired: is tied to the map with expiry, not step by step to the interleaved run; the interleaved steps of a purge are those of WasmCache.
- CacheKeys: the configuration is given by its JSON text.
- NfcLaws.AlikeExact: is about the composition the code performs; full canonical equivalence, with its tables of decompositions and combining classes, is not defined here.
- CanonicalJson: strings and numbers are tokens, so the replacement of escaped angle brackets and ampersands inside string text, and invalid UTF-8, are not modelled; a fraction is named by its shortest text. Structs that are first marshalled by the library, and what follows the top-level value in ParseCanonicalInput, are left out.
- Artifact.ParseMetadataHeader: printing and reading of RFC 3339 times is a parameter, asked to keep whole seconds of four-digit years and to refuse other years; staleness checks and JSON output of metadata are left out.
- Report printing, TypeScript generation, commands, RPC, signing devices, eviction scores and bundle path policy are not part of this model; they would add easy members or rest on code that is not shown.
