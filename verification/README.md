# DefendSec: verified model of its ledger, ranking, paging, stores and decisions

A Dafny model of the parts of DefendSec whose correctness rests on an argument rather than on one
branch, with proofs of what they promise. `dafny verify dfyconfig.toml` checks the whole project.

| module | models |
|---|---|
| `AuditChain`, `PagedVerification` | the hash-chained audit log, its length-prefixed encoding and signed checkpoints, and verification of the stored log page by page |
| `Anchor` | publishing checkpoints, and comparing the published anchors with the chain later |
| `ExposureRank`, `ControlPlaneRank`, `RankedPages` | the multi-key order of the exposure list as the console, the control plane and the database compute it, and the keyset pages of the ranked list |
| `RpmVersion`, `DpkgVersion` | RPM and Debian version comparison |
| `CursorStack`, `ExposureList`, `DeviceList` | the cursor stack that two paged lists keep in their URL |
| `StoreQueue`, `HostStore`, `PathTrail`, `IntegrityHistory`, `ConcurrentStore` | the promise-chain mutex of the host store, its operations, what the integrity history of one path can tell, that history and the baselines over whole runs, and all of it run concurrently |
| `Policies` | drift of watched files from the accepted baseline |
| `FleetKey`, `StaleCache`, `FleetAggregates` | the stale-while-revalidate cache of the fleet aggregates |
| `RateLimit`, `ReplayCache` | the login throttle and the agent's command replay cache |
| `OsLifecycle`, `WindowsHosts` | the three-valued Windows support verdict, and what a host's own texts decide |
| `CommandLine` | splitting a Windows command line and dropping a flag from it |
| `SurfaceGroups` | grouping surface findings under their assets |
| `Text`, `Numbers`, `Sorting`, `Filtering`, `Wrappers` | decimal text, string order, trim, UTF-16; digit texts against their values; sorting; filtering; the optional value |

How things are represented:

- SHA-256 is an arbitrary function from byte strings to 32 bytes; hex encoding is modelled. A security
  result reads "equal, or these two strings that the logs hash have one digest": the collision is always
  between preimages of the logs in question, because some collision exists for any such function.
- A Go string is a sequence of bytes and a TypeScript string one of UTF-16 units, one `char` each. A Dafny
  `char` is never a surrogate, so the half character of unit value u is written as the char
  u + 0x100000 (`Text`). `CommandLine` works on runes, as the range loop there does: a byte that is not
  valid UTF-8 has become U+FFFD. An instant is the text it is hashed or compared as. Sequence numbers are
  int64 and wrap.
- ed25519 with base64, `localeCompare`, `policySummary`, `seriousOpen` and each anchor target's outcome
  are parameters.
- Code that updates state is imperative here: the buffers, the loops, the throttle, the replay cache, the
  fleet cache and the store records are methods or classes proved against the functions the lemmas are
  about. Interleavings (the store's queue, the deferred computations) are state machines whose runs are
  arbitrary sequences of enabled steps.

What is not true of the code, and exactly when it is:

- The first Previous link after a Next link comes back to the same page exactly when the stack held fewer
  than 50 entries, the page's own cursor is not the text "0" (the sentinel of the first page) and, for the
  host list, the search text is trimmed and well formed (`CursorStack.PushThenPop`,
  `DeviceList.NextThenPrev`). A parsed search text fails that exactly when the cut to 200 units fell after
  white space or inside a character (`DeviceList.SearchTextDrifts`, `DeviceList.SearchTextCanDrift`).
- An unknown Windows edition's verdict is safe against every edition but a semi-annual server release
  (`OsLifecycle.UnknownEditionIsSafe`). Two editions of one build ever get opposite verdicts exactly when the
  calendar dates all their releases and ends those of one before any of the other
  (`OsLifecycle.ContradictedExactly`). The published calendar never does that to an unknown edition, on any day
  (`OsLifecycle.PublishedIsSafe`): where a semi-annual release shares its build, a client release ends on the
  same day, or one before it and one after it. A stored calendar that lacks the client product does, for build
  17763 from 2020-11-10 to 2029-01-09 (`OsLifecycle.WithoutClients`).
- An answer of the fleet cache may come from another triage list than the caller's: exactly when a list asked
  for before ends like the caller's after a `|` and differs before it (`FleetAggregates.ServedExactly`,
  `FleetAggregates.ServedWithOwnTriage`, `FleetAggregates.BarMisleads`). And two requests with equal keys agree in
  version, hosts, matches and triages exactly when the versions, the local hosts and the match times hold as many
  bars in the one as in the other (`FleetKey.EqualKeys`).
- The summary of the anchors counts a record as missing although the log holds its sequence exactly when the log
  holds it under an empty hash and the record's is not empty (`Anchor.CountedAs`); an accepted log has no such entry.
- The integrity history of a path replays from the current hash exactly when every change the reports record
  starts where the one before it ended, as far back as the 200 retained events go. For one report, whatever came
  before: if a hash was known, when the report lists no other hash before its last one and the history replayed
  from the known hash; if none was (the path was left out, or its hash was empty), when the history happens to
  replay from the new hash (`PathTrail.ReportReplays`, `PathTrail.TrailReplays`,
  `IntegrityHistory.HistoryExactly`). So a path left out and brought back changed, an empty hash and a path
  listed twice break it (`PathTrail.WaysToBreak`, `IntegrityHistory.GapBreaksHistory`).
- Verification page by page accepts, besides the logs that verification of the whole accepts, exactly those
  whose sequence numbers jump at page boundaries only (`PagedVerification.PagingMeans`,
  `PagedVerification.BoundaryJump`); such a log is still fixed by its last hash
  (`PagedVerification.PagedTamperEvidence`). A log that ends in the largest int64 at the end of a full page is
  rejected even if no row of it is faulty, because the start of the next page wraps and the table is read again
  (`PagedVerification.VerifyAuditChain`, `PagedVerification.WrapIsRejected`).
- Truncating an audit log is invisible without a checkpoint or anchor (`AuditChain.PrefixAccepted`).

## Model

| member | source | states |
|---|---|---|
| AuditChain.WriteField | internal/auditchain/chain.go:51-56 | a field is appended to what the buffer held as its length, a colon, its bytes and a newline |
| AuditChain.FieldPrefixFree | internal/auditchain/chain.go:49-56 | a length-prefixed field is read back whole whatever bytes it holds and whatever follows it |
| AuditChain.RenderCanonical | internal/auditchain/chain.go:61-72 | the six buffer writes give the domain line followed by the six hashed fields in order |
| AuditChain.CanonicalInjective | internal/auditchain/chain.go:58-72 | equal encodings mean equal sequence number, time, actor, action, device and detail |
| AuditChain.EncodingReadBack | internal/auditchain/chain.go:58-72 | an encoding reads back as sequence number, time, actor, action, device and detail, in this order |
| AuditChain.HexReads | internal/auditchain/chain.go:74-80 | each byte of a digest is written as its two hex digits, the high one first |
| AuditChain.PreimageInjective | internal/auditchain/chain.go:74-80 | the unprefixed previous hash followed by the encoding determines both, because a previous hash is empty or 64 hex characters |
| AuditChain.EqualHashes | internal/auditchain/chain.go:74-80 | equal entry hashes mean equal predecessors and contents, or those two preimages collide |
| AuditChain.VerifyFrom | internal/auditchain/chain.go:105-133 | no error exactly when every entry links; an error names the first faulty entry and its fault |
| AuditChain.FaultMeans | internal/auditchain/chain.go:110-128 | which fault a row has: a gap before it comes first, then its link, then its own hash |
| AuditChain.Verify | internal/auditchain/chain.go:135-148 | no error exactly when the log is empty or starts at 1 and links from the genesis; otherwise what is reported |
| AuditChain.AgreeBackwards | internal/auditchain/chain.go:105-133 | behind two entries with one hash the two ranges agree entry by entry, or hash two colliding strings |
| AuditChain.ChainFixedByLastHash | internal/auditchain/chain.go:74-80 | two chains of hashes from the genesis that end alike are the same log whatever their sequence numbers, or hash two colliding strings |
| AuditChain.TamperEvidence | internal/auditchain/chain.go:1-6 | two accepted logs that end in one hash are the same log, or hash two colliding strings |
| AuditChain.LinkedConcat | internal/auditchain/chain.go:105-133 | a concatenation verifies exactly when both parts do and hash and sequence number join up |
| AuditChain.AppendsAccepted | internal/auditchain/chain.go:82-88 | any number of appends to an accepted log gives an accepted log that begins with it |
| AuditChain.ModifiedRowIsReported | internal/auditchain/chain.go:117-128 | changing a row's hashed fields is reported at that row, or exhibits a collision with its old contents |
| AuditChain.RemovedRowIsReported | internal/auditchain/chain.go:111-116 | deleting an interior row is reported at the row after it as a jump |
| AuditChain.PrefixAccepted | internal/auditchain/chain.go:135-148 | every prefix of an accepted log is accepted, so truncation alone is not seen |
| AuditChain.SeqnoIsPosition | internal/auditchain/chain.go:35-38 | an accepted log of at most 2^63 - 1 entries numbers them 1, 2, 3 and so on |
| AuditChain.RenderCheckpoint | internal/auditchain/chain.go:160-170 | the buffer writes give the checkpoint domain line followed by the four signed fields |
| AuditChain.CheckpointInjective | internal/auditchain/chain.go:160-170 | different checkpoints are signed as different messages |
| AuditChain.CheckpointReadBack | internal/auditchain/chain.go:160-170 | a signed message reads back as sequence, hash, time and key |
| AuditChain.DomainsSeparate | internal/auditchain/chain.go:25-30 | no signed checkpoint is the preimage of an entry hash |
| AuditChain.VerifyAgainstCheckpoint | internal/auditchain/chain.go:190-223 | accepted exactly when the signature verifies and a non-empty linked range ends at the attested sequence and hash; which error a bad signature, a faulty range, an empty one and a wrong end give |
| AuditChain.CheckpointCommits | internal/auditchain/chain.go:150-158 | two ranges one checkpoint attests, with one first sequence number, are equal and start from one hash, or hash two colliding strings |
| PagedVerification.VerifyAuditChain | internal/storepg/store.go:272-303 | no error exactly when the stored log starts at 1, no row is faulty page by page and the start of the next page does not wrap; otherwise the error names the first faulty row, of the rows in the order in which they are asked for |
| PagedVerification.WrapIsRejected | internal/storepg/store.go:296-298 | asked for again after a wrap, the rows always show a fault |
| PagedVerification.PagingMeans | internal/storepg/store.go:272-303 | a log is accepted as a whole exactly when it is accepted page by page and the sequence joins up at every page boundary |
| PagedVerification.PagedTamperEvidence | internal/storepg/store.go:264-271 | two logs that pass page by page and end in one hash are the same log, or hash two colliding strings |
| PagedVerification.BoundaryJump | internal/storepg/store.go:287-297 | after full pages a linked entry passes whatever its number, and passes as part of the whole only with the next one |
| Anchor.Publish | internal/anchor/publish.go:97-130 | one record per target in order, a success exactly when the kind is known and the target published; the error text of a failure is the target's, or names the unknown kind; success or failure of one target shows in its record alone |
| Anchor.PublishedAnchors | internal/anchor/publish.go:97-130 | what is published of the checkpoint of a log is an anchor of the entry it covers |
| Anchor.VerifyAgainst | internal/anchor/anchor.go:74-116 | every anchor once, sorted by falling sequence: never published, truncated, still matching or rebuilt exactly in those four cases, with the hash the chain has now or none |
| Anchor.Summarise | internal/anchor/anchor.go:129-162 | each count is the number of verifications in its class, the counts add up, and each verdict appears exactly when the verifications call for it |
| Anchor.HashAtPosition | internal/storepg/anchors.go:64-93 | in an accepted log the hash at sequence s is that of entry s, and beyond the end there is none |
| Anchor.AnchorProtectsPast | internal/anchor/anchor.go:74-84 | an anchor of log a matches log b when b begins with a up to the anchored entry and, collisions apart, only then; truncation is reported exactly when b is too short |
| Anchor.EarlierAnchorsMatch | internal/anchor/anchor.go:74-84 | one matching anchor vouches for every earlier one, or a collision is exhibited |
| Anchor.AnchorSurvivesAppends | internal/anchor/anchor.go:74-84 | appending to a log never breaks an anchor of it |
| Anchor.VerifyAnchors | internal/storepg/anchors.go:96-117 | on log and records: every record once, told as never published, truncated, still matching or rebuilt with the log's hash at its sequence; the counts are the numbers of records that the log holds under their hash, under another, or not; the chain is reported as changed exactly when some published record does not match, and all matching exactly when all do |
| Anchor.HashAtMeans | internal/storepg/anchors.go:64-93 | the hash at a sequence is that of the entry with this number |
| Anchor.CountedAs | internal/anchor/anchor.go:129-147 | when a published record is counted as matching, mismatched and missing, on the entries of the log |
| Anchor.AllMatchMeansUnchanged | internal/anchor/anchor.go:129-162 | all records match exactly when every anchored prefix still stands at the start of the chain, collisions apart |
| ExposureRank.KevIsConstantInBand | lib/exposure-model.ts:359-371 | rows of one band agree on the effective KEV flag, which only the first band has |
| ExposureRank.RankAntisymmetric | lib/exposure-model.ts:413-437 | swapping the rows negates the comparison, and only rows with one id compare equal |
| ExposureRank.RankTransitive | lib/exposure-model.ts:413-437 | the comparison is transitive although one key is skipped for some pairs |
| ExposureRank.IsRanked | lib/exposure-model.ts:439-443 | checking neighbours answers whether every pair is in order |
| ExposureRank.RankedArrangementUnique | lib/exposure-model.ts:395-404 | rows with distinct ids have exactly one ranked arrangement |
| ExposureRank.FourBlocks | lib/exposure-model.ts:395-412 | any ranked list falls into KEV vulnerabilities by falling listing date, urgent rows by falling CVSS-equivalent, scored vulnerabilities by falling EPSS, and the rest by falling CVSS-equivalent |
| ExposureRank.TiesInList | lib/exposure-model.ts:425-437 | in a ranked list rows that tie on all that is measured stand by severity, then by kind of row, then by id |
| ExposureRank.RankedListMeaning | lib/exposure-model.ts:395-404 | before a KEV vulnerability stand only KEV vulnerabilities listed as recently, and EPSS falls within the other bands |
| ControlPlaneRank.OrdersAgree | internal/exposure/rank.go:283-306 | the two comparators order two rows alike exactly unless one is a severity-ranked row of unknown severity and the other has nothing to rank by |
| RankedPages.ListedIsScored | internal/storepg/exposure.go:362-393 | no row of the ranked list lacks the severity it ranks by: surface findings that inform only are left out, and identity and repository findings have one of the ranking severities |
| RankedPages.StoredBlocks | internal/storepg/exposure.go:306-321 | in which block each kind of stored finding is ranked and by which score |
| RankedPages.CheckMirrorsRanking | internal/exposure/rank.go:283-306 | so the console's check accepts exactly what the control plane has ranked, on anything the list holds |
| RankedPages.KeysRank | internal/storepg/exposure.go:287-329 | on listed rows the row comparison of the six sort keys is the control plane's comparison |
| RankedPages.PageMeaning | internal/storepg/exposure.go:411-444 | a page holds exactly the rows behind its cursor, in order, up to the next cursor, which it gives exactly when it is full and there are more |
| RankedPages.LaterPagesFollow | internal/storepg/exposure.go:411-444 | whatever changes between the requests, later pages show only rows that stand after all that was shown |
| RankedPages.ShownExactlyOnce | internal/storepg/exposure.go:411-444 | a row that stays while the pages are walked to the end is shown on exactly one of them, whatever else changes |
| RankedPages.PagesAreTheList | internal/storepg/exposure.go:411-444 | while nothing changes the pages one after another are the whole list in rank order |
| RankedPages.PagesPassTheCheck | internal/storepg/exposure.go:411-444 | whatever changes between the requests, the pages one after another pass the console's check |
| RpmVersion.RpmVerCmp | internal/vuln/rpm.go:32-140 | the loop compares the two lists of segments |
| RpmVersion.CompareRPM | internal/vuln/rpm.go:174-186 | epoch, then version, then release |
| RpmVersion.VersionsAreOrdered | internal/vuln/rpm.go:32-186 | over all strings swapping negates, the order is transitive, and versions are equal exactly when epoch and segments are |
| RpmVersion.NumbersDecide | internal/vuln/rpm.go:93-128 | behind a common beginning the larger number is the newer version, whatever follows |
| RpmVersion.LettersDecide | internal/vuln/rpm.go:93-128 | behind a common beginning letters come before a number and compare as texts |
| RpmVersion.LongerIsNewer | internal/vuln/rpm.go:133-139 | a version that goes on with letters or digits is newer than one that ends |
| RpmVersion.EvrDecides | internal/vuln/rpm.go:172-186 | a smaller epoch is older whatever the rest, then the version decides, and the release between equal versions |
| RpmVersion.NewerVersion | internal/vuln/rpm.go:172-186 | so a version with a larger number is newer whatever the releases are |
| RpmVersion.MarksOrder | internal/vuln/rpm.go:50-85 | s~t comes before s and s^t after it, whatever t is |
| RpmVersion.SnapshotBeforeNext | internal/vuln/rpm.go:65-85 | a snapshot comes before every version that goes on with letters or digits |
| DpkgVersion.DpkgVerRevCmp | internal/vuln/dpkg.go:44-89 | the loop compares the two lists of parts, text and number in turn |
| DpkgVersion.CompareDpkg | internal/vuln/dpkg.go:125-137 | epoch, then upstream version, then revision |
| DpkgVersion.VersionsAreOrdered | internal/vuln/dpkg.go:44-137 | over all strings without NUL swapping negates, the order is transitive, and versions are equal exactly when epoch and parts are, missing parts counted as empty |
| DpkgVersion.TildeFirst | internal/vuln/dpkg.go:10-13 | a tilde sorts before everything, the end of the string included |
| DpkgVersion.NumbersDecide | internal/vuln/dpkg.go:61-86 | behind a common beginning the larger number is the newer version, whatever follows |
| DpkgVersion.TextDecides | internal/vuln/dpkg.go:49-59 | behind a common beginning the first character outside a number decides by its order value |
| DpkgVersion.OrderTable | internal/vuln/dpkg.go:15-32 | a tilde before the end of the text, letters after it by their code, every other character after the letters |
| DpkgVersion.VersionDecides | internal/vuln/dpkg.go:125-137 | a smaller epoch is older whatever the rest, then the upstream version decides, and the revision between equal upstream versions |
| DpkgVersion.NewerUpstream | internal/vuln/dpkg.go:125-137 | so an upstream version with a larger number is newer whatever the revisions are |
| CursorStack.BackRoundTrip | lib/exposure-model.ts:721-724 | a stack joined with dots is split back to itself, less what lies deeper than 50 |
| CursorStack.PushThenPop | lib/exposure-model.ts:747-757 | Next then Previous restores the page exactly when the stack had room and the cursor is not "0"; when the page number rises by one |
| CursorStack.StepsToFirst | lib/exposure-model.ts:752-757 | Previous reaches the first page in at most one step more than the stack is deep |
| CursorStack.WalkRetraced | lib/exposure-model.ts:747-757 | any walk forward that the stack holds is retraced by as many steps back |
| ExposureList.HrefRoundTrip | lib/exposure-model.ts:712-745 | parsing a link gives the filters and page it was written for, and the advisory made well formed and cut |
| ExposureList.DrawerKeepsPage | lib/exposure-model.ts:759-762 | opening a drawer changes nothing but the advisory, and opens the one asked for exactly when its id is well formed and at most 200 units long |
| ExposureList.NextThenPrev | lib/exposure-model.ts:747-757 | the same for whole queries: filters come back too, and a malformed next cursor leads nowhere |
| ExposureList.FirstPageReached | lib/exposure-model.ts:752-757 | from any URL at most 51 Previous links, each read back from its own URL, lead to the first page, which has none |
| DeviceList.HrefRoundTrip | lib/device-list.ts:56-92 | parsing a link gives the query it was written for, its search text made well formed and trimmed once more |
| DeviceList.OtherFilters | lib/device-list.ts:44-70 | any other text of a filter leaves the list unfiltered |
| DeviceList.NextThenPrev | lib/device-list.ts:94-106 | Next then Previous restores the query exactly when the stack had room, the cursor is not "0" and the search text is trimmed and well formed |
| DeviceList.SearchTextDrifts | lib/device-list.ts:65 | the first parse of a well-formed text gives one that paging changes exactly when the cut at 200 units falls after white space or inside a character |
| DeviceList.SearchTextCanDrift | lib/device-list.ts:65 | both happen |
| DeviceList.FirstPageReached | lib/device-list.ts:101-106 | from any URL at most 51 Previous links, each read back from its own URL, lead to the first page, which has none |
| StoreQueue.RunsKeep | lib/store.ts:19-28 | in every interleaving sections are entered in turn, the file is the serial result so far and what a running section read is current |
| StoreQueue.Serialised | lib/store.ts:19-28 | at most one section runs, sections start in submission order and the file is the serial result of those that committed |
| StoreQueue.NeverBlocked | lib/store.ts:19-28 | while a section is unfinished some section can move, however the earlier ones ended |
| StoreQueue.StepsRunOut | lib/store.ts:19-28 | every step but a submission brings the end closer |
| StoreQueue.EndsSerial | lib/store.ts:19-28 | when no step is left every section has finished and the file holds the serial result |
| HostStore.StoreRecord.EnrollDevice | lib/store.ts:146-192 | a wrong secret writes nothing; a live host of that name, in any case, is told its own device and nothing changes; otherwise a new device is added and told |
| HostStore.EnrolledOnce | lib/store.ts:153-165 | a host that enrols again under its name, whatever its letters' case, gets the device it has, and the store is as it was |
| HostStore.StoreRecord.ApplyFim | lib/store.ts:203-226 | the device takes the report, an empty baseline takes it too, and the changes are put before the old events, 200 in all |
| HostStore.StoreRecord.Checkin | lib/store.ts:228-268 | the data after a check-in is that of the first device with the node key updated; an unknown key changes nothing |
| HostStore.StoreRecord.AcceptFimBaseline | lib/store.ts:308-318 | the device's baseline becomes its current files and no other device changes |
| HostStore.StoreRecord.ReplaceSampleFleet | lib/store.ts:270-284 | the live devices and events are kept, each as often and in the order it was, followed by exactly the new samples; triages and secret stay |
| HostStore.StoreRecord.ClearSampleFleet | lib/store.ts:286-295 | the live devices and events are kept, each as often and in the order it was, and nothing else |
| HostStore.ReplacementUndone | lib/store.ts:270-295 | clearing undoes a replacement exactly when everything brought in is marked as sample, and then a second replacement leaves no trace of the first |
| HostStore.StoreRecord.SetTriage | lib/store.ts:297-306 | the key has this status and no other, the other triages stay in order, and keys stay distinct |
| HostStore.TriageMeans | lib/store.ts:297-306 | besides, of two triages of a key only the last counts |
| HostStore.EnsureStore | lib/store.ts:320-356 | what is written when the file is missing, when the schema is old, samples are wanted or unwanted, and that otherwise nothing is |
| HostStore.EnsureSettles | lib/store.ts:338-356 | run again it finds nothing to do |
| HostStore.EnsureMeans | lib/store.ts:338-356 | with samples disabled no sample device stays, with samples enabled there are devices, live ones stay as they are; and exactly when nothing is written |
| HostStore.CheckinMeans | lib/store.ts:228-268 | refused exactly for an unknown key; otherwise what of the first device with the key changes, and that nothing else does |
| HostStore.EnrollMeans | lib/store.ts:146-192 | refused exactly for a wrong secret; otherwise a live host of that name stays, or one live device without reports is added |
| HostStore.AcceptMeans | lib/store.ts:308-318 | refused exactly for an unknown id; otherwise the first device with the id has its files as baseline, and nothing else changes |
| PathTrail.ReplaysIsChain | lib/store.ts:203-226 | replaying changes means each starts at the hash the one before it ended at, down from the current hash |
| PathTrail.ReportReplays | lib/store.ts:207-223 | exactly when a history replays from the hash just reported, for any earlier history and any report of the path |
| PathTrail.TrailReplays | lib/store.ts:207-223 | exactly when it does after any run of reports, with paths left out, empty hashes and paths listed twice |
| PathTrail.CoveredUnbroken | lib/store.ts:207-223 | reports that list the path once with a hash never break it |
| PathTrail.WaysToBreak | lib/store.ts:209-212 | a gap, an empty hash and a path listed twice each break a history |
| IntegrityHistory.HistoryOfReport | lib/store.ts:207-223 | what one report adds to the history of a path, for any report; nothing if it is another device's |
| IntegrityHistory.HistoryIsTrail | lib/store.ts:136-356 | over every run of store operations the retained history is the newest part of the changes the reports record and the history before, and all of it if the cap cut nothing |
| IntegrityHistory.HistoryExactly | lib/store.ts:136-356 | so it replays from a hash exactly under that condition on the reports after the place where the cap cut, and on what is left of the changes there |
| IntegrityHistory.CheckinTracks | lib/store.ts:203-226 | a check-in that covers the path keeps the retained events replaying and at most 200 of them |
| IntegrityHistory.HistoryReplays | lib/store.ts:136-356 | over every run of store operations the retained events of a covered path replay from the current hash |
| IntegrityHistory.EnrolledIsTracked | lib/store.ts:166-192 | a device that has just enrolled is where such runs start |
| IntegrityHistory.GapBreaksHistory | lib/store.ts:209-212 | a path left out of one report can change without an event |
| IntegrityHistory.BaselineFixed | lib/store.ts:204-206 | no run without an acceptance changes a baseline that is not empty |
| IntegrityHistory.BaselineOverRun | lib/store.ts:203-206 | over such a run the baseline is the first non-empty one of itself and the reports |
| ConcurrentStore.MissingStays | lib/store.ts:146-152 | a missing store is created by ensureStore or a host that knows the new random secret, and by nothing else |
| ConcurrentStore.NoUpdateLost | lib/store.ts:136-356 | in every interleaving, from a store that may be missing, the file is the result of exactly the committed operations in submission order |
| ConcurrentStore.ConcurrentHistoryReplays | lib/store.ts:136-356 | so the integrity history replays under concurrency too |
| ConcurrentStore.TriageSurvives | lib/store.ts:297-306 | a triage stays until its key is triaged again |
| Policies.FimDriftPaths | lib/policies.ts:29-41 | exactly the drifted paths, each once |
| Policies.DriftSinceAcceptance | lib/policies.ts:29-41 | after an acceptance and any run of other operations the drift is that of the last report from the files accepted, or from the first report with files if none were |
| Policies.NoDriftMeansUnchanged | lib/policies.ts:29-41 | with non-empty accepted hashes, no drift means every accepted file is reported with its hash |
| FleetKey.SameTriageMeans | lib/fleet-aggregates.ts:62-64 | two keys count as one triage exactly when the rendered lists end alike after the last bar, or render alike when they have none |
| FleetKey.BarHidesTriage | lib/fleet-aggregates.ts:58-64 | lists that differ only before a bar count as one |
| FleetKey.RenderedLast | lib/fleet-aggregates.ts:58 | a list whose last key holds a bar ends, after it, as that triage does, and renders longer than the list before |
| FleetKey.NewestMatch | lib/fleet-aggregates.ts:40-45 | the newest match time is one of the summaries' or none, and none of them is later |
| FleetKey.EqualKeys | lib/fleet-aggregates.ts:47-60 | equal keys mean the same version, number of hosts, local hosts, number of summaries, newest match time and triages as rendered, exactly when their bars agree in number |
| FleetKey.CheckinChangesKey | lib/fleet-aggregates.ts:52-57 | a host that is seen again changes the key exactly if it is one of the console's own store |
| FleetKey.RematchChangesKey | lib/fleet-aggregates.ts:40-45 | new match results change the key exactly if their number or the newest time differs, or they come or go altogether |
| FleetKey.NewerMatchChangesKey | lib/fleet-aggregates.ts:40-45 | so match results newer than all before them change the key |
| FleetKey.TriageRenders | lib/fleet-aggregates.ts:58 | a key triaged for the first time, or to a status of another length, changes the rendered list |
| StaleCache.RunsAreReachable | lib/fleet-aggregates.ts:23-38 | in every interleaving what is pending is the computation deferred last, and everything cached or deferred was asked for |
| StaleCache.ServedRelated | lib/fleet-aggregates.ts:66-89 | an answer comes from inputs that may stand in for the caller's, in every interleaving |
| StaleCache.StaleBecomesFresh | lib/fleet-aggregates.ts:26-38 | a request served stale is fresh once the queue has drained, if no other key was asked for and the computation that emptied it did not throw |
| StaleCache.ThrowIsRetried | lib/fleet-aggregates.ts:28-38 | after a computation that threw, the next stale request defers another |
| FleetAggregates.ServedExactly | lib/fleet-aggregates.ts:66-89 | in any state the answer was computed with a triage list that renders like the caller's exactly unless the cached one ends like it after a bar and differs before |
| FleetAggregates.ServedWithOwnTriage | lib/fleet-aggregates.ts:81-89 | over all interleavings of requests for given inputs, never otherwise exactly when none of their lists does |
| FleetAggregates.TriageChangeShows | lib/fleet-aggregates.ts:81-82 | with no bar in any list, a triage change shows at once |
| FleetAggregates.CheckinShows | lib/fleet-aggregates.ts:66-89 | after a check-in of a local host no request is a hit on the old result, and once the queue drains the answer comes from inputs with the new key |
| FleetAggregates.RematchShows | lib/fleet-aggregates.ts:66-89 | the same after a re-match newer than all before it |
| FleetAggregates.TriageShowsAtOnce | lib/fleet-aggregates.ts:79-82 | after a triage of the store the next answer is computed from the new list, where no bar stands in either |
| FleetAggregates.BarMisleads | lib/fleet-aggregates.ts:58-64 | on any store, two triages whose keys end alike after a bar make a run whose answer was computed from the list before the second |
| FleetAggregates.FleetCache.FleetAggregates | lib/fleet-aggregates.ts:66-89 | the module's request is the state machine's, and the value is computed from the inputs it names |
| FleetAggregates.FleetCache.RunDeferred | lib/fleet-aggregates.ts:28-38 | a deferred callback is the state machine's, a throwing one leaving the cache alone |
| RateLimit.WindowCountsFailures | lib/rate-limit.ts:45-56 | a window's count is the number of failures recorded since it opened, all within five minutes, with no clear or eviction between and nothing that found it expired |
| RateLimit.LooksDoNotMatter | lib/rate-limit.ts:22-31 | while the clock does not go back the attempts alone decide which windows are open |
| RateLimit.Throttle.IsRateLimited | lib/rate-limit.ts:33-43 | limited exactly when five failures fell into the window still open, with the seconds that remain of it, at least 1, and at most 300 exactly when the clock is not back before its start |
| RateLimit.Throttle.RecordFailedAttempt | lib/rate-limit.ts:45-56 | the failure joins the history; a key is evicted exactly when a new key meets 5000 held ones, and it is the first in map order |
| RateLimit.EvictionIsFair | lib/rate-limit.ts:51-54 | the first key has the window opened first; while the clock does not go back that is the oldest, so a live window goes only when every held one is live |
| RateLimit.Throttle.ClearAttempts | lib/rate-limit.ts:58-60 | the key is forgotten and nothing else changes |
| ReplayCache.Cache.Remember | cmd/defendsec-agentd/commands.go:23-34 | refuses exactly the ids of the current block of 256 accepted ones, and holds ((n - 1) mod 256) + 1 of them |
| ReplayCache.NoReplayWithinBlock | cmd/defendsec-agentd/commands.go:23-34 | in any stream an id runs again only in a later block |
| ReplayCache.Run | cmd/defendsec-agentd/commands.go:23-34 | running the cache over a stream accepts the ids the reference accepts |
| OsLifecycle.EditionsAreKnownKinds | lib/os-lifecycle.ts:54-71 | a client track is read exactly for client editions, and semi-annual servers only from an EditionID |
| WindowsHosts.HomeAndPro | lib/os-lifecycle.ts:61 | Core and Professional EditionIDs are on the home and pro track, in any case, with any suffix and caption |
| WindowsHosts.Education | lib/os-lifecycle.ts:62 | Education EditionIDs are on the enterprise track |
| WindowsHosts.Servers | lib/os-lifecycle.ts:58 | server EditionIDs are read as servers, semi-annual ones exactly when they end in "acor" |
| WindowsHosts.Enterprise | lib/os-lifecycle.ts:59-62 | enterprise EditionIDs are long-term servicing ones exactly with the suffix S or SN |
| WindowsHosts.IotEnterprise | lib/os-lifecycle.ts:60-62 | IoT enterprise EditionIDs are long-term servicing ones exactly with the suffix S |
| WindowsHosts.UnknownIds | lib/os-lifecycle.ts:63 | an EditionID is unknown exactly when it begins with none of six words |
| WindowsHosts.Captions | lib/os-lifecycle.ts:65-70 | without an EditionID the words of the caption decide, in this order and in any case |
| WindowsHosts.RowsOfEdition | lib/os-lifecycle.ts:144-157 | on which products and cycle suffixes each edition is judged, and an unknown one |
| WindowsHosts.ReasonMeaning | lib/os-lifecycle.ts:136-176 | each reason is given exactly in its own case and names the releases that apply |
| WindowsHosts.PublishedVerdicts | lib/testdata/os-calendar.json:74-93 | what the published rows of build 17763 say of every edition, on every day |
| WindowsHosts.PublishedHome | lib/testdata/os-calendar.json:503-513 | a Home or Pro host of that build is in support exactly before 2020-11-10 |
| WindowsHosts.PublishedEducation | lib/testdata/os-calendar.json:493-503 | an Education host exactly before 2021-05-11 |
| OsLifecycle.CycleTable | lib/os-lifecycle.ts:17-22 | which cycle names belong to which edition: each suffix decides by itself, because no name has two |
| OsLifecycle.SupportMeaning | lib/os-lifecycle.ts:129-177 | a verdict is given exactly when some row applies and all that apply agree on it |
| OsLifecycle.PickEndsLast | lib/os-lifecycle.ts:166-171 | the row reported applies and none that applies ends later |
| OsLifecycle.UnknownEditionIsSafe | lib/os-lifecycle.ts:28-30 | a verdict given without the edition is never contradicted by learning it, semi-annual servers apart |
| OsLifecycle.HostVerdictIsSafe | lib/os-lifecycle.ts:28-30 | the same for a host as it reports itself, before and after its edition can be read |
| OsLifecycle.ContradictedExactly | lib/os-lifecycle.ts:141-176 | two editions of a build get opposite verdicts on some day exactly when the calendar dates all their releases and ends all of one before any of the other |
| OsLifecycle.OverlapIsSafe | lib/os-lifecycle.ts:145-157 | releases that overlap keep two editions from contradicting each other, whatever else the calendar lists |
| OsLifecycle.PublishedIsSafe | lib/testdata/os-calendar.json:14-112 | with the published rows a verdict given without the edition is never contradicted, on any day, for any build and whatever the edition is |
| OsLifecycle.PublishedAlone | lib/testdata/os-calendar.json:14-112 | those rows alone are such a calendar |
| OsLifecycle.WithoutClients | internal/feeds/runner/runner.go:646-666 | on the published server rows alone build 17763 contradicts exactly from 2020-11-10 until 2029-01-09 |
| OsLifecycle.VerdictInTime | lib/os-lifecycle.ts:116-119 | out of support stays out at every later date, and in support was so at every earlier one |
| OsLifecycle.NewRowsNeverFlip | lib/os-lifecycle.ts:141-176 | more calendar rows never turn a verdict around |
| CommandLine.SplitCommandLine | cmd/defendsec-agentd/cmdline.go:29-52 | the loop gives the tokens of the scan |
| CommandLine.TokensAreTokens | cmd/defendsec-agentd/cmdline.go:29-52 | tokens are non-empty, have no space outside quotes, and only the last may leave a quote open |
| CommandLine.ScanConserves | cmd/defendsec-agentd/cmdline.go:29-52 | splitting loses nothing but the spaces outside quotes |
| CommandLine.SplitJoin | cmd/defendsec-agentd/cmdline.go:26-52 | joining tokens and splitting again gives them back |
| CommandLine.RemoveFlag | cmd/defendsec-agentd/cmdline.go:8-27 | the kept tokens joined, and changed exactly when some token is the flag in some form |
| CommandLine.KeptSelection | cmd/defendsec-agentd/cmdline.go:12-25 | exactly the flag in its forms and the values of the flags removed go; everything else survives in order |
| CommandLine.RemoveFlagRoundTrip | cmd/defendsec-agentd/cmdline.go:8-27 | the result splits into the kept tokens, none is the flag, and a second removal changes nothing |
| CommandLine.FlagForms | cmd/defendsec-agentd/cmdline.go:13-22 | the flag's forms are its name, alone or before an equals sign, with one more dash or without, and quotes around the token |
| CommandLine.FlagGoes | cmd/defendsec-agentd/cmdline.go:14-22 | the flag goes with the token behind it, with its value it goes alone, and what stands before stays |
| SurfaceGroups.CollectGroups | lib/surface-model.ts:127-135 | each group holds its asset's open and closed findings in the order given |
| SurfaceGroups.GroupByAsset | lib/surface-model.ts:122-153 | each asset once and every finding of a declared asset exactly as often as given; in each group the open findings by the list of severities, then check, finding and subject, the closed ones by falling time, and as worst the most severe open one; groups by their worst, those with nothing open of the list at the end, then by name |
| SurfaceGroups.LatestFirst | lib/surface-model.ts:144 | a later resolution never stands behind an earlier one, where the collation orders the time texts |
| SurfaceGroups.DistinctIdsShare | lib/surface-model.ts:128-135 | with distinct ids a group's share is all findings of its asset |

## Left out

- CursorStack.BackRoundTrip: percent-encoding of well-formed text by URLSearchParams is taken to round-trip and is not modelled.
- OsLifecycle.PickEndsLast: compares end dates as texts where the code uses localeCompare, which agrees on YYYY-MM-DD.
- OsLifecycle.SupportMeaning: the build number is given; reading it from a version text with Number is not modelled, nor are non-ASCII letters in toLowerCase.
- IntegrityHistory.HistoryReplays: assumes that random device ids differ, as randomBytes makes them in practice.
- HostStore.StoreRecord.Checkin: of a host's inventory only the name, the number of pending updates and the integrity files are modelled; event ids and timestamps are not.
- HostStore.StoreRecord.EnrollDevice: letters outside ASCII in toLowerCase are not modelled.
- Anchor.Publish: what happens inside a target (RFC 3161, files, HTTP) is one arbitrary success, or failure with a text that is not empty; escapes in the quoted kind are not modelled.
- Anchor.VerifyAgainst: the explanation sentences are kinds of outcome, not texts.
- ExposureRank.RankTransitive: scores are exact numbers or missing; NaN is not modelled, and ids compare by code unit.
- ControlPlaneRank.OrdersAgree: KEV days are YYYY-MM-DD texts on both sides, severities are already in lower case, and ids compare alike, as they do without characters outside the basic plane.
- RankedPages.KeysRank: a KEV day is a number here and its text is any that keeps the order of days; ids compare alike bytewise and by UTF-16 unit, as they do without characters outside the basic plane.
- RankedPages.PageMeaning: the JSON and base64 of a cursor, the grouping of findings under an advisory and the bucket and status filters are not modelled; the list at a request is any list of rows with distinct ids.
- RpmVersion.CompareRPM: reading epoch, version and release from a text is not modelled.
- DpkgVersion.DpkgVerRevCmp: the strings hold no NUL, on which the original's loop would not move on; reading epoch, upstream version and revision from a text is not modelled.
- CommandLine.ScanConserves: is about the runes of the command line; bytes that are not valid UTF-8 have become U+FFFD before.
- FleetAggregates.FleetCache.FleetAggregates: policySummary and seriousOpen are arbitrary functions of their inputs.
- The signature scheme, base64, SHA-256 itself, JSON text of the store and of file anchors.
- Filling in fields that an older store file lacks (normalizeStore), and the backup copy.
- Everything else that talks to a database or a network.
- Label and sentence builders, charts, count tallies and React components.
