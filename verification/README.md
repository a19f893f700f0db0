# Verification of the site's protocols and stores

A Dafny 4.11 model of the parts of the site whose correctness rests on arithmetic, on state kept over time, or on
the order in which concurrent work happens, with proofs that hold for every input and every run. Verify it with
`dafny verify dfyconfig.toml`.

## What is modelled

**The toll (proof of work).** `Word`, `Fips180` and `Rfc2104` define 32-bit words, SHA-256 (FIPS 180-4, sections 3,
4, 5.1.1 and 6.2) and HMAC (RFC 2104, section 2). `JsNumber` gives ECMAScript's signed and unsigned 32-bit
conversions. `ChallengeWorker` is the browser worker: the same loops over the same typed arrays, proved equal to the
standards, with a thrown RangeError as an outcome. `ImageChain` is the server's digest loop. `Base64`, `Clearance` and
`TollProtocol` are the encodings, the clearance token, and issue, solve and verify.

**The behavioural greylist.** `Text` and `Detection` (features and rules), `Crawler` (forward-confirmed reverse DNS
and its memo), `Greylist` (table and in-memory set), `Sweep` (one pass as the code runs it, failing statements
included), `GreylistRuns` (a state machine over requests, timed and manual passes that end early or not, pins, releases,
address changes, restarts and the passing of time).

**The dead-link scanner.** `LinkCheck` (the next-row rule, the two tables, whole check histories), `DeadLinkScan` (one
pass, with the per-host workers interleaved in every possible way), `ScanGuard` (the single-flight slot),
`ContentTree` (the page walk and path resolution, on any parent relation, cycles and dangling parents included), and
`SiteScan` (the walk feeding the pass).

**The media store.** `MediaStore` (the roots, in-memory stores and staged uploads over a file system) and `MediaRuns`
(any interleaving of them, drives coming and going, restarts, and writes that fail part way or say so late); both hold
for any hash function, and `MediaStore.Sha256Store` is the site's own choice. `MediaVariants` is the rung lifecycle of
an image item.

**Visibility and paging.** `Roles` (the ladder, its SQL twin, the strictest-owner rank), `StoredDate` (the two texts a
publish date is stored as, and their order) and `Listing` (both visibility gates, the queries, the pager), with
`Sorting` for the orders.

**DNS and the request log.** `DnsReconcile` (create and delete passes), `DnsValidator` (the bounded waits), and
`RequestLog` (the bulk bot reclassification).

What name resolution, HTTP checks, clocks, free-space probes, random names and LIKE matching answer is an input.
Tables are maps or sequences, sets and hash maps are iterated in an arbitrary order, and each SQL statement is one
atomic step.

## Where the code does less than its words

Each of these is proved, with the exact condition under which the promise does hold.

- The worker hashes messages up to 2^31 - 73 bytes and throws on longer ones (`ChallengeWorker.WithPadIsPaddedLength`,
  `ChallengeWorker.Sha256InPlace`), so it digests images up to 2^26 - 3 pixels, not 2^26 - 1
  (`ChallengeWorker.WorkerImageDigest`).
- The freshness subtraction wraps in a release build: an issue time at least 2^63 seconds before the clock also counts
  as fresh (`TollProtocol.FreshIff`, `TollProtocol.EarliestTimeCountsAsFresh`). Such a time never carries a served seed.
- A greylist entry may outlive its last request by more than eight days: by as much as lies between a pass's two clock
  readings (`GreylistRuns.EntriesJustified`, `GreylistRuns.EightDaysIff`, `GreylistRuns.EightDaysIsExceeded`).
- A manual pin is dropped by a pass, and not only by a release, when the address is one of the operator's own
  (`GreylistRuns.PinRemovedIff`, `GreylistRuns.OperatorPinDropped`).
- The unique index on (parent, name) does not cover pages at the root, so of two roots with one name a path finds one
  (`ContentTree.OwnPathIff`, `ContentTree.SharedNameHidesAPage`).
- An upload leaves its staged file behind exactly when it ends with its drive absent or a restart finds it under way,
  and nothing ever clears such a file (`MediaRuns.LeakIff`, `MediaRuns.LeakStays`, `MediaRuns.StagingCleanIff`,
  `MediaRuns.UnmountLeaks`). A second copy of a hash appears exactly when an absent drive holds the first
  (`MediaRuns.SecondCopyIff`, `MediaRuns.UnmountDuplicates`).
- A page due later within the current second is shown by the listings and hidden by the page gate
  (`Listing.GatesDisagreeIff`, `Listing.ListedHalfASecondEarly`).
- The newest-first listing sorts by the stored text, which the column's default and every later save write in different
  formats. It is newest first exactly when no page shown that was ever saved again shares its UTC day with a later page
  shown that never was (`Listing.NewestFirstIff`, `Listing.SavedPageListedFirst`).
- With an IPv6 address wanted, reconciliation never settles: it adds a record a wake-up, or, where the service refuses
  the second one, ends every pass before it deletes anything (`DnsReconcile.V6NeverConverges`,
  `DnsReconcile.ReconcileRefused`).
- A sweep that ends early may leave the snapshot behind the table; exactly when is `GreylistRuns.CutPassReflectsIff`.
- A scan that panics holds the single-flight slot until the process ends (`ScanGuard.SingleFlight`).
- A full recompute keeps "challenged implies bot" only when every challenged row's agent says so
  (`RequestLog.ChallengedStaysBotIff`, `RequestLog.RecomputeForgetsToll`).

## Model

| member | source | states |
|---|---|---|
| Word.RotrBit | assets/scripts/challenge-worker.js:23-25 | the two shifts joined are a rotation: bit i of the result is bit i + n mod 32 of x |
| Word.NotBit | assets/scripts/challenge-worker.js:63 | `~x` flips every bit |
| Fips180.ChBit | assets/scripts/challenge-worker.js:63 | each bit of `e` chooses between the bits of `f` and `g` |
| Fips180.MajBit | assets/scripts/challenge-worker.js:66 | each bit is the one at least two of the three agree on |
| Fips180.SigmaBits | assets/scripts/challenge-worker.js:49-65 | each bit of the four sigma functions is the parity of three bits of the word, at the standard's distances, with nothing past the top of a shift |
| Word.WordBytesRoundTrip | assets/scripts/challenge-worker.js:34-36 | splitting a word into four bytes and joining them again gives the word back, and the first byte is the most significant |
| Fips180.ConstantsAreCubeRoots | assets/scripts/challenge-worker.js:10-22 | each of the 64 constants is the first 32 fractional bits of the cube root of its prime |
| Fips180.InitialValueIsSquareRoots | assets/scripts/challenge-worker.js:37-44 | each of the eight initial words is the first 32 fractional bits of the square root of its prime, in order |
| Fips180.ScheduleRecurrence | assets/scripts/challenge-worker.js:48-52 | the schedule starts with the block and goes on by the standard's recurrence, its sum reduced once |
| Fips180.TwoVariableForm | assets/scripts/challenge-worker.js:61-75 | the rounds are a recurrence in `a` and `e` alone: the other six variables are earlier values of these two |
| Fips180.PadMeans | assets/scripts/challenge-worker.js:28-36 | the padded message is the message, a one bit, zeros, and the length in bits in the last eight bytes, most significant first |
| Fips180.FeedForward | assets/scripts/challenge-worker.js:77-84 | folding a block adds what the rounds make of the hash value to the value itself |
| Fips180.Sha256Means | assets/scripts/challenge-worker.js:46-92 | the hash is the digest of the value that starts at the initial one and folds in the padded message's blocks in turn |
| Fips180.DigestReadsBack | assets/scripts/challenge-worker.js:86-91 | the digest spells the eight final words in order |
| Fips180.ZeroCountIsLeast | assets/scripts/challenge-worker.js:30-36 | the padding of section 5.1.1 uses the least number of zero bytes |
| ChallengeWorker.JsRotr | assets/scripts/challenge-worker.js:23-25 | on any number, the signed result reads as the rotation of the number's 32-bit word |
| ChallengeWorker.WithPadIsPaddedLength | assets/scripts/challenge-worker.js:28-32 | the shifted size is the standard's padded length exactly for messages up to 2^31 - 73 bytes; for longer ones the buffer cannot hold the message |
| ChallengeWorker.WithPadIsLeast | assets/scripts/challenge-worker.js:30 | the padded size is the least multiple of 64 that is at least l + 9 |
| ChallengeWorker.PaddedBuffer | assets/scripts/challenge-worker.js:28-36 | the buffer built in place is the padded message of section 5.1.1, or a RangeError exactly above the size limit |
| ChallengeWorker.FillSchedule | assets/scripts/challenge-worker.js:47-52 | after the two loops `w` is the message schedule of the block at `off` |
| ChallengeWorker.NextWord | assets/scripts/challenge-worker.js:49-51 | the mixed signed and unsigned sum is the schedule's sum modulo 2^32, and no intermediate leaves the exact range of a double |
| ChallengeWorker.T1 | assets/scripts/challenge-worker.js:62-64 | `t1`, wrapped to 32 bits, is T1 of section 6.2.2 on the registers' words, with every sum exact |
| ChallengeWorker.CompressBlock | assets/scripts/challenge-worker.js:53-84 | the round loop and the final additions compute the compression of the block |
| ChallengeWorker.Sha256InPlace | assets/scripts/challenge-worker.js:27-92 | for every byte array: SHA-256 of it, or a RangeError exactly above 2^31 - 73 bytes |
| ChallengeWorker.HmacSha256 | assets/scripts/challenge-worker.js:101-114 | for every key and message: HMAC-SHA256, or a RangeError exactly when a hashed part is over the limit |
| Rfc2104.HmacMeans | assets/scripts/challenge-worker.js:101-114 | HMAC hashes the outer block and the hash of the inner block and the text, the blocks being the key with the bits of 0x5c and of 0x36 flipped in every byte |
| ChallengeWorker.RetainHashes | assets/scripts/challenge-worker.js:119-132 | slot j of the store holds the retained hash of pixel j |
| ImageChain.SlotsAreReversed | assets/scripts/challenge-worker.js:133-136 | the stored-then-reversed slots are the reverse fold, byte for byte |
| ChallengeWorker.WorkerImageDigest | assets/scripts/challenge-worker.js:118-137 | below 2^32 bytes the worker answers the server's digest, trailing part pixel included, exactly for at most 2^26 - 3 pixels; above, it is the digest of the wrapped count or a RangeError |
| ImageChain.ImageDigest | src/greylist/challenge.rs:65-77 | the server's two loops compute the chain digest of the whole pixels |
| ImageChain.DigestMeans | src/greylist/challenge.rs:65-77 | for any chain that starts at 32 zero bytes and hashes each pixel with the hash before it, the digest is the hash of the chain's hashes, last first |
| ImageChain.PrefixDecides | src/greylist/challenge.rs:65-77 | bytes after the last whole pixel never change a retained hash |
| Base64.WorkerEncodes | assets/scripts/challenge-worker.js:139-143 | `btoa` with its three replacements is the server engine's unpadded URL-safe spelling |
| Base64.AlphabetsAreTables | assets/scripts/challenge-worker.js:139-143 | the characters are those of the two tables of RFC 4648 |
| Base64.EncodeMeans | assets/scripts/challenge-worker.js:139-143 | each character is the table's for the next six bits of the bytes, read from the top and zero past the end |
| Base64.DecodeEncode | assets/scripts/challenge.js:20-26 | both the strict server decoder and the client's `atob` undo the encoder on every byte string |
| Base64.EncodeDecode | src/web/features/challenge.rs:196-201 | the server accepts one spelling of each byte string |
| Clearance.LeBytesInjective | src/greylist/challenge.rs:96-102 | the eight little-endian bytes determine the signed time |
| Clearance.LeBytesMeans | src/greylist/challenge.rs:99 | the eight bytes, each worth 256 times the one before it, add up to the time modulo 2^64 |
| Clearance.ParsePrint | src/greylist/challenge.rs:135-148 | printing and parsing undo each other for every 64-bit signed expiry, and no dot is printed |
| Clearance.PrintShape | src/greylist/challenge.rs:137 | what is printed has no plus sign and no leading zero |
| Clearance.ParseI64Iff | src/greylist/challenge.rs:146 | a text parses to a time exactly when it is an optional sign and a decimal numeral of it, leading zeros allowed |
| Clearance.ToHexInjective | src/greylist/challenge.rs:53-55 | the hex text determines the bytes |
| Clearance.ToHexAt | src/greylist/challenge.rs:53-55 | each byte is spelled by its high and then its low half, in lower case |
| Clearance.MintedVerifies | src/greylist/challenge.rs:135-156 | a minted token is accepted exactly while its expiry is later than now, for every expiry and time |
| Clearance.AcceptedIff | src/greylist/challenge.rs:142-156 | a token is accepted exactly when it spells an unexpired expiry followed by a dot and that expiry's MAC |
| TollProtocol.SeedMessageIff | src/greylist/challenge.rs:96-102 | two equal messages have equal fields exactly when their versions are equally long |
| TollProtocol.ServedMessageInjective | src/greylist/challenge.rs:79-102 | over every image the server may ever serve, the MACed message determines inner seed, issue time and version tag |
| TollProtocol.FreshIff | src/greylist/challenge.rs:123-126 | the freshness test is the 120-second window, plus the times so early that the subtraction wraps |
| TollProtocol.EarliestTimeCountsAsFresh | src/greylist/challenge.rs:123-126 | a time for which it wraps |
| TollProtocol.SolveInWorker | assets/scripts/challenge-worker.js:145-161 | the message handler answers the encoded HMAC of the digest of the pixels it counts under the seed, or fails exactly over the pixel or key limit |
| TollProtocol.VisitToll | src/web/features/challenge.rs:122-232 | a whole visit, from the served token through the worker to the verdict, passes exactly when the pixel limit, the image version and 0 <= now - ts <= 120 all hold |
| TollProtocol.AnswerAcceptedIff | src/web/features/challenge.rs:182-219 | an answer for any digest is accepted exactly when version and window hold and the digest gives the image's own answer |
| TollProtocol.ClearedIff | src/greylist/challenge.rs:96-130 | a query is cleared exactly when its version is the served one, its time is fresh, and its answer is the MAC of the image's digest under the MAC of inner seed, time and version |
| TollProtocol.ServedTokenMeans | src/greylist/challenge.rs:85-102 | a served token carries the inner seed and the MAC of inner seed, time and version |
| TollProtocol.VersionTagMeans | src/greylist/challenge.rs:81-83 | the version is the first six bytes of the image's hash in hex |
| TollProtocol.AcceptedIsRecomputed | src/web/features/challenge.rs:182-219 | an accepted answer is the one spelling of the answer recomputed from its own fields |
| TollProtocol.ClearanceLastsSevenDays | src/web/features/challenge.rs:229-231 | an accepted solve buys passage for exactly seven days from its verification |
| Detection.BuildFeatures | src/greylist/detection.rs:87-129 | one entry per evaluated address, in some order, each the finished accumulator of that address |
| Detection.SignatureIff | src/greylist/detection.rs:23-49 | a path is a probe's exactly when some piece of it is one of the patterns, letter case aside |
| Text.AsciiLowerMeans | src/greylist/detection.rs:47 | capital letters turn into the letter at the same place of the alphabet, and nothing else changes |
| Detection.LocalScopeIff | src/greylist/detection.rs:51-72 | the addresses never scored are exactly those of the loopback, private, link-local and unique-local networks and the unspecified ones |
| Detection.GroupedIsDirect | src/db/dao/request_log.rs:726-747 | features from the grouped rows, in any row order, equal those read straight off the raw log |
| Detection.FeaturesMean | src/greylist/detection.rs:76-129 | the five features are the numbers of requests, paths, paths not found, errors, and errors on signature paths in the window |
| Detection.AggregateExists | src/db/dao/request_log.rs:726-747 | for every log there are rows that group it, so the passes modelled exist |
| Detection.HasRowIffLogged | src/db/dao/request_log.rs:726-747 | an address has a row exactly when the window holds a request from it |
| Detection.FeaturesOfLog | src/greylist/detection.rs:87-129 | what the loop returns on a grouped log is the direct reading, for exactly the evaluated addresses seen in the window |
| Detection.FeaturesOrdered | src/greylist/detection.rs:76-84 | signature hits <= errors <= total, and distinct 404s <= errors and <= distinct paths |
| Detection.MoreRequestsNeverLower | src/greylist/detection.rs:197-218 | adding requests anywhere in the log never lowers a verdict's confidence |
| Crawler.ConfirmMeaning | src/greylist/crawler.rs:96-123 | the first name that does not deny the address decides; NotCrawler needs every name to deny it; no verdict rests on a failed lookup |
| Crawler.MatchesSuffixIff | src/greylist/crawler.rs:90-93 | a name counts exactly when it is under a crawler's domain, letter case and closing dots aside |
| Crawler.VerifyCrawlerIff | src/greylist/crawler.rs:96-123 | verified exactly when the first name under a crawler's domain that does not deny the address confirms it; no crawler exactly when all such names deny it |
| Crawler.CrawlerCache.Verify | src/greylist/crawler.rs:156-178 | answer and new memo are those of the pure memo step; only definite verdicts are stored |
| Crawler.MemoIsResolved | src/greylist/crawler.rs:142-154 | everything in the memo was resolved, definitely, for that address at the recorded instant |
| Crawler.AnswersAreFresh | src/greylist/crawler.rs:134-178 | over every sequence of calls, an answer was resolved now or less than one lifetime ago, and a cached one is never Unknown |
| Crawler.DefiniteAnswerIsReused | src/greylist/crawler.rs:142-178 | a definite answer less than one lifetime old is given again, whatever the resolver says by then |
| Greylist.GreylistTable.Upsert | src/db/dao/greylist.rs:82-106 | the new table: reason, evidence and expiry replaced, a pin kept |
| Greylist.GreylistTable.Pin | src/db/dao/greylist.rs:111-132 | the new table: pinned without expiry, evidence kept |
| Greylist.GreylistTable.Prune | src/db/dao/greylist.rs:215-226 | an automatic row goes exactly when its expiry is no later than now, every other row stays as it is, and the active set is unchanged |
| Greylist.GreylistSet.Insert | src/greylist/active_set.rs:59-69 | the address is greylisted at once unless it is the operator's |
| Sweep.RunOnce | src/greylist/sweep.rs:54-131 | a pass's table, cache, snapshot and report as functions of the state before it, of some list of features and of the statements that fail: up to the first failed upsert, prune or active query, past a failed release |
| Sweep.ListedEntry | src/greylist/sweep.rs:69-112 | what a pass leaves under a listed address, whatever order the features came in |
| Sweep.UnlistedEntry | src/greylist/sweep.rs:69-112 | every other address keeps its row through the upserts |
| Sweep.DecideIff | src/greylist/sweep.rs:69-112 | listed exactly by two signature hits, or by forty missing paths or a thousand requests and a NotCrawler verdict; spared by the other two verdicts; never for an operator address; and with the label of the first rule that fits |
| Sweep.SweptEntry | src/greylist/sweep.rs:69-124 | what a pass that completes leaves under every address it looked at: the entry with its label, evidence and expiry, the row it had unless lapsed, or nothing for the operator's own |
| Sweep.ReportCounts | src/greylist/sweep.rs:64-109 | each counter of the report is the number of features with that outcome |
| Sweep.DecisionUnchanged | src/greylist/sweep.rs:69-112 | look-ups earlier in a pass never change a later decision |
| GreylistRuns.EntriesJustified | src/greylist/sweep.rs:54-131 | after any run, manual passes and restarts included, each automatic entry has a logged request its expiry outlives by at most eight days plus the gap between a pass's clock readings |
| GreylistRuns.PassListsIff | src/greylist/sweep.rs:54-112 | a pass writes an entry exactly for the public addresses, the operator's aside, whose requests of the last day got two errors on signature paths, or forty missing paths or a thousand requests and a NotCrawler verdict |
| GreylistRuns.ActiveForSevenDays | src/greylist/sweep.rs:66-112 | such an entry is active until exactly seven days after the pass's second clock reading, or for good if pinned |
| GreylistRuns.PassPrunesIff | src/greylist/sweep.rs:113-124 | a pass that completes keeps a row it did not write exactly when it is pinned or not lapsed at the pass's third clock reading |
| GreylistRuns.EightDaysIff | src/greylist/sweep.rs:60-68 | eight days bound a fresh entry exactly when its address was still logged that much later |
| GreylistRuns.EightDaysIsExceeded | src/greylist/sweep.rs:60-68 | a concrete run in which an entry outlives its requests by eight days and a second |
| GreylistRuns.PinRemovedIff | src/db/dao/greylist.rs:82-140 | a pin goes exactly on a release, or on a pass that gets as far as the operator's addresses, finds it among them and releases it |
| GreylistRuns.OperatorPinDropped | src/greylist/sweep.rs:109-119 | a concrete run in which the next pass drops a pin of an address that became the operator's |
| GreylistRuns.PinSurvives | src/db/dao/greylist.rs:111-132 | until then it is pinned and active at every time, and in the snapshot unless a restart fails to read it, however often it is tripped again |
| GreylistRuns.EntryAfterPass | src/greylist/sweep.rs:69-131 | an entry after a pass, whole or cut short, is the one the pass wrote for its address or the one that was there |
| GreylistRuns.SnapshotIsActiveRead | src/greylist/sweep.rs:121-142 | over any run the snapshot is what was active at the last refresh in the table as read then, with later pins in and later releases out |
| GreylistRuns.SnapshotIsActiveTable | src/greylist/sweep.rs:121-142 | over runs in which every pass completes and every restart reads the table, it is what was active then in the present table |
| GreylistRuns.CutPassReflectsIff | src/greylist/sweep.rs:106-124 | a pass that ends early keeps that exactly when the snapshot's addresses still have entries and everything it listed and left was in the snapshot already |
| GreylistRuns.PassDropsOperator | src/greylist/sweep.rs:109-119 | after a pass that gets that far the table, and a new snapshot, hold only those operator addresses whose release failed |
| GreylistRuns.BluntEntryResolved | src/web/features/admin/greylist.rs:149-160 | an R2 or R3 entry, of a timed or a manual pass, is written only on a NotCrawler answer resolved for that address on the pass's own cache, in it or less than that cache's lifetime before |
| GreylistRuns.CallsExtendMemo | src/greylist/crawler.rs:156-178 | the memo a pass leaves is that of the calls on its cache, before it and in it |
| LinkCheck.NextStateKeepsLaw | src/deadlinks/dao.rs:79-124 | one check keeps the streak law of the row |
| LinkCheck.NextStateCarries | src/deadlinks/dao.rs:79-124 | the row names the latest kind and verdict, carries status, trimmed detail and time, and keeps the ignored mark and the last Ok |
| LinkCheck.TrimMeans | src/deadlinks/dao.rs:116 | trimming takes white space, and nothing else, off both ends |
| LinkCheck.BucketsMean | src/deadlinks/dao.rs:54-67 | confirmed dead is dead at least three times over, failing is dead short of that or transient, and for review is whatever is neither those nor fine |
| LinkCheck.FortyHoursCanConfirm | src/deadlinks/dao.rs:18-56 | three dead verdicts twenty hours apart do confirm a link dead |
| LinkCheck.HistoryKeepsLaw | src/deadlinks/dao.rs:79-124 | over every history with a non-decreasing clock, n failures span at least (n - 1) times 20 hours, with no Ok since the first |
| LinkCheck.ConfirmedDeadSpansFortyHours | src/deadlinks/dao.rs:54-56 | a confirmed-dead link has failed across at least 40 hours, with no Ok since its streak began |
| LinkCheck.StreakIsCount | src/deadlinks/dao.rs:79-124 | the stored count is the number of failures since the last Ok that came first or a full interval after the check before them |
| LinkCheck.StreakStart | src/deadlinks/dao.rs:79-124 | the stored start is the first failure after the last Ok |
| LinkCheck.RapidChecksStayAtOne | src/deadlinks/dao.rs:18-21 | checks less than 20 hours apart never take the count past one |
| LinkCheck.LinkStore.Record | src/deadlinks/dao.rs:182-204 | one call folds the verdict into the URL's row and changes no other |
| LinkCheck.LinkStore.ReplaceForPage | src/deadlinks/dao.rs:310-327 | afterwards the page refers to exactly the given URLs and every other page to what it did |
| LinkCheck.LinkStore.PruneOrphans | src/deadlinks/dao.rs:289-302 | a row goes exactly when it is unreferenced and past retention, the rest are unchanged, and the count is the number that went |
| LinkCheck.TableKeepsLaw | src/deadlinks/dao.rs:128-302 | after any run of records, ignores and prunes every row keeps the streak law |
| DeadLinkScan.ExternalKeepsUrl | src/deadlinks/classify.rs:68-110 | an extracted external link is recorded under the very text that refers to it |
| DeadLinkScan.ClassifyIff | src/deadlinks/classify.rs:68-110 | external are exactly the http and https links whose host is not the site with or without `www.`; internal are the links from the root and those to the site's own host, by path, query and fragment |
| DeadLinkScan.CheckedRowMeans | src/deadlinks/scan.rs:149-192 | a foreign link's row says what the HTTP check said, and a link within the site has the look-up's verdict for its path |
| DeadLinkScan.CollectTargets | src/deadlinks/scan.rs:120-135 | the targets are exactly the distinct checkable links, and the pages' references exactly theirs, up to the first page that cannot be written |
| DeadLinkScan.GroupByHost | src/deadlinks/scan.rs:166-169 | the queues hold every external URL once, under its own host |
| DeadLinkScan.CheckExternal | src/deadlinks/scan.rs:170-192 | for every interleaving each URL is checked exactly once, each host's in its queue's order, and never are more than four hosts begun and not finished |
| DeadLinkScan.OrderIrrelevant | src/deadlinks/scan.rs:114-195 | recording in any order leaves the table in which each URL's row is stepped once |
| DeadLinkScan.Confluence | src/deadlinks/scan.rs:114-195 | two interleavings of the same checks leave the same table |
| DeadLinkScan.CheckInternal | src/deadlinks/scan.rs:149-162 | the internal links in turn, up to the first failed look-up or record |
| DeadLinkScan.RunScan | src/deadlinks/scan.rs:114-206 | a pass checks each distinct checkable URL once, hands to the HTTP check exactly those of other hosts, leaves the sequential pass's table, and makes the references the live page-URL relation; its first failed statement ends it, and checks made, table, references and summary are known for every ending; a failed external record leaves that row alone |
| SiteScan.ScanSite | src/deadlinks/scan.rs:114-206 | the same over the walked tree, ending by ending: exactly the checkable links of the pages hanging from the root, their references, the table, and the summary with the number of those pages |
| DeadLinkScan.BucketsPartition | src/deadlinks/scan.rs:197-206 | the three counts of the summary add up to the problem rows |
| DeadLinkScan.SummaryCounts | src/deadlinks/scan.rs:197-206 | the summary counts the unignored rows dead three times over, and those dead less often or failing in passing |
| DeadLinkScan.PrunedIff | src/deadlinks/scan.rs:194-197 | a pass that gets that far keeps a row exactly when a page refers to its URL or its last check is at most thirty days old |
| ScanGuard.DeadLinkScanState.TryBegin | src/deadlinks/scan.rs:81-89 | the slot is claimed exactly when it was free |
| ScanGuard.SingleFlight | src/deadlinks/scan.rs:275-298 | for every interleaving of triggers, endings and panics at most one task scans; the slot is taken exactly while one does or once one has panicked, and then no task ever scans; the summary shown is the last good one |
| ContentTree.AllPages | src/deadlinks/scan.rs:301-311 | on any parent relation the walk ends, and lists each page whose ancestor chain reaches the root exactly once |
| ContentTree.FindByPath | src/db/dao/content_pages.rs:546-568 | the whole chain the path spells, or nothing because some chain cannot go on; with sibling names unique, the chain whenever there is one |
| ContentTree.RootedIffResolvable | src/db/dao/content_pages.rs:546-568 | the pages the walk lists are exactly those some path spells |
| ContentTree.ResolveOwnPath | src/db/dao/content_pages.rs:546-568 | with sibling names unique, a page's own path resolves to its ancestor chain |
| ContentTree.OwnPathIff | src/db/dao/content_pages.rs:287-321 | in general it is sure to, exactly when the page and each of its ancestors comes strictly before every sibling of its name |
| ContentTree.SharedNameHidesAPage | src/db/migrations/0005_TableContentPages.sql:1-17 | two roots may share a name, and then one path serves both |
| MediaStore.MediaStore.ResolvePath | src/media/mod.rs:55-66 | the hinted root's slot if it is a file, else the first configured root's, else nothing |
| MediaStore.Resolve | src/media/mod.rs:55-66 | an answer is a visible slot of that hash, and there is one exactly when some such root holds it |
| MediaStore.ResolveOrder | src/media/mod.rs:55-66 | the hinted root comes first, and then the configured ones in order |
| MediaStore.WriteTargetIff | src/media/mod.rs:118-141 | a write goes to a root exactly when it is the first present one with more free space than the margin |
| MediaStore.FirstReady | src/media/mod.rs:118-141 | the first root that is present with free space above the margin, or none exactly when no root is |
| MediaStore.MediaStore.RootsStatus | src/media/mod.rs:202-224 | at most one row is the write target, and it is the root a write would pick; an absent root reports no space |
| MediaStore.MediaStore.Store | src/media/mod.rs:147-163 | dedupe, or write and rename on the first ready root; nothing filed when a write fails |
| MediaStore.MediaStore.Stage | src/media/mod.rs:169-193 | an empty staged file and a live blob on the first ready root, or no change |
| MediaStore.StagedBlob.WriteChunk | src/media/mod.rs:256-264 | hash, file, length and pending error after a chunk, also when the drive takes only part of it or the failure is reported by a later call |
| MediaStore.NamesAreHex | src/media/mod.rs:320-349 | every name the hash gives is 64 lower-case hex digits |
| MediaStore.IsSha256HexIff | src/media/mod.rs:344-349 | the serve route's check accepts exactly the lower-case hex texts of 32 bytes |
| MediaStore.StagedBlob.Commit | src/media/mod.rs:277-307 | dedupe against every visible root, or rename into the slot, and the destructor's clean-up on failure |
| MediaRuns.StepKeeps | src/media/mod.rs:147-317 | every step keeps: each slot hashes to its name, and each live upload's file holds what was hashed |
| MediaRuns.RunKeeps | src/media/mod.rs:147-317 | over any interleaving that invariant holds and no stored file changes or vanishes |
| MediaRuns.ReportedResolves | src/media/mod.rs:55-75 | what a store or commit reported resolves ever after with any hint while its root is present, to bytes of that hash |
| MediaRuns.AlwaysMounted | src/media/mod.rs:147-317 | while every configured root stays present each hash lives on exactly one root |
| MediaRuns.StagingCleanIff | src/media/mod.rs:234-317 | then staging holds only live uploads exactly when every restart found none under way |
| MediaRuns.StagingIsLiveUploads | src/media/mod.rs:234-317 | from an empty store the staged files are then exactly the live uploads, under the same condition |
| MediaRuns.LeakIff | src/media/mod.rs:310-317 | a step leaks a staged file exactly when it ends an upload whose root is absent, or is a restart that finds an upload alive |
| MediaRuns.UnmountLeaks | src/media/mod.rs:310-317 | a concrete run that leaks |
| MediaRuns.LeakStays | src/media/mod.rs:310-317 | a leaked file stays through every later step |
| MediaRuns.SecondCopyIff | src/media/mod.rs:289-306 | a step makes a second copy exactly when it files a hash an absent root holds |
| MediaRuns.UnmountDuplicates | src/media/mod.rs:147-163 | a concrete run that makes a second copy |
| MediaRuns.CommitFilesWhatWasHashedIff | src/media/mod.rs:256-307 | a commit files the very bytes that were hashed exactly when no write was reported to have failed; else it would file strictly fewer |
| MediaRuns.StoredNamesAreHex | src/media/mod.rs:344-349 | every stored file's name passes the serve route's check |
| MediaVariants.DropKeepsSourceIff | src/db/dao/media.rs:542-557 | dropping AVIF rungs keeps the source exactly when it is no AVIF or carries the kept hash |
| MediaVariants.AppendKeepsSourceIff | src/web/features/media_select.rs:105-110 | an append changes the source exactly when a non-AVIF image joins an item that had only AVIFs |
| MediaVariants.SourceImageIff | src/web/features/media_select.rs:105-110 | the source is the first image that is no AVIF, and the first image only when all are AVIFs |
| MediaVariants.SourceIsStable | src/web/features/admin/media.rs:1200-1228 | however many re-derivations overlap, the source stays the same variant |
| MediaVariants.EditedLadder | src/web/features/media_select.rs:116-125 | the variants of known width that are images but not HEIC or HEIF, without the source's bytes, by ascending width and then ascending id |
| MediaVariants.EditedLadderNeverShowsOriginal | src/web/features/media_select.rs:112-125 | after any re-derivations the edited ladder still leaves the original upload out |
| Roles.CaseIsDecode | src/db/dao/roles.rs:59-85 | the SQL CASE is the decoded rank on every stored string, and only NULL is public |
| Roles.AdmitsIff | src/db/dao/roles.rs:37-98 | by stored text: no gate admits everyone, "Registered" any signed-in role, "Family" family and admins, and any other text admins alone; in Rust and in SQL |
| Roles.WriteThenRead | src/db/dao/roles.rs:100-110 | what is stored is the gate the authoring value names, or none for "Public"; any other value leaves who is admitted as it was |
| Roles.MaxRankIsStrictest | src/db/dao/media.rs:621-626 | a viewer reaches the maximum rank exactly when every stored gate admits them |
| Roles.StrictestOwner | src/db/dao/media.rs:611-657 | a viewer passes a shared key's required rank exactly when every owning item's stored gate admits them |
| Listing.VisibleIff | src/db/dao/content_pages.rs:592-643 | a page is shown exactly to whom its stored role admits, once due, or at once if special or to an admin; in the navigation admins wait too |
| Listing.GatesDisagreeIff | src/db/dao/content_pages.rs:607-610 | the SQL gate and the Rust gate differ exactly for a page due later in the current second |
| Listing.ListedHalfASecondEarly | src/db/dao/content_pages.rs:394-402 | a concrete page and clock on which they differ |
| Listing.GatesAgreeAtWholeSeconds | src/db/dao/content_pages.rs:394-402 | at whole-second times they are the same gate |
| Listing.SupersetIff | src/db/dao/content_pages.rs:607-643 | one role sees all another sees, in pages and in the nav, exactly when it stands at least as high on the ladder from anonymous over registered and family to admin |
| StoredDate.TextOrder | src/db/migrations/0005_TableContentPages.sql:9 | the stored texts, compared character by character, order by day; within a day every default before every bound date; only within a day and a format by time |
| StoredDate.WritersKeepInstants | src/db/dao/content_pages.rs:38-136 | saving a page again keeps its instant, and creating one stores the clock's whole seconds |
| StoredDate.MonthStarts | src/db/dao/content_pages.rs:52-53 | the dates of the stored texts follow the Gregorian calendar from 1970 on |
| Listing.NewestFirstIff | src/db/dao/content_pages.rs:465 | the newest-first listing is newest first exactly when no page shown that was saved again shares its day with a later page shown that never was |
| Listing.SavedPageListedFirst | src/db/dao/content_pages.rs:465 | two concrete pages listed in the wrong order |
| Listing.WantedIff | src/db/dao/content_pages.rs:445-464 | a listing holds exactly the parent's children the viewer may see whose name or title, or, unless the search is all hex digits, text it matches |
| Listing.OrderMeans | src/db/dao/content_pages.rs:420-544 | by ascending page order and then id, or by descending date text and then id |
| Listing.ScanOrderIrrelevant | src/db/dao/content_pages.rs:420-544 | a page of rows does not depend on the order of the table scan, under either ordering |
| Listing.Paginate | src/web/features/listing.rs:96-146 | any requested page, negative or huge, clamps to one of the windows, which is empty only when the total is 0 |
| Listing.WindowsArePrefix | src/web/features/listing.rs:106-109 | the first k windows end to end are the first 10k ordered rows |
| Listing.PagesPartition | src/web/features/listing.rs:96-146 | all windows end to end are exactly the visible matching children, each as often as the table has it, in order |
| DnsReconcile.IndexByIp | src/coordinator/dns/cloudflare_client.rs:85-94 | one record id for each listed address, or failure on an unreadable content |
| DnsReconcile.UpdateDns | src/coordinator/dns/cloudflare_client.rs:77-123 | wherever a pass is cut short no wanted address loses a record and none is deleted before all wanted are present; a finished pass adds each missing address and removes one record of each stale one |
| DnsReconcile.Reconcile | src/coordinator/dns_provider_service.rs:54-76 | after k wake-ups every address's record count is known, and the published set is the wanted one exactly when that is all IPv4, no stale address had more than k records and, for k = 0, nothing was missing; an unreadable record stops all change |
| DnsReconcile.V6NeverConverges | src/coordinator/dns/cloudflare_client.rs:80-99 | with an IPv6 address wanted the published set never matches, and each wake-up adds another record for it |
| DnsReconcile.ReconcileRefused | src/coordinator/dns/cloudflare_client.rs:111-123 | if the service refuses the second record of a wanted IPv6 address, no wake-up ever deletes a record or settles |
| DnsValidator.ExistsStepIff | src/coordinator/dns/dns_validator.rs:42-55 | done exactly when the records found are the expected ones, as multisets |
| DnsValidator.EnsureExists | src/coordinator/dns/dns_validator.rs:95-129 | ends at the first lookup that fails, satisfies it or comes after the deadline, within 71 lookups |
| DnsValidator.EnsureNotExisting | src/coordinator/dns/dns_validator.rs:131-155 | the same for the absence of records |
| DnsValidator.EndingUnique | src/coordinator/dns/dns_validator.rs:95-155 | a wait has one ending, at one lookup |
| DnsValidator.FiveMinutes | src/coordinator/dns/dns_validator.rs:11-16 | every lookup but the last was done within five minutes, and one that ends by timing out was not |
| DnsValidator.Bounded | src/coordinator/dns/dns_validator.rs:118-127 | however long lookups and sleeps take, no 72nd lookup is made |
| DnsValidator.BoundReached | src/coordinator/dns/dns_validator.rs:11-16 | the 71st is made when nothing appears and lookups take no time |
| RequestLog.IsBotIff | src/db/dao/request_log.rs:145-160 | a request with no agent or an empty one is a bot's, and a named agent is a bot exactly when some piece of it is a marker, letter case aside |
| RequestLog.RequestLog.ReclassifyBots | src/db/dao/request_log.rs:872-917 | the bulk updates equal classifying every targeted row on its own, null agents included, and the count is the number of targeted rows |
| RequestLog.AudienceSplits | src/db/dao/request_log.rs:389-408 | humans and bots make up a window exactly when none of its rows is unclassified |
| RequestLog.AudienceMeans | src/db/dao/request_log.rs:389-408 | the counts are the window's rows, end excluded, those flagged as no bot, and those flagged as a bot |
| RequestLog.AfterReclassify | src/db/dao/request_log.rs:872-917 | afterwards every window splits, a further backfill would update nothing, and a further run changes no row |
| RequestLog.ChallengedStaysBotIff | src/db/dao/request_log.rs:899-911 | challenged rows stay bots exactly on a backfill or when their own agents say so |
| RequestLog.RecomputeForgetsToll | src/db/dao/request_log.rs:899-911 | a concrete challenged row that a recompute counts as human |
| Sorting.OrderIsUnique | src/db/dao/content_pages.rs:468-469 | without ties only one sequence of given rows is in order |
| Sorting.SortIsStable | src/web/features/media_select.rs:119-124 | entries that tie keep the order they came in |

## Left out

- TollProtocol.VisitToll: assumes that two images with one version tag have one digest, since the tag is six bytes of
  a hash.
- DeadLinkScan.RunScan: the checker answers the same for a URL whenever it is asked within a pass, and `record` is
  atomic; its read and its write are separate statements, so a concurrent ignore could be overwritten. A failed page
  walk ends a pass before anything is written, and is not modelled.
- Sweep.RunOnce: atomic but for its own clock readings; a failed first query, which changes nothing, is no step; a
  timed and a manual pass overlapping, or a pin landing between the query for active rows and the refresh, is not
  modelled.
- MediaStore.MediaStore.Store: two simultaneous in-memory stores of the same bytes share one temporary name and are
  taken one after the other.
- MediaStore.StagedBlob.Commit: one step; two commits of the same bytes on two drives that overlap inside it could
  both file a copy. Creating shard directories never fails and never makes an absent root look present.
- Listing.NewestFirstIff: publish dates in the years 0 to 9999; others, stored with a signed year that SQLite's date
  functions do not read, are outside the model of the listings.
- Listing.Paginate: the count and the fetch read one clock; a page that falls due between them may shift a window.
- Detection.BuildFeatures: the counts are unbounded, not 64-bit, and the address parser is an input.
- DnsReconcile.Reconcile: no other writer, no failing call, and records visible to the resolver by the next wake-up.
- Greylist.GreylistTable.Upsert: the evidence is kept as the feature counts its text is formatted from; row ids and
  creation and update times are not kept.
- ChallengeWorker.WorkerImageDigest: the progress callback and the solve time are not modelled.
- SHA-256 and HMAC as implemented by the Rust crates: they are taken to be the standards' functions. Collisions,
  unforgeability and constant-time comparison are not claims here.
- Cookie attributes, redirect validation, the image endpoint, and the solve log.
- Request-log retention, the analytics aggregates, and clearance history.
- HTTP checking and in-site link resolution: their verdicts are inputs. URL parsing, markdown link extraction and the
  politeness delay are inputs or omitted.
- The single re-check of one URL: it is one more `record`, which `LinkCheck.TableKeepsLaw` covers.
- Links between listing pages and their query strings.
- Variant negotiation by format or Accept header, HEIC conversion, resizing and encoding.
- SQL text, connection handling, migrations, sessions, certificates, rendering and all other browser scripts.
