# Verified model of the ZD1200 toolkit

This project models the parts of the repository where state, arithmetic and file
formats meet, and proves what they are meant to guarantee:

- the **masked patch engine** that edits vendor binaries: pattern parsing, the anchored
  search, the three phases of a run (resolve, write in place, recheck) and relocated jumps;
- the **BL7 image container**: parsing, rebuilding, signature removal, and the Internet
  checksum of RFC 1071 as two different programs compute it;
- the **TAC stream**: the chained XOR decryption in chunks, its inverse and the padding;
- the **daily ping-history file**: the C exporter (layout, matrices, latency codebook,
  airtime rates), the browser's parser and the chart that is built from parsed days;
- the **collector and publication steps**: one round of parallel probes, the daily file
  rollover, the snapshot index with its bundles, and the browser's bundle parser.

Code that works by steps is written as steps: methods with loops over arrays and byte
buffers, and two classes whose methods are the shell scripts' file operations. Each method
is proved equal to a specification function, and the theorems are about those functions.
For each main operation one theorem says what its result is in terms of the files, bytes
or rows alone, without the functions that the code and its specification share.
The two file stores keep a log of single operations, and their state is always the replay
of that log, so "stopped between any two operations" is a statement about its prefixes.

## Modules

| module | models |
|---|---|
| `Wrappers`, `Bytes` | optional values, results, fixed-width fields, slice assignment |
| `MaskedPattern`, `PatchEngine`, `PatchTheorems`, `PatchRules` | `patch_binary_artifact.py` |
| `InternetChecksum`, `Bl7`, `Bl7Layout` | `ruckus_bl7.py`, `icmp_checksum` |
| `Tac` | `ruckus_tac_decrypt.py` |
| `Codebook`, `Airtime`, `MacAddress`, `DayFile` | `analytics/zd1200-ping-export.c` |
| `DayParser`, `DayFields`, `DayRoundTrip`, `History`, `HistoryBytes`, `HistoryTheorems`, `HistorySums`, `HistoryCells`, `ChartOfExports`, `ExportedCells` | `analytics/ping-monitor-worker.js` and both ends together |
| `PingPacket`, `PingRound` | `parallel_ping` of `analytics/zd1200-ping-monitor.c` and its echo packets |
| `DailyPublish`, `DailyLog`, `DailyStore` | `analytics/ping-daily-publish.sh` |
| `SnapshotBundle`, `SnapshotText`, `SnapshotIndex`, `SnapshotReader`, `SnapshotAdd`, `SnapshotLog`, `SnapshotHistory`, `SnapshotPhases`, `SnapshotRuns`, `SnapshotStore` | `analytics/snapshot-index-publish.sh` and the snapshot reader of `analytics/ping-monitor.html` |

`dafny verify dfyconfig.toml` checks the whole project.

## Where the code falls short of what it seems to promise

Each of these is proved with its exact condition:

- A second patch run is not always a no-op. The final check of a validation rule does not
  repeat the test of its expected bytes, so another rule may overwrite them:
  `PatchTheorems.ValidationRuleBreaksIdempotence` gives two rules for which the second run
  refuses, and `PatchTheorems.IdempotentExactly` says exactly when it does not.
- The catalog calls its pattern grammar a duplicate of the engine's. The engine also takes
  signed tokens such as `+a` and decimal digits outside ASCII; `MaskedPattern.EngineTakesMore`
  gives a text of each kind, and `MaskedPattern.CatalogGrammar` proves that this is the
  whole difference.
- The last day before the 32-bit clock ends is exported without an error, but its end
  wraps and the browser rejects the file: `DayRoundTrip.LastDayIsRefused` at that day. Two
  targets with one address, which the tables allow for an access point and a client, are
  exported and rejected too: `DayRoundTrip.SameAddressIsRefused`. These are all the cases
  (`DayRoundTrip.AcceptedExactly`).
- A stop between the two renames of the daily publication leaves a current file that is
  not of the marker's day, and a later run may file it under the wrong date
  (`DailyPublish.StopBetweenRenames`, `DailyPublish.RunAfterUnsafeStop`). Over any runs
  stopped anywhere, `DailyLog.GoodExactly` says when the files are good. With completed
  publications after the stop, the wrong file lasts until the marker's day expires
  (`DailyPublish.GoodReturns`).
- The first backfill can give the current day a dated file as well, until the next
  publication: `DailyPublish.BackfillDatesCurrentDay` is such a run, and
  `DailyPublish.RunsKeepPeriodsDisjoint` says when it happens. The collector publishes
  right after it backfills (`boot-initrd-handoff` 1154-1158), so there the overlap does not last.
- From a clean state, with the new time's documents in place, a stop of the snapshot
  script's `add` leaves a published time unreadable exactly when it comes after the first
  removal of a bundled day's captures and before that day is published again
  (`SnapshotStore.Store.Add`). Every document is kept, but the index points readers at
  captures that are gone. Later completed runs leave it so exactly while
  they neither add to that day nor cut or expire it (`SnapshotReader.StopBeforePublishLasts`).
  Over any runs stopped anywhere, a published time is unreadable exactly when one of its
  captures was removed and its day still awaits publication (`SnapshotLog.ReadableExactly`),
  late or damaged documents aside.
- A stop while a day expires, after its timestamps are removed, orphans its published index
  and bundle, and they stay exactly until a time of that day is added
  (`SnapshotReader.StopInExpiryOrphans`, `SnapshotReader.OrphansStay`; over any runs,
  `SnapshotLog.OrphansExactly`).
- A timestamp added to a day that already has a bundle is kept but not readable
  (`SnapshotReader.CompletedAddKeepsReadable` has the exact condition). A timestamp is
  accepted without its documents; they are then the only ones that can be missing
  (`SnapshotLog.KeptUnlessAbsent`).

## Model

| member | source | states |
|---|---|---|
| MaskedPattern.ParseMaskedHex | patch_binary_artifact.py:134-157 | the loop accepts exactly the texts whose compact form is non-empty, even and all tokens of the built-in conversion (signs and decimal digits of any script included), with the error of the first failing test, and yields every byte and its exactness |
| MaskedPattern.TokenExactly | patch_binary_artifact.py:151-156 | a token has a value iff it is two digits, a digit behind `+` or a zero behind `-`, and then that value |
| MaskedPattern.ParseSpellRoundTrip | patch_binary_artifact.py:134-157 | every non-empty pattern is recovered from its catalog spelling |
| MaskedPattern.CatalogGrammar | binary_patch_catalog.py:62-77 | the catalog accepts a text iff the engine's parser does and it has neither a sign nor a digit outside ASCII |
| MaskedPattern.EngineTakesMore | patch_binary_artifact.py:151-156 | the engine reads `+a` as 0x0a and two fullwidth digits as 0x12; the catalog refuses both |
| MaskedPattern.LongestExactAnchor | patch_binary_artifact.py:179-193 | the anchor is a run of exact bytes, no exact run is longer, and it is the first of that length |
| MaskedPattern.HitsExact | patch_binary_artifact.py:169-176 | the reference scan is strictly ascending and contains an offset iff the pattern matches there |
| MaskedPattern.FindMasked | patch_binary_artifact.py:196-211 | the result is ascending and contains exactly the offsets where the pattern matches |
| MaskedPattern.OverlayPattern | patch_binary_artifact.py:214-233 | the in-place overlay of both arrays gives the patched signature, or the error when the replacement lies outside |
| MaskedPattern.OverlayDescribesWrite | patch_binary_artifact.py:214-244 | after rendering bytes at a hit of a signature, the place is a hit of the overlaid signature iff the written bytes are those the replacement text fixes |
| PatchEngine.ResolveRule | patch_binary_artifact.py:268-334 | one rule against the pristine bytes: state, site, replacement and each error in the source's order |
| PatchEngine.CheckOverlaps | patch_binary_artifact.py:336-347 | the range list rejects exactly a write window that meets an earlier one, at the first such rule |
| PatchEngine.WriteResolved | patch_binary_artifact.py:349-369 | the in-place slice writes and the changed flag, rule by rule |
| PatchEngine.RecheckRule | patch_binary_artifact.py:371-389 | the final check of one rule, on the patched bytes |
| PatchEngine.ApplyRules | patch_binary_artifact.py:247-391 | the whole run equals the phase-by-phase specification that the theorems are about |
| PatchRules.ResolvesExactly | patch_binary_artifact.py:268-334 | a rule's outcome in terms of its texts and the bytes: it is to be written at `k` iff the lengths fit and are equal, `k` is the only hit of the signature, no place is patched already, the expected bytes stand at its offset, and a relocated jump is five bytes from 0xE9 with an exit jump within the signature; likewise iff for an already patched rule and for one without replacement; anything else is a value error that names the rule |
| PatchRules.RefusalIsJustified | patch_binary_artifact.py:268-329 | the reason that a refusal gives is true of the rule and the bytes |
| PatchRules.RechecksExactly | patch_binary_artifact.py:371-389 | the final check passes iff the signature is there once, or is gone and one place is patched; otherwise it is an assertion |
| PatchTheorems.WriteAllMeaning | patch_binary_artifact.py:349-369 | with disjoint windows, sequential in-place writes give each window its own rendered bytes and leave the rest, and the flag is true iff some byte changed |
| PatchTheorems.RunMeaning | patch_binary_artifact.py:247-391 | a run returns given bytes and flag iff one artifact, all rules resolve on the pristine source, windows disjoint, bytes are the pristine ones with each window's replacement, all rechecks pass, and flag iff changed |
| PatchTheorems.FailureClass | patch_binary_artifact.py:247-391 | a failing run raises an assertion error iff it got past resolution and the overlap test |
| PatchTheorems.OrderDoesNotMatter | patch_binary_artifact.py:247-391 | any permutation of the rules gives the same bytes and flag, or fails with the same exception class |
| PatchTheorems.IdempotentExactly | patch_binary_artifact.py:371-391 | a second run returns the same bytes unchanged iff every validation rule's expected bytes still stand at its hit; otherwise it raises a value error |
| PatchTheorems.Idempotent | patch_binary_artifact.py:247-391 | when validation signatures require their expected bytes, any number of interacting rules is idempotent |
| PatchTheorems.ValidationRuleBreaksIdempotence | patch_binary_artifact.py:374-378 | there are rules and bytes whose first run succeeds and whose second run fails |
| PatchTheorems.Frame | patch_binary_artifact.py:349-369 | length is kept, the flag is exact, and a changed byte lies in the window of a writing rule at a non-wildcard replacement byte |
| PatchTheorems.EachWindowHoldsItsReplacement | patch_binary_artifact.py:236-244 | every unpatched rule's window ends as its replacement rendered over the pristine bytes, whatever the other rules |
| PatchTheorems.JumpKeepsItsTarget | patch_binary_artifact.py:316-333 | after a successful run a relocating rule's site holds a jump that lands, modulo 2^32, where the original exit jump went; the landing is the same number iff the distance from the end of the new jump fits 32 signed bits |
| PatchTheorems.PatchedHitAppears | patch_binary_artifact.py:371-389 | when no other rule writes inside a rule's signature, the final check finds its patched signature at its site iff the written bytes are those its text fixes: always for a plain rule, and for a relocated jump unless the text fixes another displacement |
| InternetChecksum.InternetChecksumOf | ruckus_bl7.py:25-35 | folding after every word gives the complement of the one's complement value of the plain word sum, for every length |
| InternetChecksum.OneMoreByte | ruckus_bl7.py:27-31 | a byte at an even position adds 256 times its value to the plain sum and one at an odd position its value; the other way round in the collector's sum |
| InternetChecksum.FoldAfterWord | ruckus_bl7.py:31-34 | one fold after adding a word is end-around addition within 16 bits, so the trailing loop never runs |
| InternetChecksum.IcmpChecksum | analytics/zd1200-ping-monitor.c:452-458 | the little-endian, deferred-fold checksum of the wrapped 32-bit sum |
| InternetChecksum.SwapValue | analytics/zd1200-ping-monitor.c:452-458 | reading the words in the other byte order swaps the bytes of the value (section 2 (B) of RFC 1071) |
| InternetChecksum.SameBytesExactly | analytics/zd1200-ping-monitor.c:452-458 | both programs store the same two bytes iff the carries lost above 32 bits do not change the value |
| InternetChecksum.SameBytesWhenShort | analytics/zd1200-ping-monitor.c:452-458 | so they agree on all data of up to 131074 bytes |
| Bl7.Parse | ruckus_bl7.py:71-99 | the parser's tests in order, with the checksum field zeroed in a local copy |
| Bl7.ParseExactly | ruckus_bl7.py:71-99 | an image is the parse of a file iff the file starts with header, kernel, padding and rootfs, the header describes that payload, and the kernel is the padded kernel stripped of 0xFF |
| Bl7Layout.ParsesExactly | ruckus_bl7.py:71-99 | a file is accepted iff it starts with 160 header bytes of magic, length, type 0, offsets that fit, the payload's digest and the header's checksum, and is then cut at these offsets |
| Bl7.Rebuild | ruckus_bl7.py:53-68 | page padding, new payload and refreshed header, or the error for signed images and fields over 32 bits |
| Bl7Layout.RebuildsExactly | ruckus_bl7.py:53-68 | rebuilding succeeds iff the type is 0 and the lengths fit 32 bits; it writes kernel, bytes 0xFF up to a multiple of 65536, and rootfs, and changes no header byte but offset, length, digest and checksum |
| Bl7.RebuildParses | ruckus_bl7.py:53-99 | rebuilding with any kernel and rootfs that fit parses again, to that rootfs, the kernel less trailing 0xFF, and a page-aligned rootfs |
| Bl7.RebuildIsIdentityExactly | ruckus_bl7.py:53-99 | rebuilding a parsed file reproduces it iff its rootfs is page aligned, its padding is under a page and nothing trails |
| Bl7.RebuildIsIdempotent | ruckus_bl7.py:53-99 | parse and rebuild twice is parse and rebuild once |
| Bl7.SignedToUi | ruckus_bl7.py:102-132 | the conversion's tests in order and its result |
| Bl7Layout.UnsignsExactly | ruckus_bl7.py:102-132 | the conversion succeeds iff the image is well formed, of type 1 or 2, and has bytes behind its payload |
| Bl7.UnsignedParses | ruckus_bl7.py:102-132 | a converted image parses, its payload is byte-identical and only bytes 0x84-0x87 and 0x2A-0x2B of the header differ |
| Tac.DecryptChunk | ruckus_tac_decrypt.py:48-53 | one chunk word by word in its output buffer, with the chain it leaves |
| Tac.DecryptsExactly | ruckus_tac_decrypt.py:28-53 | each plain byte is its cipher byte combined with the cipher byte eight places before it, a byte of the initial value and, in every second word, a byte of the flip value |
| Tac.DecryptReads | ruckus_tac_decrypt.py:42-55 | over any reads the bytes written are the decryption of the aligned reads before the first misaligned one, across chunk borders |
| Tac.DecryptStream | ruckus_tac_decrypt.py:34-55 | for every chunk size of at least eight the stream fails iff the input length is no multiple of eight, having written the decryption of its full reads; otherwise the output depends only on the input |
| Tac.DecryptEncrypt | tests/test_patch_binary_artifact.py:277-291 | decryption inverts the chained encryption on word-aligned data |
| Tac.EncryptDecrypt | tests/test_patch_binary_artifact.py:277-291 | the chained encryption inverts decryption on word-aligned data |
| Tac.DecryptFile | ruckus_tac_decrypt.py:68-104 | the destination is replaced by the stripped plain bytes on success and untouched on failure, two equal paths included |
| Tac.StripsExactly | ruckus_tac_decrypt.py:83-91 | the low nibble of the last byte is the number of bytes removed, and an error if it exceeds the length |
| Tac.PaddedRoundTrip | ruckus_tac_decrypt.py:83-96 | pad to a word, count in the low nibble, encrypt, decrypt and strip gives the payload back |
| Codebook.EntriesIncrease | analytics/zd1200-ping-export.c:96-98 | the rounded geometric entries strictly increase across the linear and geometric parts |
| Codebook.MakeCodebook | analytics/zd1200-ping-export.c:94-99 | the loops build 254 strictly increasing values from 1 to 2000: 1 to 101, and then the powers of the exact ratio times 101, rounded half up |
| Codebook.EncodeLatency | analytics/zd1200-ping-export.c:101-110 | the bisection returns a code in 1..254 nearest to the clamped input, the lower one on a tie |
| Codebook.EncodeIsMonotone | analytics/zd1200-ping-export.c:101-110 | codes keep the order of latencies |
| Codebook.EncodeIsExact | analytics/zd1200-ping-export.c:101-110 | every codebook value is encoded by its own code |
| Codebook.ShortLatenciesAreExact | analytics/zd1200-ping-export.c:94-110 | latencies of 1 to 101 ms survive encoding and decoding |
| Airtime.PublishRates | analytics/zd1200-ping-export.c:271-292 | the loop over polls with its base, reset, held and delta branches |
| Airtime.RateOfPoll | analytics/zd1200-ping-export.c:271-292 | in terms of the rows: the first poll, and one whose sample count fell, publish the rounded quotient of their own counters; one with the same count repeats the poll before it; any other publishes that of its growth since the count before it was first seen |
| Airtime.HeldPollsAreInvisible | analytics/zd1200-ping-export.c:282-283 | removing any held polls changes no other published rate nor the final base |
| Airtime.HeldRepeatsLast | analytics/zd1200-ping-export.c:282-283 | a poll whose sample count equals its base's repeats the last rate published before it, which exists |
| Airtime.RatesAccountForGrowth | analytics/zd1200-ping-export.c:258-292 | over any polls, resets included, rates times sample deltas account for the counter growth to within half the samples |
| Airtime.WindowIsAccounted | analytics/zd1200-ping-export.c:258-292 | in a reset-free window with non-decreasing totals the weighted rates differ from the final total by at most half the final sample count |
| MacAddress.ParseMac | analytics/zd1200-ping-export.c:47-59 | accepts exactly six colon-separated hexadecimal pairs and yields their values |
| MacAddress.CanonicalIsLower | analytics/zd1200-ping-export.c:56-57 | the canonical text of a parsed address is its lower-case spelling |
| MacAddress.MacTextReadsBack | analytics/zd1200-ping-export.c:47-59 | the canonical text of any six bytes is an address that reads back as those bytes |
| DayFile.SnrCode | analytics/zd1200-ping-export.c:165-167 | codes 1..101, naming the whole decibel in 0..100 nearest to the value |
| DayFile.PercentCode | analytics/zd1200-ping-export.c:169-171 | codes 1..101; within range the code is within half a percent of the value, outside it is an end |
| DayFile.FindRound | analytics/zd1200-ping-export.c:112-118 | the bisection finds a timestamp's position or that there is none |
| DayFile.FillRowBuffer | analytics/zd1200-ping-export.c:222-231 | the reused buffer, cleared and filled from the query rows |
| DayFile.FillRowMeaning | analytics/zd1200-ping-export.c:222-231 | a cell holds the code of the last row that writes its round, or zero without one |
| DayFile.LayoutAscends | analytics/zd1200-ping-export.c:187-206 | offsets ascend, so no section is laid over another and the 32-bit tests reject iff the end does not fit |
| DayFile.ExportDay | analytics/zd1200-ping-export.c:178-309 | the exporter emits exactly the sections of the file, or fails iff some offset needs more than 32 bits |
| ExportedCells.TargetCellShowsRow | analytics/zd1200-ping-export.c:222-252 | in a parsed export the sample byte of a round is in 1..254 and names a nearest entry iff the round's last row answered, 255 iff it is a timeout, and else 0; the state byte is 2 iff not associated, 1 iff in another known state, and else 0; both are 0 without a row |
| ExportedCells.TargetCellShowsSignal | analytics/zd1200-ping-export.c:234-243 | the signal byte is one more than the nearest whole decibel in 0..100 of the round's last row with a signal, or 0 |
| ExportedCells.ApCellShowsRate | analytics/zd1200-ping-export.c:271-292 | an airtime byte names the whole percents, rounded half up within 0..100, of the last rate published in the round for its band, or is 0 |
| ExportedCells.ApCellShowsMesh | analytics/zd1200-ping-export.c:293-306 | a mesh byte is one more than the nearest whole decibel in 0..100 of the round's last mesh reading, or 0 |
| DayRoundTrip.SectionsStartAtOffsets | analytics/zd1200-ping-export.c:187-218 | every section starts at its declared offset and the total is the declared end |
| DayRoundTrip.FileSections | analytics/zd1200-ping-export.c:207-306 | the emitted bytes hold each header field, list and matrix at its offset and are exactly as long as declared |
| ExportedCells.ExportedHeader | analytics/zd1200-ping-export.c:207-218 | the header of an accepted export is of the second format and names day, counts, timeout 2000 and the last round |
| DayParser.FrameInBounds | analytics/ping-monitor-worker.js:12-28 | the parser's tests keep every later read inside the buffer, for any bytes |
| DayParser.ParseDay | analytics/ping-monitor-worker.js:10-38 | the loops with their running previous values accept iff codebook, timestamps and address lists strictly ascend in bounds |
| DayFields.ParsesExactly | analytics/ping-monitor-worker.js:10-38 | in terms of the bytes, a file of either format is accepted iff it has the magic, header size, flags and day length of its format, sections that follow each other and fill it, and strictly ascending codes, times and addresses within their limits; the parsed lists are those in the file |
| DayFields.TextLessExactly | analytics/ping-monitor-worker.js:34-37 | addresses are compared as JavaScript compares strings: by the first difference, a prefix first |
| DayRoundTrip.ExportParseRoundTrip | analytics/ping-monitor-worker.js:10-38 | the parser accepts an exported file iff the day's end fits 32 bits and the address lists ascend, and then yields the exported frame, codebook, timestamps and addresses |
| DayRoundTrip.LastDayIsRefused | analytics/zd1200-ping-export.c:180 | the day starting at 4294944000 is exported and its file refused |
| DayRoundTrip.AcceptedExactly | analytics/zd1200-ping-export.c:124-160 | for rows in the order of the queries the file is accepted iff the day's end fits 32 bits and no address is in a list twice |
| DayRoundTrip.SameAddressIsRefused | analytics/zd1200-ping-export.c:127-142 | a day with any one address on two targets is exported and its file refused |
| DayRoundTrip.AscendingIsDistinct | analytics/zd1200-ping-export.c:131-136 | for lists in query order, ascending only asks for distinct addresses |
| DayRoundTrip.TargetCellsReadBack | analytics/zd1200-ping-export.c:222-252 | every latency, SNR and state cell of the file is the one filled from the target's rows |
| DayRoundTrip.ApCellsReadBack | analytics/zd1200-ping-export.c:271-306 | every airtime and mesh cell of the file is the one filled from the access point's rows |
| History.CellIsExact | analytics/ping-monitor-worker.js:63-65 | an in-range time has an in-bounds cell, shared only by the same target and bucket |
| HistoryBytes.LandsExactly | analytics/ping-monitor-worker.js:58-63 | a matrix position is added to a target's bucket iff the target is the last with its address and the time is in the range and within the bucket's seconds |
| HistoryBytes.BucketsCover | analytics/ping-monitor-worker.js:52 | there are just enough buckets for the range |
| History.ObservationsInside | analytics/ping-monitor-worker.js:58-81 | every observation of every file lands in a cell of the chart |
| History.BuildHistory | analytics/ping-monitor-worker.js:50-83 | the nested loops over files, sources and rounds update the shared arrays by all observations in order |
| HistoryTheorems.ChartShowsTotals | analytics/ping-monitor-worker.js:50-83 | every chart cell shows the unbounded totals of the observations in it, each modulo the width of its typed array |
| HistoryCells.ChartCell | analytics/ping-monitor-worker.js:50-83 | every array at a target's bucket in terms of the parsed files' bytes: counts of the landing positions, sums and extremes of the codebook entries, decibels and percents that they name, and the time of the last associated one |
| HistoryTheorems.TotalsAreCounts | analytics/ping-monitor-worker.js:60-69 | a station counter of a target's bucket is the number of (file, source, round) positions that land in it and whose bytes count |
| HistorySums.TotalsAreSums | analytics/ping-monitor-worker.js:60-79 | latency, SNR and airtime sums and the airtime count of a target's bucket are sums of what the bytes at the positions that land in it stand for; a sample byte `b` in 1..254 stands for entry `b - 1` of the file's codebook |
| HistorySums.ExtremesAreReadings | analytics/ping-monitor-worker.js:60-79 | the latency maximum and both SNR minima bound every reading that the landing bytes stand for, and are one of them unless there are none |
| HistoryTheorems.TotalsIgnoreOrder | analytics/ping-monitor-worker.js:58-81 | the totals depend only on the multiset of files |
| HistoryTheorems.ChartIgnoresFileOrder | analytics/ping-monitor-worker.js:58-81 | every array except `associatedAt` is the same for any order of the files |
| HistoryTheorems.ChartCountersOrdered | analytics/ping-monitor-worker.js:66-67 | replies <= attempts <= associated <= known when attempts are only recorded for associated rounds |
| ChartOfExports.ParsedCells | analytics/ping-monitor-worker.js:62-68 | the bytes the aggregation reads for a target are the exporter's filled rows |
| ChartOfExports.ParsedApCells | analytics/ping-monitor-worker.js:73-76 | the same for airtime in either band and mesh |
| ChartOfExports.ExportedAttemptsAreAssociated | analytics/zd1200-ping-export.c:227-248 | in an exported file every attempt belongs to an associated round |
| ChartOfExports.ExportedChartOrdered | analytics/ping-monitor-worker.js:50-83 | charts of exported files keep the counter order in every cell with fewer than 65536 known rounds |
| ExportedCells.ExportedLatencies | analytics/ping-monitor-worker.js:67 | in charts of exported files the latency maximum of a cell is the highest entry nearest to the latency of an answered row that lands there, 0 without replies, and equal to the sum for one reply |
| PingRound.Loaded | analytics/zd1200-ping-monitor.c:511-532 | a loaded target is unanswered and consistent, and pingable iff it has an address and a client is named by a valid list |
| PingRound.LoadedShows | analytics/zd1200-ping-monitor.c:511-532 | it shows 1000 ms; not associated iff a valid list does not name the client, a timeout if pingable, and else unknown |
| PingPacket.BuildRequest | analytics/zd1200-ping-monitor.c:475-479 | the packet sent for an index carries the standard checksum: its 16 bytes never lose a carry |
| PingPacket.RequestExactly | analytics/zd1200-ping-monitor.c:475-479 | its bytes are an echo request, identifier, sequence number, "ZD12" and index, and its words add up to 0xFFFF as RFC 1071 asks |
| PingPacket.ReadDatagram | analytics/zd1200-ping-monitor.c:492-497 | a datagram names an index iff it has 36 bytes, room for 16 behind the header that its low nibble gives, and there an echo reply, the identifier and "ZD12"; the index is the last four bytes |
| PingPacket.ReplyIsRecognized | analytics/zd1200-ping-monitor.c:475-499 | a reply that echoes a request behind any IP header is recognized by its sender alone and names the request's index |
| PingRound.SendBatch | analytics/zd1200-ping-monitor.c:473-484 | each position of a batch is probed once, `pending` is the number of accepted sends, and the deadline is one second after the last of them |
| PingRound.HandleDatagram | analytics/zd1200-ping-monitor.c:497-503 | a datagram changes exactly the unanswered item of the batch that it answers, and nothing otherwise |
| PingRound.FirstAnswerIsFirst | analytics/zd1200-ping-monitor.c:499 | an item's answer is that of the first datagram that answers its probe |
| PingRound.LaterDatagramsChangeNothing | analytics/zd1200-ping-monitor.c:499 | after it, no duplicate or late reply changes the item |
| PingRound.OutcomeExactly | analytics/zd1200-ping-monitor.c:482-503 | a probe shows ok and the time to its first answering datagram, within 0 and 1000 ms, or a timeout of 1000 ms without one |
| PingRound.AwaitBatch | analytics/zd1200-ping-monitor.c:485-506 | the loop takes the polls up to the first at which nothing is pending, the deadline has passed or nothing came; items are then their outcomes and `pending` the accepted sends less the answers |
| PingRound.ParallelPing | analytics/zd1200-ping-monitor.c:462-509 | batches of 512 probe each pingable target exactly once, wait until the batch's deadline or its last answer, and end with each target's outcome on the polls of its batch; all other items are untouched |
| PingRound.RoundIsConsistent | analytics/zd1200-ping-monitor.c:462-509 | responded means state ok and an RTT in 0..1000, unresponded means not ok and RTT 1000 |
| DailyPublish.RunsStayGood | analytics/ping-daily-publish.sh:25-112 | over any completed publish and backfill runs, at any times, the current file is of the marker's day and every dated file of its own day |
| DailyPublish.PublishExactly | analytics/ping-daily-publish.sh:16-18 | current file and marker are of the UTC day, the multiple of 86400 within a day below the time; another marker's day is dated, and exactly the dated files from more than thirty days before that day are gone |
| DailyPublish.BackfillExactly | analytics/ping-daily-publish.sh:25-53 | the first backfill leaves each of the thirty UTC days before the current one dated iff it holds observations, and the rest alone; a later one does nothing |
| DailyPublish.RunsKeepPeriodsDisjoint | analytics/ping-daily-publish.sh:25-103 | with a clock that never runs back, no dated file repeats or follows the current day after any publish and backfill runs iff the installation's first backfill did not come after the last publication and reach that publication's day |
| DailyPublish.BackfillDatesCurrentDay | analytics/ping-daily-publish.sh:28-53 | publishing day 0 and backfilling at the start of day 1 leaves day 0 both current and dated |
| DailyPublish.FilledDays | analytics/ping-daily-publish.sh:29-50 | a visited day is dated afterwards iff it holds observations; other days are left alone |
| DailyPublish.PublishedDaysAccumulate | analytics/ping-daily-publish.sh:67-103 | a day has a dated file after any publications iff it had one, was the marker's or was published since, lies before the current day and has not expired |
| DailyPublish.StopBetweenRenames | analytics/ping-daily-publish.sh:90-91 | a stop between the two renames is harmless iff the day did not change |
| DailyPublish.RunAfterUnsafeStop | analytics/ping-daily-publish.sh:67-103 | the next completed run leaves good files iff there was no rollover, or it is still the marker's day, or that day has expired |
| DailyPublish.GoodReturns | analytics/ping-daily-publish.sh:67-103 | after such a stop and completed publications by a clock that never runs back, one file alone is wrong, the one of the day whose marker was left behind, and the files are good again iff that day has expired |
| DailyLog.GoodExactly | analytics/ping-daily-publish.sh:25-103 | over any publish and backfill runs, each stopped anywhere, the files are good iff no replaced current file still awaits its marker and no day holds a file renamed to it while one did |
| DailyLog.RenamesExactly | analytics/ping-daily-publish.sh:60-69 | a publication renames the current file iff the marker is of another UTC day |
| DailyStore.DailyFiles.Publish | analytics/ping-daily-publish.sh:60-103 | from any files the run's operations are the rollover, the two writes and the expiries; current file and marker are of the UTC day and a rename happens iff the marker was of another; from good files, a stop anywhere but between the renames of the current file and the marker leaves good files |
| DailyStore.DailyFiles.RemoveExpired | analytics/ping-daily-publish.sh:93-103 | exactly the dated files from before the cutoff go, each once in any order; from good files, stopped anywhere |
| DailyStore.DailyFiles.Backfill | analytics/ping-daily-publish.sh:25-53 | each retained day is written once if it holds observations and removed otherwise, and never again once marked; from good files stopping anywhere is harmless |
| DailyStore.DailyFiles.RunAll | analytics/ping-daily-publish.sh:25-112 | the log of any sequence of runs is what each did up to its stop, from where those before it led, and `DailyLog.GoodExactly` decides whether the files are good |
| SnapshotBundle.ParseBundle | analytics/ping-monitor.html:67 | the loop over the bytes ends, because its offset grows, with the specified map or error |
| SnapshotText.AcceptsExactly | analytics/ping-monitor.html:67 | a bundle is accepted iff it is the line "ZDSNAPSHOT1" and records of a time, a kind and a size in digits, as many bytes and a newline; each key keeps its last body |
| SnapshotText.WritesExactly | analytics/snapshot-index-publish.sh:75-86 | what is written of a capture is such a record, its time and size without leading zeros |
| SnapshotBundle.StreamReadsBack | analytics/snapshot-index-publish.sh:75-86 | the parser accepts every framed stream, and each key keeps its last body |
| SnapshotBundle.BundleRoundTrip | analytics/snapshot-index-publish.sh:75-86 | for distinct keys the parser returns exactly the framed bodies |
| SnapshotIndex.BundleHoldsCaptures | analytics/snapshot-index-publish.sh:75-86 | a built bundle holds every capture of every listed time of its day |
| SnapshotStore.Store.PublishDay | analytics/snapshot-index-publish.sh:18-32 | the day's published index mirrors its times and whether a bundle is there |
| SnapshotStore.Store.CheckComplete | analytics/snapshot-index-publish.sh:64-73 | the nested loop tells whether all three captures of every time are intact |
| SnapshotStore.Store.BuildArchive | analytics/snapshot-index-publish.sh:75-86 | the loop frames all captures of the day in order |
| SnapshotStore.Store.BundleDay | analytics/snapshot-index-publish.sh:61-99 | a complete, verified day is installed, cleared of captures one by one and published, in exactly these operations; any other day is left alone |
| SnapshotStore.Store.BundleCompletedDays | analytics/snapshot-index-publish.sh:54-101 | in any order of the days, a bundle is new iff its day is indexed, over, has none yet, holds intact captures of all its times, and its archive verifies |
| SnapshotStore.Store.PruneIndex | analytics/snapshot-index-publish.sh:103-119 | expired days go with index, listing and bundle, a straddling day keeps its recent times, others stay |
| SnapshotStore.Store.Add | analytics/snapshot-index-publish.sh:137-149 | from any files, with or without the new time's captures, `add` does exactly the operations of its phases, and bundles exactly the days that are ready and not dropped; from a clean state with the documents in place, a stop leaves every published time readable iff it is not between the first removal of a day's captures and that day's publication |
| SnapshotAdd.AddBundlesExactly | analytics/snapshot-index-publish.sh:54-119 | after a run a day has a bundle iff it had one or was ready for one (indexed, over, all captures intact, archive verified) and has not ended thirty days before; a new bundle holds the bytes of all its captures |
| SnapshotAdd.AddCapturesExactly | analytics/snapshot-index-publish.sh:90-95 | exactly the captures of the times that moved into a new bundle are gone |
| SnapshotAdd.AddPublishesExactly | analytics/snapshot-index-publish.sh:96-119 | the published indexes of the new time's day, of newly bundled days and of a day cut by the retention are new and mirror their day; those of dropped days are gone, all others are as before |
| SnapshotAdd.AddIndexExactly | analytics/snapshot-index-publish.sh:103-119 | exactly the days that ended thirty days before are dropped, a day cut by the retention lists its recent times, the new time's day lists it last |
| SnapshotAdd.RecentIsSuffix | analytics/snapshot-index-publish.sh:112-116 | of ascending times the recent ones are the end of the list |
| SnapshotStore.Store.RunAll | analytics/snapshot-index-publish.sh:54-149 | the log of any sequence of runs that collect and then `add`, each stopped after any number of operations, is the cut operation list of each run from where those before it led; if every run collected its documents every prefix of the log is safe, and if they were also intact and no day is returned to, no document is misplaced |
| SnapshotLog.KeptUnlessAbsent | analytics/snapshot-index-publish.sh:54-149 | over any runs, stopped anywhere, each document of a listed time is a capture or in its day's bundle unless it was nowhere when its time was listed |
| SnapshotLog.ServedExactly | analytics/ping-monitor.html:68-69 | over any runs, stopped anywhere, a document of a published time that was not misplaced can be read iff its capture was not removed or has since been collected again or its day published |
| SnapshotLog.ReadableExactly | analytics/ping-monitor.html:68-69 | so a published time with no misplaced document is readable iff none of its captures was removed with its day's publication still to come |
| SnapshotLog.OrphansExactly | analytics/snapshot-index-publish.sh:103-119 | over any runs, stopped anywhere, a day without an index keeps its published index or bundle iff its timestamps were removed and since then neither that file was removed nor the day listed again |
| SnapshotLog.TidyExactly | analytics/snapshot-index-publish.sh:103-119 | so no file of an unlisted day is left iff no day's expiry is pending |
| SnapshotReader.CompletedAddKeepsReadable | analytics/ping-monitor.html:68-69 | a completed `add` keeps every listed time readable iff the new time is too old to be listed or its documents are where the reader looks: in its day's bundle if there is one, else in intact captures |
| SnapshotReader.AddListsRecentTimes | analytics/snapshot-index-publish.sh:137-149 | after a completed `add` exactly the earlier times and the new one that are not before the cutoff are listed |
| SnapshotReader.AddKeepsBodies | analytics/snapshot-index-publish.sh:54-149 | after a completed `add` every document of a listed time has the bytes it had before, wherever it moved |
| SnapshotReader.StopBeforePublishLasts | analytics/snapshot-index-publish.sh:62 | a time hidden by such a stop stays hidden after a completed run iff the run neither adds to its day nor cuts or expires it; otherwise it is readable or no longer listed |
| SnapshotHistory.StopBeforePublishOccurs | analytics/snapshot-index-publish.sh:90-96 | stopping the bundling of a clean day after any removal and before its publication hides a listed time that the bundle holds |
| SnapshotHistory.BundleSettled | analytics/snapshot-index-publish.sh:74-96 | cut anywhere, the operations of bundling a clean day leave all published times readable iff the cut is not between the first removal and the publication |
| SnapshotReader.AddRemovesExpired | analytics/snapshot-index-publish.sh:103-119 | a completed `add` leaves no index, published index or bundle of an expired day |
| SnapshotReader.StopInExpiryOrphans | analytics/snapshot-index-publish.sh:109-111 | a stop within the removals of an expired day orphans what has not been removed |
| SnapshotReader.OrphansStay | analytics/snapshot-index-publish.sh:105-118 | orphaned files stay through completed runs iff none adds a time of their day |

## Left out

- Pattern text: the decimal digits are those of Unicode 14.0; scripts that later versions add are not among them.
- The patch run's messages, the default rule list, and reading, checking and decompressing artifacts and catalogs.
- MD5 is any function from bytes to sixteen bytes; nothing is assumed about collisions. The version string of an image is not modelled.
- ELF, gzip, zlib and SquashFS code; a compressed file is identified with its content, and `gzip -t` with a flag of the file or of the run.
- The exporter's database queries and their ordering by address without case: their rows are the input, with the timestamps distinct, ascending and in the queried range. I/O errors and failed allocations are not modelled.
- Codebook.MakeCodebook: takes the exact ratio as a real number, because the rounding of `pow` and `lround` in floating point is not modelled.
- Airtime.PublishRates: computes on unbounded integers, because overflow of C's `int` near 2^31 is undefined there.
- The exporter's 64-bit layout sums are unbounded integers in the model.
- History.BuildHistory: keeps the parallel typed arrays as one array of records with the same widths per field, because they are always indexed alike; the `Uint8Array` views into the buffer are the buffer with an offset.
- JavaScript numbers are integers in the model; a chart range or bucket length that is not an integer is not modelled, and neither are progress messages and fetching.
- SnapshotIndex: whether a document is kept does not depend on its capture being intact; a damaged one counts as kept and as unreadable.
- SnapshotBundle.ParseBundle: `Number` spellings other than decimal digits or the empty string are rejected, because the writer never produces them; the decoder's handling of a byte order mark and of malformed UTF-8 in a header is not modelled.
- The `rebuild` command of the snapshot script, its manifest, temporary file names, permissions and the monitor's own removal of captures after 30 days.
- Runs of the shell scripts at the same time as each other.
- DailyPublish: an export is identified with the day it holds, so the content of a day growing during the day is not modelled; targets and manifest files are left out.
- PingRound.HandleDatagram: takes the index that `PingPacket.ReadDatagram` finds in a datagram, so that a round's events do not carry bytes.
- Sockets and clocks of a ping round: each send and each poll is an input with its time. A socket that cannot be opened is not modelled.
- PingRound: the echo sequence number is 16 bits wide and repeats after 65536 targets; nothing reads it back.
- `series`, board data, identity, health checks, page rendering and container files.
