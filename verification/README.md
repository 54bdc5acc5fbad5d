# Verified models of the TruyenAudio studio's streaming, storage and feed logic

A Dafny 4.11 project that models the parts of the studio's backend and benchmark scripts
that move bytes and records under interruption: network chunks, racing writers, damaged
files, provider outages, reconnecting clients, failing commits. `dafny verify
dfyconfig.toml` checks all of it; there is nothing to run.

Where the source changes state step by step, the model is a class or a method with loops,
proved to do exactly what a specification function on values says; the properties are then
proved about that function, over every input or every run.

| module | what it models |
|---|---|
| `PyText`, `Utf8`, `Decimal`, `Sorting`, `Reals` | the Python text, codec, number and sorting operations the services use |
| `SseParser` | the incremental server-sent-event parser: decoder state, lazy CR LF normalisation, frame cutting, truncation |
| `SseChunking`, `SseRoundTrip` | chunking does not matter (and exactly when it does); print/parse round trip; truncation is seen |
| `SseStandard` | the parser's reading of a frame against section 9.2.6 of the WHATWG HTML standard |
| `QwenStream` | delta extraction for cumulative and incremental models, and the whole `stream_translate` loop |
| `ArtifactStore` | immutable artifacts over a file system of names, inodes and bytes; writers interleave step by step |
| `ArtifactCache` | lookups that agree with recomputation although files get damaged |
| `Cursor`, `Catalog` | base64url cursors (section 5 of RFC 4648) under CPython's lenient decoder; filter, sort, page |
| `Discovery` | the ETag discovery cache across outages |
| `EventFeed`, `FeedResume` | anti-join backfill into an append-only log, batched projection, resumption by cursor |
| `RangeServing` | single byte ranges (section 14.1.2 of RFC 9110), response arithmetic, chunked body, resumed downloads |
| `FrameWindow`, `Percentile`, `Mastering` | two-pointer window maximum, interpolated percentiles, exact PCM mastering |
| `CredentialSaga` | secrets in a keyring, references in a row, compensation of failed commits |

JSON parsing is a partial function parameter (`json.loads`), SHA-256 a function parameter
that is injective where a digest has to identify content, and floats are reals. Operating
system, keyring and commit failures are flags of each step, so every pattern of failures is
covered.

## What the proofs found

* **CR CR LF breaks chunk invariance.** `feed` normalises its already normalised buffer
  again on every call (transport.py:121), and normalising is idempotent on exactly the
  texts without CR CR LF (`NormalizeTwice`). The buffer is independent of the cuts if and
  only if there is none (`NormalizeCutsIff`); a stream leaves the parser in the same state
  at every point, however it is cut, if and only if it has none as far as it is accepted
  (`AgreesThroughoutIff`). `ChunkingMatters` names five bytes that are accepted as one chunk
  and rejected when an empty chunk follows.
* **Frames are not read as the WHATWG HTML standard reads them.** For every frame without
  line breaks other than CR and LF, `AgreesWithStandardIff` gives the exact condition under
  which the parser emits what section 9.2.6 dispatches. Inputs outside it: a frame that
  starts with a comment is dropped, its data included (`LeadingCommentHidesData`, and
  exactly then: `DataHiddenIff`); a frame without data is refused where the standard
  dispatches nothing (`NoDataIsRefused`); all leading blanks of a data line go, not one
  space (`LeadingBlanksAreStripped`); CR CR is no frame boundary (`CrCrIsNoBoundary`). The
  lines themselves are those of the standard if and only if there is no other line break
  (`SameLinesIff`); NEL, for one, turns the text behind it into data (`NextLineMakesData`).
* **Incremental streams are reproduced only while the mode guess is right.** The deltas add
  up to the concatenation of all frames if and only if the second frame does not extend the
  first and no frame repeats the text before it (`ConcatenationIff`); a word said twice in a
  row is lost (`RepeatedWordIsLost`).
* **An unknown range unit is answered 416**, where section 14.2 of RFC 9110 has the header
  ignored; the docstring at audio.py:286 says so too. It is ignored if and only if the
  client's copy is current or its If-Range is stale (`UnknownUnitIsRefused`).
* **A failed refresh is soon reported fresh.** The failure is answered as stale, but the next
  `get`, or a refresh within the cooldown, computes staleness from the age alone
  (catalog.py:326, 336): the mark survives if and only if the snapshot is older than the ttl
  (`OutageMarkSurvivesIff`, an input in `OutageMarkIsLost`). The error text does survive, and
  an old snapshot is never reported fresh (`StaleIffOld`, `FreshIsYoung`).
* **Compensating a failed put can lose the secret.** It restores the keyring if and only if
  the row held the canonical reference or the canonical entry was free
  (`FailedPutRestoredIff`). Any other reference that names the canonical entry, as a legacy
  one may, is outside: its secret is deleted by the compensation itself (`AliasLosesSecret`,
  `LegacyReferenceAliases`). A failed delete is always restored.

## Model

| member | source | states |
|---|---|---|
| SseParser.IncrementalSseParser.Feed | backend/app/providers/transport.py:114-146 | One feed moves buffer and decoder to exactly the state of the specification and returns its events, also when it raises |
| SseParser.IncrementalSseParser.CutBuffer | backend/app/providers/transport.py:122-146 | The frame loop cuts at the first blank line each time, skips, emits or raises frame by frame, and leaves the unconsumed rest |
| SseParser.IncrementalSseParser.ReadFrame | backend/app/providers/transport.py:125-145 | Which frames are skipped, which raise and with which error, and what event the others are |
| SseParser.IncrementalSseParser.ReadFields | backend/app/providers/transport.py:128-134 | The last event line names the event; data lines are collected in order |
| SseParser.IncrementalSseParser.Finish | backend/app/providers/transport.py:148-154 | Raises exactly for bytes held back by the decoder or a buffer that is not blank |
| SseParser.BoundaryIsFirst | backend/app/providers/transport.py:123-124 | A frame ends at the first blank line of the buffer |
| Utf8.DecodeAppend | backend/app/providers/transport.py:111-119 | Decoding may stop at any byte and go on from the bytes held back, with the same text, rest and failures |
| Utf8.EncodeDecode | backend/app/providers/transport.py:111-119 | Every text survives UTF-8 encoding (section 4 of RFC 3629) and incremental decoding with nothing held back |
| Utf8.DecodeIff | backend/app/providers/transport.py:115-119 | Exactly which bytes decode, and to what: the encoding of the text and the beginning of at most one more character, which is held back; no overlong form, surrogate or value past 10FFFF |
| PyText.StripCore | backend/app/providers/transport.py:126 | Stripping takes off exactly the white space on both sides |
| SseChunking.NormalizeTwice | backend/app/providers/transport.py:120-121 | Normalising line ends again changes nothing if and only if the text has no CR CR LF |
| SseChunking.NormalizeCutsIff | backend/app/providers/transport.py:120-121 | The normalised buffer is the same for every way of cutting a text if and only if it has no CR CR LF |
| SseChunking.CutThenAnything | backend/app/providers/transport.py:123-146 | What frame cutting does to the consumed part of a buffer does not depend on what follows it |
| SseChunking.FeedAppend | backend/app/providers/transport.py:114-146 | Feeding any chunk after one without CR CR LF is feeding their concatenation: same acceptance, events, buffer and decoder state |
| SseChunking.RejectedStays | backend/app/providers/transport.py:114-146 | A stream that is rejected stays rejected, whatever follows |
| SseChunking.ChunksAgree | backend/app/providers/transport.py:107-146 | Every cutting of a stream that has no CR CR LF as far as it is accepted gives the outcome of the whole |
| SseChunking.ChunkInvariance | backend/app/providers/transport.py:107-146 | For every stream without CR CR LF and every cutting into chunks, the chunks are accepted exactly when the whole is, with equal events, buffer and decoder state |
| SseChunking.AnyTwoChunkings | backend/app/providers/transport.py:107-146 | Any two cuttings of such a stream agree |
| SseChunking.AgreesThroughoutIff | backend/app/providers/transport.py:114-146 | Every stream leaves the parser in the same state at every point for every cutting if and only if it has no CR CR LF as far as it is accepted; an accepted one, if and only if it has none |
| SseChunking.UnsettledTailBreaks | backend/app/providers/transport.py:121 | A CR LF left in the buffer is changed by one more empty feed |
| SseChunking.ChunkingMatters | backend/app/providers/transport.py:114-146 | Five bytes that are accepted whole and rejected when an empty chunk follows |
| SseRoundTrip.RoundTrip | backend/app/providers/transport.py:123-154 | Printed events, with LF or CR LF ends and comment frames in between, fed in any chunks, come back as exactly that list, and finish succeeds; the data of an event is {"done": true} where its text strips to [DONE], whatever json.loads makes of that, and else the JSON value of its text |
| SseRoundTrip.PrintedOutcome | backend/app/providers/transport.py:133-145 | Any printed event, by its data text: the done marker for [DONE], else the event with the JSON value, or the error when there is none |
| SseStandard.SameLinesIff | backend/app/providers/transport.py:130 | splitlines yields the lines of section 9.2.6 of the WHATWG HTML standard, which end at CR LF, LF or CR, if and only if the text has no other line break |
| SseStandard.AgreesWithStandardIff | backend/app/providers/transport.py:125-137 | For every frame without other line breaks, the parser emits exactly what section 9.2.6 of the WHATWG HTML standard dispatches if and only if: where it skips the frame no line carries data; else some data line has its colon, none lacks it or has more than one space behind it, no blank line stands between them, and the last event line, stripped, is what the last event field of their section means |
| SseStandard.DataHiddenIff | backend/app/providers/transport.py:126-127 | A frame with data lines is skipped if and only if it starts with a colon |
| SseStandard.LeadingCommentHidesData | backend/app/providers/transport.py:126-127 | A comment line followed by a data line: the standard dispatches the data, the parser nothing |
| SseStandard.NoDataIsRefused | backend/app/providers/transport.py:135-136 | A frame that only names its event: the standard dispatches nothing, the parser raises |
| SseStandard.LeadingBlanksAreStripped | backend/app/providers/transport.py:133-134 | Two spaces behind the colon: the standard drops one, the parser both |
| SseStandard.NextLineMakesData | backend/app/providers/transport.py:130 | NEL ends a line for the parser, so that text behind it becomes data; by the standard's line ends nothing is dispatched |
| SseStandard.CrCrIsNoBoundary | backend/app/providers/transport.py:123-130 | CR CR between two data lines: the standard dispatches two messages, the parser one that holds both |
| SseRoundTrip.FramesLeaveNothing | backend/app/providers/transport.py:123-146 | A stream of complete frames that parse yields the events of the frames in order and leaves buffer and decoder empty |
| SseRoundTrip.TruncationIsSeen | backend/app/providers/transport.py:148-154 | Any well-formed stream cut inside a frame, after its first non-blank character began, yields the events of the frames before it and finish raises TRUNCATED_STREAM |
| SseRoundTrip.PrintedTruncation | backend/app/providers/transport.py:148-154 | The same for every cut inside any printed frame |
| SseRoundTrip.BoundaryCutIsClean | backend/app/providers/transport.py:148-154 | Any well-formed stream cut at a frame boundary ends well with exactly the preceding events |
| QwenStream.PrefixChainIsReproduced | backend/app/providers/qwen_mt.py:374-403 | If each frame extends the one before, no error is raised and the deltas add up to the last frame |
| QwenStream.CumulativeFinishesIffChain | backend/app/providers/qwen_mt.py:390-400 | Once cumulative, the run finishes exactly when the remaining frames form a prefix chain, and ends with the last frame |
| QwenStream.ConcatenationIff | backend/app/providers/qwen_mt.py:374-403 | The output is the concatenation of all frames if and only if the second does not extend the first and none repeats the text before it |
| QwenStream.RepeatedWordIsLost | backend/app/providers/qwen_mt.py:382-386 | Two equal frames of an incremental stream come out as one |
| QwenStream.SecondFrameDecides | backend/app/providers/qwen_mt.py:374-403 | What becomes of every stream: the first frame other than the first one settles the mode for good; totals finish if and only if each extends the one before, and new text is gathered but for frames that repeat all so far |
| QwenStream.LoopsAreParseThenRead | backend/app/providers/qwen_mt.py:305-337 | The interleaved chunk and event loops do what parsing the whole stream and then reading its events does |
| QwenStream.TranslationIgnoresChunking | backend/app/providers/qwen_mt.py:288-343 | Deltas, text, usage and success of a translation do not depend on how the response is cut |
| QwenStream.YieldedIsAccumulated | backend/app/providers/qwen_mt.py:326-337 | What is yielded is what is accumulated, and it fails exactly when the delta extraction regresses |
| QwenStream.TakeEventsOkIff | backend/app/providers/qwen_mt.py:306-337 | The events are read to their end if and only if none raises and the text never regresses; then the yields make up the text, and the usage is that of the last usage record |
| QwenStream.TranslateOkIff | backend/app/providers/qwen_mt.py:288-343 | A translation succeeds if and only if the stream is accepted, no event raises, the text never regresses, and the stream ends inside no code point with nothing but white space behind the last frame; then text, yields and usage are those of its events |
| QwenStream.TruncatedTranslation | backend/app/providers/qwen_mt.py:343 | A response cut inside a frame, after any well-formed frames and in any chunks, ends in TRUNCATED_STREAM unless it failed before; it is never taken for a whole translation |
| QwenStream.Translator.ReadEvents | backend/app/providers/qwen_mt.py:306-337 | The inner loop updates accumulated text, mode, usage and yields as specified, and stops at the first error |
| QwenStream.Translator.Run | backend/app/providers/qwen_mt.py:288-343 | The whole loop over chunks, with its parser and the final finish, meets the specification, so that it succeeds exactly as TranslateOkIff says |
| ArtifactStore.RunInvariant | backend/app/modules/artifacts/store.py:105-182 | Every interleaving of writers keeps: each writer's inode holds what it wrote, final names lead only to published inodes, partial files are owned |
| ArtifactStore.FinalNeverChanges | backend/app/modules/artifacts/store.py:141-170 | A final name, once linked, keeps its inode and bytes in every continuation |
| ArtifactStore.CommittedBytes | backend/app/modules/artifacts/store.py:150-170 | In every run the final file holds exactly the bytes of the write calls between the begin of its committing writer and the first commit or close, in order, and the StoredArtifact gives their digest and number |
| ArtifactStore.WrittenIsTheWrites | backend/app/modules/artifacts/store.py:105-144 | In every run each writer holds, on disk and in its buffer, the concatenation of the bytes of its write calls, read off the list of calls alone |
| ArtifactStore.SessionCommits | backend/app/modules/artifacts/store.py:105-170 | An undisturbed begin, write and commit under a free name succeeds: the bytes are there under the name, described by the result, and the partial file is gone |
| ArtifactStore.BeginIff | backend/app/modules/artifacts/store.py:105-119 | A begin under a new uuid succeeds if and only if its partial name is free, whatever artifacts there are, and opens a new empty file without touching any other |
| ArtifactStore.NoHandleOnFinal | backend/app/modules/artifacts/store.py:141-170 | No open handle leads to an inode that a final name reaches |
| ArtifactStore.AtMostOneCommits | backend/app/modules/artifacts/store.py:159-163 | Of all writers racing for a name at most one commits, and none when the name was taken from the start |
| ArtifactStore.PartialsBelongToLiveWriters | backend/app/modules/artifacts/store.py:172-182 | As long as unlink succeeds, every partial file that is not left over from an earlier run belongs to a writer neither committed nor closed |
| ArtifactStore.HashNeverFails | backend/app/modules/artifacts/store.py:150 | Under any interleaving the hash step finds the partial file and describes all that was written |
| ArtifactStore.CommitOutcome | backend/app/modules/artifacts/store.py:141-170 | An uninterrupted commit succeeds if and only if the final name is free and the link goes through; what it leaves behind in both cases, and that no other name is touched |
| ArtifactStore.CloseOutcome | backend/app/modules/artifacts/store.py:172-182 | Closing an open writer publishes nothing, removes its partial file, and touches no other name |
| ArtifactStore.CommittedVerifies | backend/app/modules/artifacts/store.py:88-95 | Whatever happens after a commit, verify answers true for exactly the committed digest |
| ArtifactStore.VerifyIff | backend/app/modules/artifacts/store.py:88-95 | verify holds if and only if there is a file of that name with that digest; an ill-formed digest is refused |
| ArtifactStore.ArtifactStore.VerifyArtifact | backend/app/modules/artifacts/store.py:88-95 | The method answers as specified and changes nothing |
| ArtifactStore.Sha256File | backend/app/modules/artifacts/store.py:203-210 | Hashing in chunks hashes and counts the whole file |
| ArtifactStore.ArtifactWriter.Write | backend/app/modules/artifacts/store.py:122-139 | A write to an open handle appends the bytes to what has been written, disk and buffer together; a write to a closed one fails and changes nothing |
| ArtifactStore.ArtifactWriter.Commit | backend/app/modules/artifacts/store.py:141-170 | Commit runs its five steps in order, is idempotent after success and refused after close; a taken final name raises ArtifactAlreadyExists, any other link failure its own error |
| ArtifactStore.ArtifactWriter.Close | backend/app/modules/artifacts/store.py:172-182 | Close removes the partial file of an uncommitted writer and leaves a committed one alone |
| ArtifactStore.ArtifactStore.Begin | backend/app/modules/artifacts/store.py:105-118 | The first of a hundred candidate names that is free becomes a new empty partial file, or nothing changes |
| ArtifactCache.ArtifactCache.Lookup | backend/app/modules/artifacts/cache.py:23-81 | One lookup changes rows and audit log as specified: newest READY row, checks in order, demotion with one record |
| ArtifactCache.Select | backend/app/modules/artifacts/cache.py:29-40 | The selected row is a READY row of the key that no other such row is newer than, and there is none when nothing is selected |
| ArtifactCache.RunInvariant | backend/app/modules/artifacts/cache.py:23-81 | Every run keeps: READY rows describe the recomputation of their key, one per key, and audits match demoted rows one to one |
| ArtifactCache.HitIffIntact | backend/app/modules/artifacts/cache.py:42-58 | In every reachable state a lookup hits if and only if the key has a READY row whose file holds the recomputation |
| ArtifactCache.LookupChangesIff | backend/app/modules/artifacts/cache.py:39-81 | In every reachable state a lookup changes something if and only if the key has a READY row whose file is damaged |
| ArtifactCache.DamageIsDemoted | backend/app/modules/artifacts/cache.py:60-81 | A miss caused by damage demotes exactly that row, touches no other, and adds exactly one audit record: id, path, expected digest and size, what was found instead, and why it was refused |
| ArtifactCache.ReadyRowsUnique | backend/app/db/models.py:554-561 | In every reachable state at most one READY row per key exists, and each demoted row has one audit record |
| ArtifactCache.MissThenInsertHits | backend/app/modules/artifacts/cache.py:39-81 | After any miss the recomputed artifact can be inserted on a fresh path, and the next lookup hits it |
| Decimal.ShowValue | backend/app/providers/catalog.py:275-276 | Decimal notation reads back as the number and has no leading zero |
| Cursor.EncodeDecode64 | backend/app/providers/catalog.py:276-282 | CPython's lenient base64 decoder gives back every byte string from its URL-safe encoding |
| Cursor.RepadStripped | backend/app/providers/catalog.py:276-281 | Padding by -len mod 4 restores exactly the padding that rstrip dropped |
| Cursor.CursorRoundTrip | backend/app/providers/catalog.py:275-288 | Decoding the cursor of any offset gives that offset, through JSON, UTF-8 and base64url |
| Cursor.ForeignCursorIff | backend/app/providers/catalog.py:279-288 | A cursor that holds any other text decodes if and only if the text is a JSON object with a natural number as its offset |
| Cursor.BadBytesAreRefused | backend/app/providers/catalog.py:282-288 | A cursor that holds bytes that are no UTF-8 text is refused |
| Cursor.OneLetterIsRefused | backend/app/providers/catalog.py:280-288 | A single letter is refused |
| Cursor.ForeignIsSkipped | backend/app/providers/catalog.py:282 | A character outside the alphabet is skipped wherever it stands |
| Cursor.TestVectors | backend/app/providers/catalog.py:275-276 | The notation on the test vectors of section 10 of RFC 4648, with - and _ as the last two letters |
| Sorting.SortBySorts | backend/app/providers/catalog.py:150 | Sorting yields a sorted permutation for any total preorder |
| Sorting.SortedUnique | scripts/benchmarks/stats.py:16 | A list has only one sorted form under a total order |
| Sorting.StrLeqIff | backend/app/providers/catalog.py:150 | The order of texts is decided by the code points at the first difference, a prefix coming first |
| Catalog.FilteredIsExact | backend/app/providers/catalog.py:121-150 | The filtered list is in order of provider, model and id, compared at their first difference, and holds every matching snapshot as often as it was given, and no other |
| Catalog.CriteriaAlone | backend/app/providers/catalog.py:127-148 | What each criterion lets through by itself, empty texts, unknown context sizes and empty benchmark references included |
| Catalog.MatchesIffEach | backend/app/providers/catalog.py:127-149 | A model matches a filter if and only if it passes each of its criteria set alone |
| Catalog.FilterModelSnapshots | backend/app/providers/catalog.py:121-150 | The filter loop yields exactly that list |
| Catalog.PageAt | backend/app/providers/catalog.py:153-167 | A page holds the next items behind its offset, at most limit, and its next cursor, present exactly when something is left, points right behind it |
| Catalog.PageRefusedIff | backend/app/providers/catalog.py:159-164 | A page is refused for its limit if and only if that is outside 1..100, and else for its cursor if and only if that does not decode or points behind the end |
| Catalog.PagingWalk | backend/app/providers/catalog.py:100-167 | Following next cursors with any limits in 1..100 terminates, no page exceeds its limit, and the pages concatenate to exactly the filtered list |
| Catalog.ProviderCatalog.Register | backend/app/providers/catalog.py:73-76 | Registering appends a descriptor unless its provider id is taken; ids stay distinct |
| Catalog.ListedIsExact | backend/app/providers/catalog.py:100-107 | Exactly the matching models of the enabled providers that the filter asks for are listed |
| Catalog.ProviderCatalog.ListModels | backend/app/providers/catalog.py:100-107 | The loop over the descriptors lists them, filtered and sorted |
| Catalog.ProviderCatalog.PageModels | backend/app/providers/catalog.py:109-118 | Pages that list, and refuses limits outside 1..100 before anything else |
| Discovery.ItemsAndEtagBelongTogether | backend/app/providers/catalog.py:331-351 | In every run a provider has a snapshot exactly when it ever answered in full, and its items and etag are both from its last full response |
| Discovery.RaisesIff | backend/app/providers/catalog.py:337-351 | In every run a refresh raises if and only if the provider has never answered in full and does not do so now; a snapshot once obtained is kept |
| Discovery.CooldownIsKept | backend/app/providers/catalog.py:334-337 | Under a nondecreasing clock a provider with a snapshot is never fetched twice within the cooldown |
| Discovery.HeldEtagIsOfHeldItems | backend/app/providers/catalog.py:339-345 | If a provider is served honestly, its held etag is the etag of its held items, however other providers behave |
| Discovery.FetchIsUpToDate | backend/app/providers/catalog.py:337-351 | If the etags of a provider identify its content, every fetch from it without error succeeds and leaves exactly the items an unconditional fetch would return, however other providers behave |
| Discovery.HeldIsDated | backend/app/providers/catalog.py:337-351 | In every run a snapshot is dated by its last confirmation, carries stale mark and error exactly while the latest fetch has failed, and says "not modified" exactly when that was its answer |
| Discovery.StaleIffOld | backend/app/providers/catalog.py:317-329 | In every run get reports items and etag of the last full response and the time of the last confirmation, stale if and only if that is older than the ttl, and an error exactly while the latest fetch has failed |
| Discovery.FetchesIff | backend/app/providers/catalog.py:331-339 | In every run a refresh fetches if and only if there is no snapshot or the cooldown since the last fetch, successful or not, is over; it sends the etag of the last full response |
| Discovery.RefreshReports | backend/app/providers/catalog.py:337-351 | In every run what a refresh returns: a full answer as it came, the last full answer confirmed now or as old as it is after a failure, or what get reports |
| Discovery.OutageMarkSurvivesIff | backend/app/providers/catalog.py:326-336 | The stale mark of a failed refresh is reported again, by get and within the cooldown, if and only if the snapshot is older than the ttl |
| Discovery.OutageMarkIsLost | backend/app/providers/catalog.py:326-350 | A full answer at 0 and a failure at 100: answered stale, then reported fresh by get, with the error still set |
| Discovery.FreshIsYoung | backend/app/providers/catalog.py:331-351 | In every run, what a refresh returns as not stale was confirmed no longer ago than the ttl |
| Discovery.DiscoveryCache.Refresh | backend/app/providers/catalog.py:331-351 | One refresh changes states and refresh times as specified, also when the fetcher raises |
| EventFeed.SyncBackfills | backend/app/api/events.py:74-128 | One sync leaves every source row with a log row, changes none that existed, and appends the missing ones, each once under the next id and dated as its source row: the older first, then by type and id, compared at their first difference |
| EventFeed.SyncTwice | backend/app/api/events.py:85-87 | Repeating a sync adds nothing |
| EventFeed.Feed.Sync | backend/app/api/events.py:74-112 | The backfill loop leaves exactly that log |
| EventFeed.Feed.DistinctKinds | backend/app/api/events.py:137 | Exactly the entity types that occur in the rows, each once, so that one load per type is made |
| EventFeed.Feed.LoadEntities | backend/app/api/events.py:136-141 | The dictionary holds only source rows under their own key, and all that the cursor slice refers to |
| EventFeed.Feed.LoadKind | backend/app/api/events.py:140-141 | One load covers every row of its type in the slice and loses none loaded before |
| EventFeed.Feed.Payloads | backend/app/api/events.py:131-152 | The batched payload list equals the list of per-row lookups, for every cursor |
| EventFeed.EntityIsFound | backend/app/api/events.py:144-151 | The dictionary answers for a row exactly as a lookup of its own would |
| EventFeed.Feed.Events | backend/app/api/events.py:58-71 | A replay syncs and returns the events behind the cursor in sequence order |
| EventFeed.ReplayIsExact | backend/app/api/events.py:58-71 | A replay delivers an event for every row of the synced log behind the cursor whose source row is there, with its id, key and the content of that source row, and nothing else |
| EventFeed.ReplayAscends | backend/app/api/events.py:67-70 | Events come in the order of their sequence ids, each id once |
| FeedResume.CursorLeavesTheNew | backend/app/api/events.py:67-70 | The wanted rows behind a client's cursor are exactly the wanted rows logged since it was last connected |
| FeedResume.ReplyIsTheNew | backend/app/api/events.py:58-71 | Wherever its last connection was cut, a reconnecting client is sent exactly the wanted rows behind what it has received |
| FeedResume.RunInvariant | backend/app/api/events.py:43-71 | In every run of added and updated source rows and of connections cut after any event, what was received is exactly the wanted rows of the log up to the cut |
| FeedResume.ResumeIsExactlyOnce | backend/app/api/jobs.py:128-130 | A client whose connections are cut after any event, and which reconnects with the last id it got, never receives an event twice or out of order, and has every wanted source row's event after any connection that was not cut; with the job filter and without |
| RangeServing.PartialIsInside | backend/app/api/audio.py:416-455 | Every partial decision satisfies start <= end < total |
| RangeServing.WindowDecision | backend/app/api/audio.py:449-455 | bytes=a-b, printed and parsed, is refused exactly when a >= total or b < a, and its end is clipped to the file |
| RangeServing.OpenEndedDecision | backend/app/api/audio.py:449-455 | bytes=a- means from a to the end |
| RangeServing.SuffixDecision | backend/app/api/audio.py:443-447 | bytes=-n means the last n bytes, or all when there are fewer |
| RangeServing.UnknownUnitIsRefused | backend/app/api/audio.py:313-336 | A request with an unknown range unit is answered as if it had no Range header if and only if its If-None-Match is current or its If-Range stale; otherwise with 416 |
| RangeServing.IterFileSlice | backend/app/api/audio.py:488-498 | The chunks are non-empty, bounded, and concatenate to exactly the slice |
| RangeServing.BodyMatchesHeaders | backend/app/api/audio.py:338-356 | Body, Content-Length and Content-Range of every reply to a GET agree with each other and with the file, in every status |
| RangeServing.HeadIsGetWithoutBody | backend/app/api/audio.py:346-356 | A HEAD is answered as the GET, without the body |
| RangeServing.NoRangeIsFull | backend/app/api/audio.py:416-424 | Without a Range, or with a blank one, the whole file is sent |
| RangeServing.UnitIsCaseless | backend/app/api/audio.py:426-434 | The unit may be in capitals, and blanks around unit and range do not matter |
| RangeServing.MalformedIsRefused | backend/app/api/audio.py:434-441 | A single range that is not digits, a dash and digits, one side at most empty, is refused |
| RangeServing.ListOfRangesIsFull | backend/app/api/audio.py:430-432 | Any list of two or more ranges is answered with the whole representation |
| RangeServing.EtagRoundTrip | backend/app/api/audio.py:478-485 | The digest comes back out of the ETag the server prints, and out of its weak form |
| RangeServing.OwnEtagIsRecognised | backend/app/api/audio.py:313-326 | A client that sends back the ETag it got is answered 304 by If-None-Match, and has its range honoured by If-Range |
| RangeServing.ValidatorsDecide | backend/app/api/audio.py:458-485 | If-None-Match with any list of ETags, strong or weak, matches if and only if the digest of the file is among theirs; If-Range if and only if it is the digest |
| RangeServing.StarMatches | backend/app/api/audio.py:462-465 | A star in If-None-Match stands for any file |
| RangeServing.StaleEtagIsIgnored | backend/app/api/audio.py:313-326 | The ETag of another file counts for nothing in If-None-Match, and in If-Range lets the whole file be sent |
| RangeServing.ResumableDownload | backend/app/api/audio.py:338-356 | Successive windows of any positive sizes deliver the whole file, and the request at offset total is answered 416 |
| FrameWindow.MaxFramesPerJobPerSecond | scripts/benchmarks/fixtures.py:3416-3428 | Returns the maximum, over all jobs and all closed intervals of 1000 ms, of the number of the job's frames inside |
| FrameWindow.ScanJob | scripts/benchmarks/fixtures.py:3421-3427 | One job's two-pointer scan bounds every window of its times, and a new maximum is reached by one |
| FrameWindow.GroupByJob | scripts/benchmarks/fixtures.py:3417-3419 | Groups the times of each job in order of arrival |
| FrameWindow.WindowBounded | scripts/benchmarks/fixtures.py:3424-3427 | No window holds more times than the widest span the scan saw |
| Percentile.PermutationInvariant | scripts/benchmarks/stats.py:15-29 | A percentile does not depend on the order of the samples |
| Percentile.PercentileBounds | scripts/benchmarks/stats.py:15-29 | A percentile lies between minimum and maximum, which the quantiles 0 and 1 return |
| Percentile.PercentileMonotone | scripts/benchmarks/stats.py:23-29 | Percentiles never fall as the quantile grows, across interpolation segments |
| Percentile.PercentileInterpolates | scripts/benchmarks/stats.py:23-29 | Where (n - 1) * quantile is i + w, the percentile lies the fraction w of the way from sample i of the sorted samples to sample i + 1 |
| Percentile.PercentileRefusedIff | scripts/benchmarks/stats.py:17-20 | Refused if and only if there is no sample, or else the quantile lies outside 0 to 1 |
| Percentile.SummaryReports | scripts/benchmarks/stats.py:32-45 | Which percentile, extreme or mean each field is the nearest rounding of |
| Percentile.SumOfParts | scripts/benchmarks/stats.py:44 | The mean is taken over every sample once, in any grouping |
| Percentile.SummaryOrdered | scripts/benchmarks/stats.py:32-45 | min <= p50 <= p95 <= p99 <= max and min <= mean <= max, after rounding to any number of digits |
| Reals.RoundIsNearest | scripts/benchmarks/stats.py:37-44 | Rounding goes to the nearest integer, and to the even one of two |
| Mastering.AcceptedPauses | backend/app/providers/fake.py:133-150 | The aligned pauses are exactly the multiples of 10 ms, at 441 frames for each 10 ms |
| Mastering.RefusalIff | backend/app/providers/fake.py:125-134 | A request is accepted exactly at 44100 Hz with matching lengths and non-negative multiples of 10 ms |
| Mastering.RefusedWith | backend/app/providers/fake.py:124-134 | Which error a refused request gets: the first thing that is wrong with it, in the order of the checks |
| Mastering.CheckRequest | backend/app/providers/fake.py:124-134 | The checks of the source find exactly that error |
| Mastering.FramesConserved | backend/app/providers/fake.py:142-152 | The output has the frames of all segments plus 441 for every 10 ms of pause, no more and no fewer |
| Mastering.SegmentInPlace | backend/app/providers/fake.py:142-152 | Every segment stands unchanged at its place, followed by nothing but zero samples up to the next |
| Mastering.DurationWithinHalf | backend/app/providers/fake.py:211-217 | The probed duration is within half a millisecond of segments and pauses played in full |
| Mastering.CopyFrames | backend/app/providers/fake.py:145-149 | Copying in 4096-frame chunks appends the whole segment |
| Mastering.Master | backend/app/providers/fake.py:123-154 | Refuses with the first failing check, rejects incompatible segments, and otherwise writes exactly the mastered samples |
| CredentialSaga.CanonicalLocation | backend/app/modules/security/credentials.py:102-111 | The canonical reference resolves to the place set writes to |
| CredentialSaga.ReferenceForms | backend/app/modules/security/credentials.py:102-111 | Both forms of a reference, blanks around them ignored: the service before the first slash, or the default service; any other text is refused |
| CredentialSaga.PutStatus | backend/app/api/cloud_profiles.py:121-147 | The answer to every put, if and only if for each status, from row, keyring, input and failures: 422 without a secret; 503 unless the held reference is readable, id and secret are not blank and the keyring stores it; 200 if and only if the commit goes through; else 500, or 503 when undoing raises |
| CredentialSaga.PutWorld | backend/app/api/cloud_profiles.py:121-147 | A refused put changes nothing; a committed one leaves the new secret in the canonical entry, its reference, and the next revision |
| CredentialSaga.DeleteStatus | backend/app/api/cloud_profiles.py:149-183 | The answer to every delete, if and only if for each status, likewise |
| CredentialSaga.DeleteWorld | backend/app/api/cloud_profiles.py:149-183 | A refused delete changes nothing; a committed one leaves no reference, nothing in the entry it named, every other entry, and the next revision |
| CredentialSaga.FailedPutRestoredIff | backend/app/api/cloud_profiles.py:262-266 | A put whose commit failed without a compensation error restores row and keyring if and only if the row held the canonical reference or the canonical entry was free; otherwise exactly the canonical entry is lost |
| CredentialSaga.FailedDeleteRestored | backend/app/api/cloud_profiles.py:269-271 | A delete whose commit failed restores row and keyring, whatever the reference |
| CredentialSaga.AliasLosesSecret | backend/app/api/cloud_profiles.py:262-266 | With any other reference to the canonical entry the compensation deletes the secret it has just restored |
| CredentialSaga.LegacyReferenceAliases | backend/app/modules/security/credentials.py:102-111 | The legacy form of its own reference is such a reference, for every profile |
| CredentialSaga.OtherEntriesUntouched | backend/app/modules/security/credentials.py:58-111 | No request changes any entry but the canonical one and the one its row refers to |
| CredentialSaga.HandleAgrees | backend/app/api/cloud_profiles.py:121-183 | From agreement of row and keyring, a request either leaves everything as it was or commits into agreement on the new secret, revision plus one |
| CredentialSaga.CommittedPutAgrees | backend/app/api/cloud_profiles.py:138-147 | After any committed put, legacy reference or not, row and keyring agree on the new secret |
| CredentialSaga.FailedCompensation | backend/app/api/cloud_profiles.py:238-271 | What a compensation that raised leaves, from agreement: the row as it was, and the canonical entry holding the secret that was not committed, or, after a delete, none |
| CredentialSaga.SagaHolds | backend/app/api/cloud_profiles.py:121-183 | Over every run with arbitrary failures from any keyring, as long as no compensation has raised since the last committed put, or committed delete of a canonical reference, the reference resolves to the secret of the last committed put |
| CredentialSaga.RevisionCounts | backend/app/api/cloud_profiles.py:142-183 | The revision counts the committed changes, in every run from any state |
| CredentialSaga.Profile.PutCredential | backend/app/api/cloud_profiles.py:121-147 | The put route changes keyring and row as specified for every combination of failures, so that it commits exactly as PutStatus says |
| CredentialSaga.Profile.DeleteCredential | backend/app/api/cloud_profiles.py:149-183 | The delete route does the same |
| CredentialSaga.Profile.RestoreOrDelete | backend/app/api/cloud_profiles.py:262-266 | Restores the previous secret before deleting the new entry, and says whether either raised |

## Left out

- SseChunking.ChunkInvariance: assumes a stream without CR CR LF, because the law is false with it; `AgreesThroughoutIff` is the exact condition for every stream.
- SseParser.IncrementalSseParser.Feed: `str` chunks (encoded by the source first), the logging of errors, and errors of `json.loads` other than JSONDecodeError are not modelled.
- QwenStream.Translator.Run: HTTP status, transport exceptions, consent and budget guards are not modelled; what one event's JSON says is a parameter, which may also raise.
- ArtifactStore.ArtifactWriter.Commit: errors of flush, fsync and close, and checks of unsafe paths, are not modelled; the handle writes append-only, and partial names cannot be artifact names.
- ArtifactStore.RunInvariant: a uuid is taken to be drawn only once and never to be one of a leftover partial file, and nobody but the store's writers touches its directory (damage from outside is the cache's subject).
- ArtifactCache.MissThenInsertHits: the session and its flush are atomic; path checks are not modelled.
- Cursor.CursorRoundTrip: `json.loads` is concrete on the texts the encoder writes and a parameter on all others.
- SseStandard.AgreesWithStandardIff: for frames with a line break other than CR and LF it says nothing beyond `SameLinesIff` and the input in `NextLineMakesData`; the id and retry fields, which the parser ignores, are not compared.
- Discovery.DiscoveryCache.Refresh: a fetcher that reads the cache while it runs is not modelled; times are integers.
- EventFeed.Feed.Sync: one call is one atomic step, so the race between the check and the commit is not modelled; neither are purging of the log, deletion of source rows, and time zones of timestamps.
- EventFeed.Feed.Payloads: the fields of each payload and the scrubbing of texts are a content parameter.
- FeedResume.ResumeIsExactlyOnce: `int` is concrete on digit strings and a parameter on all other cursor texts.
- RangeServing.WindowDecision: the `\d` of the pattern is modelled as the ASCII digits, which are the only digits of a Latin-1 header; the refusal of `int` for more than 4300 digits is not modelled.
- RangeServing.IterFileSlice: the file does not change while it is read; HEAD replies have no body.
- Percentile.SummaryOrdered: over the reals, without floating-point rounding, infinities and NaN.
- FrameWindow.MaxFramesPerJobPerSecond: times are reals and job ids strings, not arbitrary JSON values.
- Mastering.Master: samples stand for two bytes each; the WAV container, loudness figures, bitrate and digest are not modelled.
- CredentialSaga.SagaHolds: keyring operations either happen or raise without effect, and profile ids have no blank at their end, as generated ids have none.
- Job runner, recovery writer, budget and cloud guards, chapter state machine, translation workflow: not part of this model.
- Provider HTTP adapters, FFmpeg and TTS subprocesses, crawler, FastAPI wiring, migrations, frontend: I/O and foreign calls.
- Camel-case conversion, registry gates, draft feed generator, QA thresholds, the remaining benchmark fixtures: would add only easy members.
