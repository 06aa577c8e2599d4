# BLS mirror and population analytics, modelled in Dafny

This project models the core of a small data pipeline. It keeps a copy of the BLS
`pr` time-series directory (`https://download.bls.gov/pub/time.series/pr/`) in an
object-store bucket, and it runs a set of reports on the mirrored data together with a
population snapshot stored under `datausa/`.

Three pieces of the system are modelled:

- **The incremental mirror** (`src/data_fetch/part1_bls_fetch.py`), in `mirror_sync.dfy`.
  - It builds the remote manifest from the listing page: name, size and date text, scanned by
    the row pattern; the last row wins for a repeated name.
  - It builds the local manifest from the bucket's paginated listing, skipping `datausa/`.
  - It uploads every add and every update in remote order. An update is a size difference
    or a time difference of more than one second. Each upload carries the metadata
    `source=bls`.
  - It then deletes, in one batch, the local keys the remote no longer lists.
- **The older add-only mirror** (`src/part1_bls_fetch.py`), in `add_only_sync.dfy`.
  - Every link on the listing page is a candidate.
  - A key already in the bucket when the run began is skipped, and so is a name ending in `/`.
  - Nothing is deleted or overwritten.
  - `raise_for_status` ends the run on a 4xx or 5xx answer.
- **The analysis lambda** (`src/data_analysis/lambdas/index.py`), in `trigger_event.dfy`
  and `report.dfy`.
  - The handler digs the S3 key out of the queue event. It raises `ValueError` for a missing
    key or index, or for a body that does not decode. It answers
    `{"status": "analytics-done", "key": k}`.
  - The relational steps of the reports are modelled:
    - loading the BLS table: column names stripped, series ids stripped, quarterly periods
      only, the `year` and `value` cells read by Python's `int()` and `float()` (pandas'
      own type inference differs on a few cells; see "Left out");
    - loading the population table;
    - the 2013–2018 subset;
    - the best year per series;
    - the `PRS30006032`/`Q01` rows left-joined with the population, rows without a
      population dropped, sorted by year.

Shared pieces:

- `text.dfy`: character classes, `strip`, digit runs.
- `listing.dfy`: hand-written scanners equivalent to the two `re.findall` patterns.
- `http.dfy`: responses, the BLS root URL, run errors.
- `object_store.dfy`: the `Bucket` class, whose `objects` map the operations update in place,
  and the paginator's contract.

Environment inputs are parameters:

- The network is a function from URL to `Fetched` (a network error, or a status and a body).
- `strptime` is `parse: string -> Option<int>`, giving microseconds since the epoch.
- `float()` is `toReal`, and JSON decoding is `decode`.
- The clock is one `now` per run.
- The bucket's listing is a sequence of pages that the paginator promises describe the bucket.

## Model

| member | source | states |
|---|---|---|
| Text.ToLower | src/part1_bls_fetch.py:24 | IGNORECASE folding: an ASCII capital becomes its own lower-case letter (code point plus 32), any other character is unchanged |
| Text.TrimStart | src/data_analysis/lambdas/index.py:21-22 | `str.lstrip()`; its shape is stated by `TrimStartShape` |
| Text.TrimStartShape | src/data_analysis/lambdas/index.py:21-22 | `lstrip` keeps a suffix of the text that does not start with whitespace; everything it drops is whitespace |
| Text.TrimEnd | src/data_analysis/lambdas/index.py:21-22 | `str.rstrip()`; its shape is stated by `TrimEndShape` |
| Text.TrimEndShape | src/data_analysis/lambdas/index.py:21-22 | `rstrip` keeps a prefix that does not end with whitespace; everything it drops is whitespace |
| Text.Strip | src/data_analysis/lambdas/index.py:21-22 | `str.strip()`: stated by `StripIsCore` (the slice between the whitespace runs) and `StripIdempotent` |
| Text.StripIsCore | src/data_analysis/lambdas/index.py:21-22 | `strip` yields the slice between the leading and trailing whitespace runs. What is cut on either side is whitespace, and the result neither starts nor ends with whitespace |
| Text.StripIdempotent | src/data_analysis/lambdas/index.py:21-22 | stripping an already stripped name or id changes nothing |
| Listing.RunEnd | src/data_fetch/part1_bls_fetch.py:21 | a greedy repetition stops at the first character outside its class and covers only characters inside it |
| Listing.Run1 | src/data_fetch/part1_bls_fetch.py:21 | a `+` repetition matches at least one character, all in its class |
| Listing.RunEndAt | src/data_fetch/part1_bls_fetch.py:21 | a run of the class from `i` that stops at `j` is exactly what the greedy repetition consumes from `i` |
| Listing.Lit | src/part1_bls_fetch.py:22-24 | a literal matches at the cursor, ignoring ASCII case, exactly when each character there folds to the pattern's; the cursor then moves past it |
| Listing.LastSegment | src/part1_bls_fetch.py:22 | the text after the last `/` is slash-free, no longer than the value, and empty exactly when the value is empty or ends with `/` |
| Listing.LastSegmentTail | src/part1_bls_fetch.py:22 | that text is a suffix of the value, preceded by a `/` when it is not the whole value |
| Listing.HrefName | src/part1_bls_fetch.py:22 | the `[^"]*/([^"/]+)` capture exists exactly when the quoted value holds a `/` and does not end with one; it is non-empty and slash-free |
| Listing.HrefNameSplit | src/part1_bls_fetch.py:22 | the quoted value is a prefix, a `/` and the capture, as `[^"]*/` followed by the group |
| Listing.HrefStart | src/part1_bls_fetch.py:22-24 | the front `<a\s+href="` of the pattern, found in any case: `<a`, at least one whitespace character, then `href="` |
| Listing.CloseAnchor | src/part1_bls_fetch.py:22 | the back of the pattern ends past the start of the quoted value and captures a file name |
| Listing.MatchAnchorAt | src/part1_bls_fetch.py:21-25 | a match of the anchor pattern ends after its start and captures a file name |
| Listing.MatchAnchorAtSound | src/part1_bls_fetch.py:21-25 | a reported match is `<a`, whitespace, `href="` in any case, a quoted value free of `"` closed by `"` just before the match's end, and the capture is that value's `HrefName` |
| Listing.HrefStartAt | src/part1_bls_fetch.py:22-24 | wherever the front of the pattern occurs at `i`, it is found there with its `href="` at the same place |
| Listing.CloseAnchorAt | src/part1_bls_fetch.py:22 | wherever a quoted value with a capture is closed by `"`, the back of the pattern captures that name and ends after the quote |
| Listing.MatchFromParts | src/part1_bls_fetch.py:21-25 | the match at `i` is the back of the pattern tried after its front |
| Listing.MatchAnchorAtComplete | src/part1_bls_fetch.py:21-25 | whenever the anchor pattern matches at `i`, that match is the one reported: same capture, same end |
| Listing.QuoteFreeName | src/part1_bls_fetch.py:22 | the captured name holds no `"`, because the quoted value holds none |
| Listing.ScanAnchors | src/part1_bls_fetch.py:21-25 | every name `findall` returns is non-empty, without `/` and without `"` |
| Listing.ScanAnchorsStep | src/part1_bls_fetch.py:21-25 | a match at the scan position is reported and the scan resumes after it; otherwise the scan moves on by one character |
| Listing.NextAnchor | src/part1_bls_fetch.py:21-25 | the first position from `i` where the pattern matches (the end of the page when none does): no position before it matches |
| Listing.ScanAnchorsNext | src/part1_bls_fetch.py:21-25 | `findall` from `i` reports the capture of the first match at or after `i` and then scans from that match's end, so names come in page order with duplicates kept; it is empty when no position matches |
| Listing.MatchDateAt | src/data_fetch/part1_bls_fetch.py:21 | the date group, when it matches, is non-empty and inside the page |
| Listing.MatchSizeAt | src/data_fetch/part1_bls_fetch.py:21 | the size group is a non-empty digit run, with only whitespace (at least one character) before it and after it up to the anchor |
| Listing.MatchRowAt | src/data_fetch/part1_bls_fetch.py:20-24 | a row match ends after its start and yields a file name and a digit-run size |
| Listing.ScanRows | src/data_fetch/part1_bls_fetch.py:20-24 | every row `findall` returns has a file name and a digit-run size |
| ObjectStore.IsListingOf | src/data_fetch/part1_bls_fetch.py:38-39 | the pages of `list_objects_v2` list exactly the stored keys, each entry with its object's size and time; assumed by `MirrorSync.GetS3Manifest` and `AddOnlySync.ListS3Keys`, which prove what their loops build from it |
| ObjectStore.SlashFreeNotReserved | src/data_fetch/part1_bls_fetch.py:42-43 | a key without `/` never starts with `datausa/` |
| ObjectStore.Uploaded | src/data_fetch/part1_bls_fetch.py:62 | the object `put_object` stores: the fetched body, metadata `source=bls` and the run time; `AfterUploadsEffect` states it |
| ObjectStore.AfterUploads | src/data_fetch/part1_bls_fetch.py:52-62 | the bucket after a sequence of uploads; `AfterUploadsEffect` and `UploadsSnoc` state it |
| ObjectStore.AfterUploadsEffect | src/data_fetch/part1_bls_fetch.py:60-62 | after uploading a sequence of names, the bucket's keys are the old keys plus those names. Each name holds its fetched body with `source=bls` and the run's time; every other object is unchanged |
| ObjectStore.PutRequests | src/data_fetch/part1_bls_fetch.py:62 | one `put_object` request per uploaded name, in upload order |
| ObjectStore.UploadsSnoc | src/data_fetch/part1_bls_fetch.py:62 | one more upload changes the bucket at that key only and adds one `Put` request |
| ObjectStore.Bucket.constructor | tests/unit/conftest.py:10 | a new bucket is empty and has received no requests |
| ObjectStore.Bucket.PutObject | src/data_fetch/part1_bls_fetch.py:62 | `put_object` stores body, metadata and time under the key, replacing any object there, and nothing else changes |
| ObjectStore.Bucket.DeleteObjects | src/data_fetch/part1_bls_fetch.py:68-71 | `delete_objects` removes exactly the listed keys in one request; absent keys are ignored |
| MirrorSync.Insert | src/data_fetch/part1_bls_fetch.py:31 | `manifest[fname] = …` updates the entry, and the insertion order keeps each name once |
| MirrorSync.ManifestOf | src/data_fetch/part1_bls_fetch.py:25-31 | a built manifest lists each of its names once and has an entry exactly for each listed name |
| MirrorSync.ManifestOfOrder | src/data_fetch/part1_bls_fetch.py:25-31 | the names are in first-insertion order: of two listed names, the earlier one is on a row before any row of the later one |
| MirrorSync.ManifestOfNamesStep | src/data_fetch/part1_bls_fetch.py:26-31 | the last row appends its name to the names before it unless the name is already there |
| MirrorSync.RowNamesMembers | src/data_fetch/part1_bls_fetch.py:26 | a name is among the rows' names exactly when some row carries it |
| MirrorSync.ManifestOfNames | src/data_fetch/part1_bls_fetch.py:25-31 | the manifest's keys are exactly the names on the scanned rows |
| MirrorSync.ManifestOfStep | src/data_fetch/part1_bls_fetch.py:26-31 | the last row adds its name to the keys built from the rows before it |
| MirrorSync.ManifestOfLastWins | src/data_fetch/part1_bls_fetch.py:31 | for a name on several rows, the entry is the last such row's `int(size)` and parsed date |
| MirrorSync.ManifestOfFails | src/data_fetch/part1_bls_fetch.py:27-30 | the build fails exactly when `strptime` rejects some date text, and the error is the first rejected text |
| MirrorSync.RejectedInPrefix | src/data_fetch/part1_bls_fetch.py:26-30 | the first rejected date among all rows but the last is the first rejected date overall |
| MirrorSync.AcceptedPrefix | src/data_fetch/part1_bls_fetch.py:26-30 | when every earlier date parses, only the last row can be the rejected one |
| MirrorSync.ManifestOfFailStep | src/data_fetch/part1_bls_fetch.py:26-30 | an earlier failure is the result; otherwise the last row fails the build exactly when its date is rejected |
| MirrorSync.RemoteOf | src/data_fetch/part1_bls_fetch.py:18-32 | the remote manifest from the listing answer; `GetRemoteManifest` computes it, the `ManifestOf` lemmas state its keys, order, last-wins entries and failures |
| MirrorSync.RemoteNamesAreFileNames | src/data_fetch/part1_bls_fetch.py:21 | every remote manifest key is non-empty and holds no `/` and no `"` |
| MirrorSync.GetRemoteManifest | src/data_fetch/part1_bls_fetch.py:18-32 | the row-by-row loop, which stops at the first rejected date, yields the remote manifest. A failed GET of the listing page is an error |
| MirrorSync.PrefixFailureSticks | src/data_fetch/part1_bls_fetch.py:26-31 | once a prefix of the rows fails, the whole build fails with the same error |
| MirrorSync.LocalOf | src/data_fetch/part1_bls_fetch.py:34-46 | the local manifest, non-reserved keys with size and time; `GetS3Manifest`, `SeenStep` and `PageSeen` state it |
| MirrorSync.GetS3Manifest | src/data_fetch/part1_bls_fetch.py:34-46 | walking all pages yields every bucket key outside `datausa/`, with its size and last-modified time, and nothing else |
| MirrorSync.SeenStep | src/data_fetch/part1_bls_fetch.py:39-44 | one listing entry is added to the manifest unless it is reserved |
| MirrorSync.PageSeen | src/data_fetch/part1_bls_fetch.py:38-44 | a whole page is added to the keys seen |
| MirrorSync.Decide | src/data_fetch/part1_bls_fetch.py:53-59 | the per-name decision: add, update or skip; `DecideIsClass`, `ToleranceBoundary` and `ReconcilePartition` state it |
| MirrorSync.ToleranceBoundary | src/data_fetch/part1_bls_fetch.py:56 | with equal sizes, a time difference of exactly 1 s is skipped and 1.001 s is an update, in either direction. Skip holds exactly for equal sizes within ±1 s |
| MirrorSync.ReconcilePartition | src/data_fetch/part1_bls_fetch.py:52-65 | add, update, unchanged and delete partition the union of the remote and local names |
| MirrorSync.DecideIsClass | src/data_fetch/part1_bls_fetch.py:53-59 | the loop's ADD/UPDATE/skip decision for a remote name matches its class: absent locally, differing, or within tolerance |
| MirrorSync.PendingWrites | src/data_fetch/part1_bls_fetch.py:52-62 | the names the loop writes, in remote order; `PendingWritesMembers`, `PendingWritesPrefix` and `PendingWritesStep` state it |
| MirrorSync.PendingWritesMembers | src/data_fetch/part1_bls_fetch.py:52-62 | a name is written exactly when the remote lists it and it is an add or an update |
| MirrorSync.PendingWritesPrefix | src/data_fetch/part1_bls_fetch.py:52-62 | the writes decided for a prefix of the remote names are a prefix of all the writes |
| MirrorSync.PendingWritesStep | src/data_fetch/part1_bls_fetch.py:52-59 | one more remote name adds itself to the writes exactly when it is an add or an update |
| MirrorSync.Fetchable | src/data_fetch/part1_bls_fetch.py:61 | the downloads before the stopping point all answer; the one at it is a network failure |
| MirrorSync.FetchableAt | src/data_fetch/part1_bls_fetch.py:61 | the stopping point is the first failed download |
| MirrorSync.FetchableExtend | src/data_fetch/part1_bls_fetch.py:61 | a successful download extends a fully fetched prefix |
| MirrorSync.UploadChanges | src/data_fetch/part1_bls_fetch.py:52-63 | the loop uploads the writes in remote order up to the first failed download. The bucket and its request log are exactly those uploads applied, and the result names the failing URL |
| MirrorSync.FailedExit | src/data_fetch/part1_bls_fetch.py:60-61 | a failed download is the loop's outcome, with the earlier uploads kept |
| MirrorSync.SkippedStep | src/data_fetch/part1_bls_fetch.py:58-59 | a skipped name leaves the writes unchanged |
| MirrorSync.UploadedStep | src/data_fetch/part1_bls_fetch.py:60-62 | an upload extends the writes by its name and moves the bucket and the log by exactly that `put_object` |
| MirrorSync.CompletedExit | src/data_fetch/part1_bls_fetch.py:52-63 | a loop without a failed download has written every pending name |
| MirrorSync.StopsAtFailedFetch | src/data_fetch/part1_bls_fetch.py:61 | a failed download of a pending name, all earlier ones having answered, is where the loop stops |
| MirrorSync.AllWritten | src/data_fetch/part1_bls_fetch.py:52-63 | a successful loop wrote the whole pending list |
| MirrorSync.Sync | src/data_fetch/part1_bls_fetch.py:48-71 | a manifest error changes nothing. A failed download keeps the earlier uploads and deletes nothing. A complete run leaves the mirrored bucket, after one `Put` per write and then one batch delete only when the delete set is non-empty |
| MirrorSync.Mirrored | src/data_fetch/part1_bls_fetch.py:48-71 | the bucket after a complete run; `CompletedRun`, `MirrorOutcome`, `MirroredKey`, `ReservedKey`, `WrittenName` and `UnchangedName` state it |
| MirrorSync.CompletedRun | src/data_fetch/part1_bls_fetch.py:65-71 | after all writes, the batch delete of local − remote gives the mirrored bucket, and the delete request follows the puts |
| MirrorSync.DeleteSetSafe | src/data_fetch/part1_bls_fetch.py:65 | the delete set is exactly the bucket keys outside `datausa/` that the remote does not list, and none of them is written in the run |
| MirrorSync.MirrorOutcome | src/data_fetch/part1_bls_fetch.py:48-71 | after a complete run, the keys outside `datausa/` are exactly the remote names, and reserved objects are untouched. Adds and updates hold the fetched file; unchanged names keep their object |
| MirrorSync.MirroredKey | src/data_fetch/part1_bls_fetch.py:52-71 | a key outside `datausa/` survives a complete run exactly when the remote lists it |
| MirrorSync.ReservedKey | src/data_fetch/part1_bls_fetch.py:42-43 | a `datausa/` key is neither written nor deleted |
| MirrorSync.WrittenName | src/data_fetch/part1_bls_fetch.py:54-62 | an added or updated name holds the fetched file with `source=bls` |
| MirrorSync.UnchangedName | src/data_fetch/part1_bls_fetch.py:58-59 | an unchanged name keeps its object |
| AddOnlySync.RemoteFiles | src/part1_bls_fetch.py:18-27 | the names `list_remote_files` returns, or the failed request; `ListedFilesArePlain` states them |
| AddOnlySync.ListedFilesArePlain | src/part1_bls_fetch.py:21-25 | every listed file is a plain name. None ends in `/` and none is under `datausa/`, so the folder check never fires |
| AddOnlySync.ListS3Keys | src/part1_bls_fetch.py:29-34 | draining the generator into a set gives exactly the bucket's keys |
| AddOnlySync.Skipped | src/part1_bls_fetch.py:41-42 | a name ending in `/` or already in the snapshot is skipped; used by `AttemptsMembers` and `SkippedStep` |
| AddOnlySync.Attempts | src/part1_bls_fetch.py:40-42 | the names the loop downloads, in listing order; `AttemptsMembers`, `AttemptsStep` and `AttemptsPrefix` state it |
| AddOnlySync.AttemptsMembers | src/part1_bls_fetch.py:40-42 | a name is attempted exactly when it is listed, is not folder-like, and was absent when the run began |
| AddOnlySync.AttemptsStep | src/part1_bls_fetch.py:40-42 | one more listed name is attempted exactly when it is not skipped |
| AddOnlySync.AttemptsPrefix | src/part1_bls_fetch.py:40-42 | the attempts of a prefix of the listing are a prefix of all attempts |
| AddOnlySync.Accepted | src/part1_bls_fetch.py:45-46 | a download `raise_for_status` lets through: an answer whose status is not 400–599; `Served` and `Refusal` state where the run stops |
| AddOnlySync.Served | src/part1_bls_fetch.py:45-46 | the downloads before the stopping point are all accepted; the one at it fails or is rejected by `raise_for_status` |
| AddOnlySync.ServedAt | src/part1_bls_fetch.py:45-46 | the stopping point is the first refused download |
| AddOnlySync.ServedExtend | src/part1_bls_fetch.py:45-46 | an accepted download extends a fully served prefix |
| AddOnlySync.Refusal | src/part1_bls_fetch.py:45-46 | the error of a refused download names its URL. It is an HTTP error only for a status `raise_for_status` rejects |
| AddOnlySync.Sync | src/part1_bls_fetch.py:36-54 | an error on the listing page changes nothing. The keys are read once, before any upload, and each attempt is uploaded in listing order up to the first refused download; the bucket and log are exactly those uploads |
| AddOnlySync.SkippedStep | src/part1_bls_fetch.py:41-42 | a skipped name leaves the attempts unchanged |
| AddOnlySync.UploadedStep | src/part1_bls_fetch.py:43-53 | an upload extends the attempts by its name and moves the bucket and log by exactly that `put_object` |
| AddOnlySync.RefusedExit | src/part1_bls_fetch.py:45-46 | a refused download is the run's outcome, with the earlier uploads kept |
| AddOnlySync.StopsAtRefusal | src/part1_bls_fetch.py:45-46 | a refused attempt, after accepted ones, is where the loop stops |
| AddOnlySync.CompletedExit | src/part1_bls_fetch.py:40-54 | a loop without a refusal made every attempt, and the bucket and log are as those uploads leave them |
| AddOnlySync.NeverDeletesOrOverwrites | src/part1_bls_fetch.py:36-54 | however far a run gets, every object already in the bucket stays as it was. Only listed files that were absent are added, each with its fetched content |
| AddOnlySync.UploadIffAbsent | src/part1_bls_fetch.py:38-53 | after a complete run, a listed file is uploaded exactly when it was absent. The bucket's keys are the old keys plus the listed files, and old objects are unchanged |
| AddOnlySync.TwoFilesIntoEmptyBucket | tests/unit/test_part1_bls_fetch.py:15-27 | an empty bucket and two distinct listed files that both download end with exactly those two keys, each with `source=bls` |
| AddOnlySync.NoSlashNoFolder | src/part1_bls_fetch.py:41 | a name without `/` does not end with `/` |
| TriggerEvent.Field | src/data_analysis/lambdas/index.py:61-62 | `v[name]` yields a value exactly for a dict holding the key. It raises `KeyError` for a dict without it and `TypeError` otherwise |
| TriggerEvent.First | src/data_analysis/lambdas/index.py:61-62 | `v[0]` yields a value for a non-empty list or string. It raises `IndexError` for an empty one |
| TriggerEvent.Loads | src/data_analysis/lambdas/index.py:61 | `json.loads` decodes text; a non-text body raises `TypeError` |
| TriggerEvent.KeyStep | src/data_analysis/lambdas/index.py:61-62 | the subscript chain, step by step; `ExtractKeyExact` states when it yields a key |
| TriggerEvent.ExtractKey | src/data_analysis/lambdas/index.py:60-64 | the `try`/`except` around the chain; `ExtractKeyExact`, the `...Raises` lemmas and `NonTextBodyEscapes` state its outcomes |
| TriggerEvent.ExtractKeyExact | src/data_analysis/lambdas/index.py:60-64 | the key is extracted as `k` exactly when the event has the nested `Records[0].body → Records[0].s3.object.key == k` shape |
| TriggerEvent.Handler | src/data_analysis/lambdas/index.py:59-71 | the handler succeeds exactly when a key is extracted and the reports run, and it answers `{"status": "analytics-done", "key": key}`. An extraction error is raised before any data is loaded |
| TriggerEvent.NoRecordsRaises | src/data_analysis/lambdas/index.py:61-64 | any event without `Records` raises `ValueError` |
| TriggerEvent.EmptyRecordsRaises | src/data_analysis/lambdas/index.py:61-64 | any event whose `Records` list is empty raises `ValueError` |
| TriggerEvent.NoBodyRaises | src/data_analysis/lambdas/index.py:61-64 | any event whose first record has no `body` raises `ValueError`, whatever the other records hold |
| TriggerEvent.UndecodableBodyRaises | src/data_analysis/lambdas/index.py:61-64 | any event whose first record's body text does not decode raises `ValueError` |
| TriggerEvent.NoteMissingPartRaises | src/data_analysis/lambdas/index.py:61-64 | any event whose body decodes to a notification lacking `Records`, with an empty `Records`, or whose first record lacks `s3`, `object` or `key`, raises `ValueError` |
| TriggerEvent.NonTextBodyEscapes | src/data_analysis/lambdas/index.py:61-64 | any event whose first record's body is not text raises `TypeError`, which the `except` clause does not catch |
| TriggerEvent.TestEventRaises | src/data_analysis/lambdas/index.py:59-64 | the S3 test notification, which has no `Records`, raises `ValueError` |
| TriggerEvent.AnswersWithKey | tests/unit/data_analysis/lambdas/test_data_analysis_index.py:44-58 | the event of the handler test is answered with status `analytics-done` and key `datausa/test.json` |
| Report.ParseInt | src/data_analysis/lambdas/index.py:24 | `int(text)` succeeds exactly on an optionally signed digit run after stripping; for plain digits it is their decimal value |
| Report.ParseIntIgnoresSpace | src/data_analysis/lambdas/index.py:24 | surrounding whitespace does not change `int()` |
| Report.FirstNamed | src/data_analysis/lambdas/index.py:21 | a column is found exactly when some stripped header name equals the name, and it is the first such column |
| Report.Quarterly | src/data_analysis/lambdas/index.py:23 | the kept records come from the file and have a period starting with `Q` |
| Report.QuarterlyKeeps | src/data_analysis/lambdas/index.py:23 | every record whose period starts with `Q` is kept |
| Report.QuarterlyExact | src/data_analysis/lambdas/index.py:23 | the query keeps every quarterly record as many times as the file holds it, and no other record |
| Report.QuarterlyConcat | src/data_analysis/lambdas/index.py:23 | the query keeps the file's order: the records kept from two stretches are those of the first followed by those of the second |
| Report.Column | src/data_analysis/lambdas/index.py:24 | a converted column has one value per record, each the conversion of its cell. A failure names a cell that does not convert |
| Report.ColumnFails | src/data_analysis/lambdas/index.py:24 | a column fails exactly when some cell does not convert |
| Report.Convert | src/data_analysis/lambdas/index.py:22-24 | each row is the record's stripped series id, its `int()` year, its period as read and its `float()` value. An error names a cell that `int()` or `float()` rejects |
| Report.ConvertFails | src/data_analysis/lambdas/index.py:24 | conversion fails exactly when some kept record has an unreadable year or value |
| Report.FindColumns | src/data_analysis/lambdas/index.py:21-24 | the four columns are found by stripped name; a missing one is reported by a name no stripped header carries |
| Report.LoadBls | src/data_analysis/lambdas/index.py:15-26 | a loaded table has its columns and only quarterly rows |
| Report.LoadBlsRows | src/data_analysis/lambdas/index.py:20-24 | the loaded rows are read one for one, in order, from the quarterly records: stripped series id, period as read, `int()` year and `float()` value |
| Report.UnconvertibleFails | src/data_analysis/lambdas/index.py:23-24 | a quarterly record with an unreadable year or value makes the load fail |
| Report.LoadBlsFails | src/data_analysis/lambdas/index.py:23-24 | the load fails exactly when some quarterly record does not convert. Non-quarterly records are filtered before conversion and cannot fail it |
| Report.YearOf | src/data_analysis/lambdas/index.py:12 | `astype({"year": int})` fails exactly for a missing year or one that is not a number, a boolean or integer text |
| Report.PopulationOf | src/data_analysis/lambdas/index.py:10-12 | one record's `Population`: a number or missing; `PopRows` and `LoadPopRows` state the rows built from it |
| Report.PopRows | src/data_analysis/lambdas/index.py:10-12 | one row per record, in order, with that record's year and population |
| Report.RecordsOf | src/data_analysis/lambdas/index.py:10 | the records `json_normalize` reads from `data`; `LoadPop` and `LoadPopRows` state the table built from them |
| Report.LoadPop | src/data_analysis/lambdas/index.py:8-13 | a loaded population table comes from a document with a `data` member |
| Report.LoadPopRows | src/data_analysis/lambdas/index.py:10-12 | the loaded rows are the `data` records' years and populations, one per record, in order |
| Report.Subset | src/data_analysis/lambdas/index.py:30 | the 2013–2018 query; `SubsetExact` states it |
| Report.SubsetExact | src/data_analysis/lambdas/index.py:30 | the subset holds every row of 2013 to 2018 as often as the table does, and no other row |
| Report.GroupSum | src/data_analysis/lambdas/index.py:36 | `groupby([series_id, year]).value.sum()` for one group; `BestAmongIsArgmax` and `BestYearIsArgmax` state the choice made from these sums |
| Report.YearsOf | src/data_analysis/lambdas/index.py:36 | the year groups of a series are exactly the years of its rows |
| Report.BestAmong | src/data_analysis/lambdas/index.py:36-39 | the sort by sum and `drop_duplicates` for one series; `BestAmongIsArgmax` states it |
| Report.BestAmongIsArgmax | src/data_analysis/lambdas/index.py:36-39 | the chosen year has the largest yearly sum; among equal sums it is the earliest |
| Report.BestYear | src/data_analysis/lambdas/index.py:35-40 | the table has exactly one entry per series id |
| Report.BestYearIsArgmax | src/data_analysis/lambdas/index.py:35-40 | a series' best year is one of its years, and its sum is that year's total. No year of the series has a larger total, and ties go to the earliest year |
| Report.Target | src/data_analysis/lambdas/index.py:45-47 | the target rows are rows of the table with series `PRS30006032` and period `Q01` |
| Report.TargetExact | src/data_analysis/lambdas/index.py:45-47 | the query keeps every `PRS30006032`/`Q01` row as often as the table holds it, and no other row |
| Report.YearRows | src/data_analysis/lambdas/index.py:50 | the population rows matched for a year are rows of the table with that year |
| Report.DropMissing | src/data_analysis/lambdas/index.py:51 | `dropna` never adds rows |
| Report.DropMissingConcat | src/data_analysis/lambdas/index.py:51 | `dropna` works row by row |
| Report.DropMissingMergeEach | src/data_analysis/lambdas/index.py:50-51 | a target row's matches, after `dropna`, are exactly its pairings with the population rows of its year that have a population |
| Report.PairsWithoutMatches | src/data_analysis/lambdas/index.py:50-51 | a target row without population rows for its year pairs with nothing |
| Report.LeftJoin | src/data_analysis/lambdas/index.py:50 | the left merge on `year`; `LeftJoinThenDrop` and `DropMissingMergeEach` state it with `dropna` |
| Report.LeftJoinThenDrop | src/data_analysis/lambdas/index.py:50-51 | a left join followed by `dropna` on the population equals the inner join with the populated rows |
| Report.InsertByYear | src/data_analysis/lambdas/index.py:54 | inserting a row into year-sorted rows keeps them sorted |
| Report.InsertByYearAdds | src/data_analysis/lambdas/index.py:54 | insertion adds exactly that row |
| Report.SortByYear | src/data_analysis/lambdas/index.py:54 | `sort_values("year")` yields a year-sorted permutation of its input |
| Report.PairsRows | src/data_analysis/lambdas/index.py:50-51 | each pairing carries the target row's fields and the population of a same-year population row |
| Report.InnerJoinRows | src/data_analysis/lambdas/index.py:50-51 | each joined row is a target row with the population of a same-year population row |
| Report.Joined | src/data_analysis/lambdas/index.py:45-56 | the whole join pipeline; `JoinedRowsMatch` states it |
| Report.JoinedRowsMatch | src/data_analysis/lambdas/index.py:45-56 | the joined table is sorted by year and is a permutation of the inner join. Every row is a `PRS30006032`/`Q01` BLS row with the population of a same-year population row |
| Report.RunReports | src/data_analysis/lambdas/index.py:28-57 | the reports hold one best year per series id and a year-sorted joined table |

## Left out

- Printing is not modelled, because it only produces console output. This covers
  `src/data_analysis/lambdas/index.py:31-32, 42, 57, 65`, `src/data_fetch/part1_bls_fetch.py:63, 67`
  and `src/part1_bls_fetch.py:19, 26, 44, 54`.
- The mean, standard deviation and rounding of the reports are not modelled, because they are
  floating-point summaries. This covers `src/data_analysis/lambdas/index.py:31-32, 41`.
- The infrastructure stack, the population fetchers and the fetch lambda are not part of
  this model.
- Report.RunReports: the subset only feeds the printed mean and standard deviation. Its
  content is stated by `Report.SubsetExact`, not by `RunReports`.
- `strptime`, `float()` and `json.loads` are parameters. Their formats (`%m/%d/%Y %I:%M %p`
  as UTC, Python's float syntax, JSON text) are not modelled; JSON numbers are integers.
- `\d`, `\w` and `\s` in the two scanners are the ASCII digit and word classes and Python's
  whitespace set. Unicode digits and letters that Python's `re` also accepts are not
  modelled, and neither are `int()`'s underscores and non-ASCII digits.
- `urljoin(BLS_ROOT, name)` is modelled as concatenation. That is what it does for a
  captured name that is neither `.` nor `..`, holds no `:`, no tab, CR or LF, does not start
  with a control character or a space, and does not end with an empty `?` or `#`. For the
  other names `urlsplit` resolves dot segments, may read a scheme, removes or strips those
  characters, or drops the empty query or fragment; those cases are not modelled.
- The bucket never fails a request, and there is no 1000-key limit per `delete_objects`.
  The delete batch is a set, so the order in which `to_delete` lists keys is not kept.
- MirrorSync.Sync: the HTTP status of a download is not checked, as in the code. A 4xx or
  5xx body is stored like any other, and only a failed request ends the run.
- Every object written in one run gets the same last-modified time `now`. A second run is
  therefore not claimed to be a no-op, since the stored times are write times.
- `read_csv` tokenisation is not modelled: the table arrives as a header and records of
  equal width. Duplicate column names resolve to the first column carrying the name.
- Report.Convert: pandas' `read_csv` type inference is not modelled; each cell is read with
  `int()` and `float()`. An empty `value` cell becomes NaN in pandas and the load succeeds,
  where the model fails with `BadReal` (`float("")` rejects it). A `year` column read as
  floats (`2013.0`) is truncated by `astype(int)`, where the model's `int()` rejects it.
- Report.LoadBls: an empty `period` cell is NaN in pandas, and the `startswith` query then
  raises `ValueError`, where the model filters the record out. A `series_id` of `NA` becomes
  NaN and `groupby` drops it, where the model keeps it as text.
- `json_normalize` flattening of nested records is not modelled. A population that is
  neither a number nor missing is a load error, not an object column.
- Report.SortByYear: pandas' `sort_values` is not stable. The model fixes only the order of
  years and the multiset of rows, not the order of rows within a year.
- TriggerEvent.Handler: loading the data and running the reports are the `reports`
  parameter. The model states that an extraction failure stops the handler before them,
  not what they read from the bucket.
- AddOnlySync.TwoFilesIntoEmptyBucket: the test's file names `pr.class` and
  `pr.data.0.Current` are generalised to any two distinct names without `/`.

Where the code and its intended behaviour differ, the model follows the code:

- The incremental mirror stores a download whatever its status.
- The handler raises `ValueError` on the S3 test event (it has no `Records`) instead of
  ignoring it.
- A field of the wrong type raises a `TypeError` that escapes the handler.
