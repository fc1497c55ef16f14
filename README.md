# papertrail — a verified model of its core

papertrail is a research-paper discovery app built on OpenAlex. A Next.js
front end searches and stores works, authors, topics and funders. Users keep
libraries, collections and lab spaces, and can export them as CSV or BibTeX.
A Python background worker writes an AI summary and tags for each stored
work.

This Dafny project models the parts of the system whose behaviour can be
stated once the store, the network and the language model are treated as
values or opaque functions:

- the summarisation worker (`worker/ai-worker.py`):
  - the SSRF URL policy and the guarded PDF download;
  - text resolution;
  - the tolerant parser of the model's reply;
  - the compare-and-swap job claim and the job lifecycle;
  - the backfill pass and the idle counter of the main loop;
- the OpenAlex data transforms: extraction, ingestion with de-duplication
  and level-ordered topic upserts, the grouped relation loads, stub hydration
  in chunks, citation enrichment guarded by a flag, the cache-first work
  lookup, and the query parameters of the OpenAlex client;
- the export serialisers:
  - CSV quoting as in section 2 of RFC 4180, with a formula-injection guard;
  - BibTeX escaping;
  - unique cite keys;
  - the checks on format and scope;
- plan limits and the `checkLimit` decision, lab permissions, lab roles and
  collection write access;
- the request checks of the lab-inquiry and saved-search endpoints;
- the global search cache: its key, find-or-create, and staleness;
- the page arithmetic of the pagination control, the topic graph's
  ancestry paths and element construction, and the small helpers in
  `lib/utils.ts`.

Each store table is a Dafny value: a `map` keyed the way the database keys
it, or a `seq` in the order the store lists rows. Code that changes state
step by step is modelled as classes or methods with loops and invariants:
- the worker's job store (`AiJobs.Store`);
- the ingestion database (`Store.Database`);
- the search-cache table (`SearchCache.CacheTable`);
- the saved-search table (`Searches.SavedSearches`).

Each of these is proved against a specification function. Pure code is
modelled as functions, with lemmas for the properties the source promises.
For example:
- CSV output reads back into the values that were written;
- BibTeX escaping can be undone;
- cite keys are distinct;
- a job is claimed by at most one of two racing workers;
- a URL with one blocked address is refused.

Files, one module each (`Text` holds shared string helpers that model
JavaScript's and Python's string built-ins; `Library` holds the shared row
types): `UrlPolicy`, `PdfFetch`, `LlmResponse`, `AiJobs`, `Extract`,
`Ingest`, `Store`, `Queries`, `Hydrate`, `Enrich`, `GetOrFetch`,
`OpenAlexClient`, `Export`, `SearchCache`, `Plans`, `LabPermissions`,
`Labs`, `Collections`, `Inquiries`, `Searches`, `TopicGraph`, `Pagination`,
`Utils`.

## Model

| member | source | states |
|---|---|---|
| UrlPolicy.Blocked | worker/ai-worker.py:69-70 | an address in a private block of RFC 1918, in 127/8, in 169.254/16 or in the other fixed special blocks is blocked; anything else is blocked only when the version-dependent classifier says so |
| UrlPolicy.TableMatchesRfcBlocks | worker/ai-worker.py:70 | the concrete IPv4 table covers exactly the RFC 1918, loopback, link-local and other special blocks |
| UrlPolicy.IsSafeUrl | worker/ai-worker.py:57-74 | the loop returns true exactly when the declarative policy holds: parsed, scheme http or https, a non-empty host, resolution succeeded, every address parses and none is blocked |
| UrlPolicy.EmptyResolutionIsSafe | worker/ai-worker.py:67-72 | a host that resolves to no address passes (the check over its addresses is vacuous) |
| UrlPolicy.AnyBlockedAddressRejects | worker/ai-worker.py:67-71 | one private, loopback or link-local address among the resolved ones rejects the URL |
| UrlPolicy.NonHttpSchemeRejected | worker/ai-worker.py:61-62 | any scheme other than http and https, the empty scheme of a relative URL included, is rejected whatever the host resolves to |
| PdfFetch.Requests | worker/ai-worker.py:79-101 | at most two GETs are sent, the first to the URL itself and the second only to the `Location` of a redirect; every URL requested passes the URL policy |
| PdfFetch.TextOfResponse | worker/ai-worker.py:102-120 | text comes exactly from a response without an error status, of at most 50 MiB, whose readable pages join to a non-blank text; that text cut to the character limit is then returned |
| PdfFetch.PdfText | worker/ai-worker.py:77-120 | text is returned only when the URL, and any redirect target, passed the URL policy; for a safe URL the result is the text of its own response, or, after a redirect to a safe target, of the target's response |
| PdfFetch.DownloadPdfText | worker/ai-worker.py:77-120 | the method sends exactly the requests of `Requests` and returns the text of `PdfText` |
| PdfFetch.TruncatedTextCanBeBlank | worker/ai-worker.py:117 | a text that is not blank but starts with at least the limit of spaces is returned as a blank prefix |
| PdfFetch.ResolveText | worker/ai-worker.py:126-134 | non-empty PDF text wins; otherwise the stored abstract when it is non-empty; a failed row lookup raises; a returned text is never empty |
| PdfFetch.GetTextForWork | worker/ai-worker.py:123-134 | no download without a non-empty source URL; otherwise the download requests and `ResolveText` of its text; every URL requested is safe |
| LlmResponse.FirstBreak | worker/ai-worker.py:187 | the position of the first line boundary, with none before it |
| LlmResponse.SplitLines | worker/ai-worker.py:187 | the lines hold no line boundary; an empty text has no lines |
| LlmResponse.SplitJoinedLines | worker/ai-worker.py:187 | lines without boundaries joined with `\n` split back into the same lines |
| LlmResponse.LineTags | worker/ai-worker.py:187 | the fallback yields at most one string candidate per line |
| LlmResponse.LineCandidate | worker/ai-worker.py:187 | a line gives a candidate exactly when it is not blank after stripping, and the candidate is the line stripped, cut of its leading and trailing `-`, and stripped again |
| LlmResponse.LineTagsPerLine | worker/ai-worker.py:187 | the fallback candidates correspond, in order, to the non-blank lines: the k-th candidate is the cleaned text of the k-th non-blank line, and every non-blank line has one |
| LlmResponse.CleanTagIsStripped | worker/ai-worker.py:195 | a tag that survives the final filter is exactly a non-empty text that stripping leaves unchanged |
| LlmResponse.CleanTag | worker/ai-worker.py:195 | non-strings are dropped; a kept candidate is clean, and a clean string is kept unchanged |
| LlmResponse.KeepStrings | worker/ai-worker.py:195 | the filter keeps at most the candidates it is given, each clean |
| LlmResponse.KeepStringsAppend | worker/ai-worker.py:195 | the filter works candidate by candidate, so it keeps their order |
| LlmResponse.KeepStringsKeepsCleanTags | worker/ai-worker.py:195 | a decoded list of clean strings passes the filter unchanged |
| LlmResponse.TakeTags | worker/ai-worker.py:195 | at most eight tags, a prefix of the list, and the whole list when it has at most eight |
| LlmResponse.AfterSummaryMarker | worker/ai-worker.py:175-176 | without `SUMMARY:` the text is unchanged; otherwise it is exactly the text after the first occurrence of the marker |
| LlmResponse.FirstAtIndex | worker/ai-worker.py:170 | the search for a marker finds its first occurrence |
| LlmResponse.SummaryOf | worker/ai-worker.py:169-192 | the summary is stripped; without `TAGS:` it is the stripped text after the first `SUMMARY:` (or all of it); with `TAGS:` first at t it is the stripped text after the first `SUMMARY:` of `content[..t]` (or all of `content[..t]`) |
| LlmResponse.TagsOf | worker/ai-worker.py:169-195 | no tags without `TAGS:`; parsed tags are at most eight, each stripped and non-blank (their source is stated by `TagsFromJson`, `TagsFromLines` and `DecoderRaisePropagates`) |
| LlmResponse.TagsText | worker/ai-worker.py:170-172 | the tags text is the stripped text after the first `TAGS:` |
| LlmResponse.TagCandidates | worker/ai-worker.py:180-187 | without a `[` or a `]` the candidates come from the line fallback; with the first `[` at i and the first `]` at j, a `]` before the `[` (an empty slice) falls back to the lines, otherwise the slice i..j is decoded: an array gives its items, a decode error falls back to the lines, and any other exception fails the parse with its message |
| LlmResponse.ParseLlmResponse | worker/ai-worker.py:163-197 | the reply is parsed exactly when the tags are, with summary `SummaryOf` and tags `TagsOf`; a failure passes the exception's message on; parsed tags are at most eight, each stripped and non-blank; the summary is stripped |
| LlmResponse.NoTagsMarker | worker/ai-worker.py:188-192 | without `TAGS:` there are no tags and the summary is the stripped text after the first `SUMMARY:` (or the whole text) |
| LlmResponse.SummaryStopsAtTagsMarker | worker/ai-worker.py:169-177 | with `TAGS:` first at t the summary is the stripped `content[..t]` when that has no `SUMMARY:`, and otherwise the stripped text from after the first `SUMMARY:` up to t; it never contains `TAGS:` |
| LlmResponse.TagsFromJson | worker/ai-worker.py:169-195 | when the slice from the first `[` through the first `]` of the tags text decodes to an array, the reply is the summary with the first eight clean string items of the array, in order |
| LlmResponse.TagsFromLines | worker/ai-worker.py:169-195 | when the tags text lacks a bracket, or its bracket slice is empty or fails to decode, the reply is the summary with the first eight clean candidates of its non-blank lines, in order |
| LlmResponse.CandidatesFromLines | worker/ai-worker.py:180-187 | with no decodable bracket slice the candidates are those of the line fallback |
| LlmResponse.DecoderRaisePropagates | worker/ai-worker.py:180-186 | an exception other than a decode error raised on the slice (such as `RecursionError`) is not caught by the parser: the parse fails with its message |
| AiJobs.NextPending | worker/ai-worker.py:208-216 | the chosen job is pending and no pending job comes before it by priority (higher first) and then creation time; none exactly when nothing is pending |
| AiJobs.StartIfPending | worker/ai-worker.py:224-230 | the conditional update changes a row exactly when the job is still pending, turning it into processing with its start time; every other job is unchanged |
| AiJobs.OneOfTwoClaimantsWins | worker/ai-worker.py:224-234 | of two claimants that selected the same job, the first update succeeds and the second changes nothing |
| AiJobs.StartKeepsOpenJobs | worker/ai-worker.py:224-230 | the claim never closes a job that was open |
| AiJobs.FindWork | worker/ai-worker.py:132 | the row found has the id asked for; none exactly when no row has it |
| AiJobs.AbstractOf | worker/ai-worker.py:132-133 | a missing row is a lookup error; otherwise the row's abstract |
| AiJobs.EndOfJob | worker/ai-worker.py:247-275 | a raised error fails the job with its message cut to 500 characters; no text fails it with "No text available for summarization"; it is summarised exactly when there is text and the model answered, with the parsed reply |
| AiJobs.NoSourceNoAbstractFails | worker/ai-worker.py:248-250 | a job without a source URL for a work without an abstract fails with the no-text message |
| AiJobs.MissingWorkFails | worker/ai-worker.py:247-275 | a job whose work row is missing, when the PDF gives nothing, fails with the lookup error's message |
| AiJobs.UpdateById | worker/ai-worker.py:255-275 | the update of a table by id, used for both the work and the job row, changes exactly the rows with that id, to `f` of themselves, and keeps the rest and the order |
| AiJobs.ProcessedJobIsFinished | worker/ai-worker.py:262-275 | after processing the job is completed or failed, and no longer open |
| AiJobs.BackfillCandidates | worker/ai-worker.py:286-294 | at most ten works, each with null summary, null `summary_generated` and an abstract |
| AiJobs.StartKeepsAtMostOneOpen | worker/ai-worker.py:224-230 | claiming keeps every work with at most one pending or processing job |
| AiJobs.FinishKeepsAtMostOneOpen | worker/ai-worker.py:262-275 | finishing a job keeps every work with at most one open job |
| AiJobs.Store.SelectNextPending | worker/ai-worker.py:208-221 | returns the job `NextPending` chooses, or none when nothing is pending |
| AiJobs.Store.StartIfStillPending | worker/ai-worker.py:224-233 | the table becomes `StartIfPending` of the old one, and the result says whether a row changed |
| AiJobs.Store.ClaimJob | worker/ai-worker.py:205-236 | `claim_job`: no job exactly when nothing is pending; otherwise the selected job, with the table updated by the conditional claim; at most one open job per work is kept |
| AiJobs.Store.ProcessJob | worker/ai-worker.py:239-275 | `process_job`: only safe URLs are requested, at most two; on failure only the job row changes; on success the work row gets summary, tags and the generated flag and then the job is completed |
| AiJobs.Store.FinishJob | worker/ai-worker.py:254-275 | the two writes of a finished job: the work row then the job row, or only the job row on failure |
| AiJobs.Store.MarkJob | worker/ai-worker.py:262-275 | the job table becomes the old one with the rows of that id updated, keeping at most one open job per work |
| AiJobs.Store.OpenJobExists | worker/ai-worker.py:302-309 | true exactly when the work has a pending or processing job |
| AiJobs.Store.InsertBackfillJob | worker/ai-worker.py:314-318 | appends one pending job of priority 0 carrying the work's open-access URL |
| AiJobs.Store.EnqueueBatchJobs | worker/ai-worker.py:283-321 | appends one pending job per candidate without an open job, at most ten, leaving older jobs as they were and no candidate with two open jobs; afterwards every candidate has an open job; the count returned is the number appended |
| AiJobs.BackfillSkip | worker/ai-worker.py:311-312 | skipping a candidate with an open job keeps the loop invariant |
| AiJobs.BackfillStep | worker/ai-worker.py:314-319 | inserting a job for a candidate without one keeps the loop invariant |
| AiJobs.AppendKeepsAtMostOneOpen | worker/ai-worker.py:314-318 | a new job for a work with no open job keeps at most one open job per work |
| AiJobs.OpenJobStaysOpen | worker/ai-worker.py:300-319 | appending jobs never hides an open job |
| AiJobs.CounterAfter | worker/ai-worker.py:336-355 | a claimed job leaves the counter; a backfill that does not raise resets it; otherwise an idle pass adds one |
| AiJobs.CounterCountsIdlePasses | worker/ai-worker.py:334-349 | without raising backfills the counter is the number of idle passes modulo four (or that number when backfill is disabled) |
| AiJobs.BackfillOnEveryFourthIdlePass | worker/ai-worker.py:344-349 | backfill runs exactly on every fourth idle pass |
| AiJobs.RaisingBackfillRetries | worker/ai-worker.py:345-355 | a backfill that raises leaves the counter at the threshold, so the next idle pass backfills again |
| AiJobs.DisabledNeverBackfills | worker/ai-worker.py:345 | with batch disabled, backfill never runs |
| AiJobs.Worker.Pass | worker/ai-worker.py:337-357 | one loop pass: a job is claimed exactly when one is pending; a claimed job is the one `NextPending` chose, started, and the work and job tables end as `FinishedTables` says for its outcome (`EndOfJob` of the text found for it); the counter moves as `CounterAfter` says; a backfill that runs and does not raise leaves the jobs `Backfilled`; an idle pass touches no work, and no job unless backfill runs and succeeds |
| Extract.StripOAPrefix | src/lib/openalex/extract.ts:18-20 | an id without the OpenAlex URL prefix is unchanged; with it, exactly the prefix's length is removed |
| Extract.StripsLeadingPrefix | src/lib/openalex/extract.ts:18-20 | a full OpenAlex URL strips to the short id that follows the prefix |
| Extract.StripAll | src/lib/openalex/extract.ts:65-73 | every id of a list is stripped, in order |
| Extract.PostingsOfEntry | src/lib/openalex/extract.ts:9-12 | one (position, word) pair per listed position of the word, in order |
| Extract.PostingsMembership | src/lib/openalex/extract.ts:8-13 | the collected pairs hold (p, w) exactly when w lists p in the index |
| Extract.Words | src/lib/openalex/extract.ts:15 | the words of the pairs, one per pair, in order |
| Extract.AbstractOrder | src/lib/openalex/extract.ts:14-15 | the words of an abstract are ordered by position and are a permutation of the listed (position, word) pairs |
| Extract.EmptyIndexGivesEmptyText | src/lib/openalex/extract.ts:7-15 | an index with no positions, such as `{}`, gives the empty text and not null |
| Extract.EmptyPostings | src/lib/openalex/extract.ts:8-13 | an index with no positions yields no pairs |
| Extract.ParseAbstract | src/lib/openalex/extract.ts:4-16 | the loop computes the abstract of the index, and null exactly for a null index |
| Extract.OpenAccessUrl | src/lib/openalex/extract.ts:24-44 | a non-empty `oa_url` wins; otherwise, when the primary location is open access, its PDF URL, else its landing page; otherwise the `oa_url` as it was |
| Extract.SourceColumns | src/lib/openalex/extract.ts:32-40 | the source id column is set exactly when the primary location has a source with a non-empty id |
| Extract.ExtractWork | src/lib/openalex/extract.ts:23-75 | the id is stripped; not a stub; title defaults to "Untitled" and citations to 0; the abstract is rebuilt; the open-access URL follows `OpenAccessUrl`; referenced ids are stripped (empty when absent) and related ids are stripped (null when absent) |
| Extract.InstitutionRowOf | src/lib/openalex/extract.ts:99-108 | an institution gives a row exactly when it has a non-empty id, and the row's id is stripped |
| Extract.InstitutionsOf | src/lib/openalex/extract.ts:99-113 | the rows are the institution rows of the listed institutions with an id, in order, with no de-duplication, and the links are one per row, naming the author and the row's id |
| Extract.ExtractAuthors | src/lib/openalex/extract.ts:78-117 | the authors are `AuthorRows`, the institutions `InstitutionRows` and the links `InstitutionLinks`: the in-order concatenation over the authorships with an author id of their own entries, institution rows and links; every such authorship, and only those, gives an author whose position is its index (so gaps are possible, positions increase); one link per institution row, each naming an emitted author |
| Extract.AuthorRowsFacts | src/lib/openalex/extract.ts:83-96 | each author entry is the entry of the authorship at its position, positions increase, and every authorship with an author id has its entry |
| Extract.InstitutionLinksFacts | src/lib/openalex/extract.ts:99-113 | the k-th link names the k-th institution row and one of the extracted authors |
| Extract.AddAuthor | src/lib/openalex/extract.ts:86-96 | adding the author of authorship i keeps positions increasing and adds its id and position |
| Extract.AddLinks | src/lib/openalex/extract.ts:99-113 | the institution links stay in step with the institution rows and name emitted authors |
| Extract.PushFresh | src/lib/openalex/extract.ts:135-143 | adding a row with an unseen id keeps the emitted ids distinct |
| Extract.PushLink | src/lib/openalex/extract.ts:187-191 | adding a link for an unseen topic keeps the link ids distinct |
| Extract.HierarchyRows | src/lib/openalex/extract.ts:131-174 | the domain, field and subfield rows are at levels 0-2, each with the id of the level above as parent (or none) |
| Extract.CandidateRowsBelong | src/lib/openalex/extract.ts:125-185 | every row the topics can contribute belongs to the hierarchy of one of them |
| Extract.PushUnseen | src/lib/openalex/extract.ts:133-143 | a hierarchy row is added, and its id seen, only when its id was not seen before |
| Extract.PushHierarchy | src/lib/openalex/extract.ts:131-174 | only unseen domain, field and subfield rows are added; ids stay distinct and the seen set is the emitted ids plus the topic's id |
| Extract.WalkTopic | src/lib/openalex/extract.ts:126-191 | one step of the topic loop keeps the invariant: seen set = emitted ids, ids distinct, every row from a walked topic, one link per emitted topic, only the first topic's link primary |
| Extract.SkipTopic | src/lib/openalex/extract.ts:128 | a topic whose id was already seen adds nothing and keeps the invariant |
| Extract.AddTopicRows | src/lib/openalex/extract.ts:131-185 | the hierarchy rows and the level-3 row of a new topic keep the row invariant |
| Extract.AddTopicLinks | src/lib/openalex/extract.ts:187-191 | the link of a new topic keeps the link invariant |
| Extract.PrimaryStays | src/lib/openalex/extract.ts:190 | only a link made from the topic at index 0 is primary |
| Extract.ExtractTopics | src/lib/openalex/extract.ts:120-195 | the rows and links are those of `TopicWalk`, the walk with one seen set for all four levels; emitted ids are distinct; every row belongs to some topic's hierarchy; exactly one link per emitted topic, only the first topic's link primary; with any topics, the first link is the first topic's, with its score (0 when absent), and primary |
| Extract.HierarchyStepGrows | src/lib/openalex/extract.ts:131-174 | the hierarchy step only appends rows and marks exactly the domain, field and subfield ids as seen |
| Extract.HierarchyStepFacts | src/lib/openalex/extract.ts:131-174 | the hierarchy step keeps the seen set equal to the emitted ids plus the topic's own id |
| Extract.TopicWalkGrows | src/lib/openalex/extract.ts:125-192 | the walk only extends the rows and links and enlarges the seen set |
| Extract.TopicWalkSeen | src/lib/openalex/extract.ts:125-192 | the seen set is exactly the set of emitted ids, and holds every topic id met so far, so a repeated topic is skipped |
| Extract.WalkedStep | src/lib/openalex/extract.ts:126-191 | a walked topic appends exactly its link, its own row is the last row emitted for it, and its domain, field and subfield ids are seen |
| Extract.TopicWalked | src/lib/openalex/extract.ts:126-191 | a walked topic's link sits at the index the links had reached before it, with its score (0 when absent) and primary exactly for index 0; its own row is emitted, and so are rows for its domain, field and subfield |
| Extract.LinksInTopicOrder | src/lib/openalex/extract.ts:187-191 | the links come in topic order |
| Extract.FirstTopicPrimary | src/lib/openalex/extract.ts:187-191 | the first topic is always walked and its link is the first one, and primary |
| Extract.ExtractSource | src/lib/openalex/extract.ts:198-212 | null exactly when there is no source with a non-empty id; otherwise the stripped id, the same as the work row's source column |
| Extract.ExtractFunders | src/lib/openalex/extract.ts:215-239 | one link per grant with a funder id, in order; the funder rows are `FunderRows`, the first-seen de-duplication of the grants' funders (name defaulting to "Unknown", country code kept as given); their ids are distinct; rows and links name the same funders |
| Extract.FunderRowsIds | src/lib/openalex/extract.ts:220-233 | the ids of the funder rows are exactly the funder ids of the grants |
| Extract.FunderRowsStep | src/lib/openalex/extract.ts:224-233 | a grant adds a funder row exactly when it is the first grant naming its funder |
| Extract.FunderRowsFirstSeen | src/lib/openalex/extract.ts:220-233 | the funder rows hold every funder id of the grants, each row is the row of the first grant naming its funder, and every first grant of a funder has its row |
| Extract.FunderRowsSound | src/lib/openalex/extract.ts:220-233 | every funder row is the row of a grant that is the first to name its funder |
| Extract.FunderRowsComplete | src/lib/openalex/extract.ts:220-233 | the first grant naming a funder always has its row among the funder rows |
| Extract.FunderRowsDistinct | src/lib/openalex/extract.ts:224-233 | no two funder rows share an id |
| Extract.RepeatedFunderGivesRepeatedLinks | src/lib/openalex/extract.ts:220-236 | two grants of one funder give two links with the same funder id |
| Export.Defused | src/app/api/export/route.ts:10-13 | a value starting with `=`, `+`, `-`, `@`, tab or CR gets a leading `'`, so the result never starts with one of them; the prefix does not change whether quoting is needed |
| Export.DoubleQuotes | src/app/api/export/route.ts:15 | doubling leaves a text without `"` unchanged |
| Export.UndoubleDoubleQuotes | src/app/api/export/route.ts:15 | un-doubling the doubled text gives the text back |
| Export.CsvEscape | src/app/api/export/route.ts:7-18 | null gives `""`; the output never starts with a formula character; a text with `,`, `"` or `\n` is wrapped in quotes whose inside un-doubles to the defused text, any other is the defused text |
| Export.CarriageReturnIsNotQuoted | src/app/api/export/route.ts:14 | a lone CR does not cause quoting |
| Export.ReadEscaped | src/app/api/export/route.ts:7-18 | a reader of RFC 4180 section 2 fields reads an escaped value back as its (defused) text, leaving what follows |
| Export.ReadQuotedField | src/app/api/export/route.ts:14-16 | a quoted field with doubled quotes reads back as its text |
| Export.ReadBareField | src/app/api/export/route.ts:17 | a field without separators or quotes reads back as itself |
| Export.ReadRecordOfValues | src/app/api/export/route.ts:24-34 | a row of escaped values joined with `,` reads back as one record of their texts |
| Export.ParseRows | src/app/api/export/route.ts:24-34 | rows joined with `\n` read back as one record per row |
| Export.AuthorNames | src/app/api/export/route.ts:21 | the authors' display names, in list order |
| Export.TopicNames | src/app/api/export/route.ts:22 | the topics' names, in list order |
| Export.CsvValues | src/app/api/export/route.ts:20-35 | nine values, matching the nine header columns: title, authors joined with `"; "`, year, DOI, source, citations defaulting to 0, topics joined with `"; "`, abstract, open-access URL |
| Export.WorkToCsvRowReadsBack | src/app/api/export/route.ts:20-35 | `WorkToCsvRow`: one work's CSV line reads back as one record of its nine values' texts |
| Export.PaperRows | src/app/api/export/route.ts:20-35 | one value row per work, in order |
| Export.HeaderIsRecord | src/app/api/export/route.ts:37 | the header is itself a record whose fields read back as the nine column names |
| Export.CsvRows | src/app/api/export/route.ts:20-35 | one CSV line per work, in order |
| Export.PaperRowsWritten | src/app/api/export/route.ts:20-35 | the written rows are the escaped value rows, and they read back as the values' texts |
| Export.ExportValuesWritten | src/app/api/export/route.ts:20-37 | the export is the header followed by one row per work, and reads back as the column names and the values' texts |
| Export.ExportCsvReadsBack | src/app/api/export/route.ts:7-37 | `ExportCsv`: the whole CSV export parses, by RFC 4180 section 2, into the header names followed by one record per work with its nine texts |
| Export.BibtexEscape | src/app/api/export/route.ts:52-54 | the escaped text is no shorter, and a text without special characters is unchanged |
| Export.BibtexRoundTrip | src/app/api/export/route.ts:52-54 | removing the backslash before each escaped character gives the text back, so a backslash goes before every `& % $ # _ { } ~ ^ \` and nothing else changes |
| Export.EntryType | src/app/api/export/route.ts:41-50 | the entry type is one of the eight table values, `misc` by default |
| Export.EscapedNames | src/app/api/export/route.ts:85 | each author name escaped, in order |
| Export.FieldIf | src/app/api/export/route.ts:83-101 | an optional field appears at most once |
| Export.BibFieldValue | src/app/api/export/route.ts:79-101 | `BibEntry`: the fields in order: title, then author, year, doi, venue, url, abstract, each only when present |
| Export.BibTitleAndAuthors | src/app/api/export/route.ts:81-87 | `BibEntry`: the title is always there, escaped; the author field, names escaped and joined with " and ", only when there are authors |
| Export.BibYear | src/app/api/export/route.ts:89 | `BibEntry`: the year field only for a non-zero year |
| Export.BibUrl | src/app/api/export/route.ts:98-99 | `BibEntry`: the url field only for a non-empty URL, and not escaped |
| Export.BibVenue | src/app/api/export/route.ts:91-97 | `BibEntry`: the source goes in `booktitle` for `inproceedings` and in `journal` otherwise, escaped, only when present |
| Export.FieldLines | src/app/api/export/route.ts:103 | `BibEntry`: one line per field, in order |
| Export.LastToken | src/app/api/export/route.ts:57-58 | the last run of non-space characters of the name (`split(/\s+/).pop()`) |
| Export.KeepAlnum | src/app/api/export/route.ts:60 | only ASCII letters and digits are kept, and an all-alphanumeric text is unchanged |
| Export.CiteBase | src/app/api/export/route.ts:57-60 | the base of a key is made of ASCII letters and digits only |
| Export.CiteKeys.MakeCiteKey | src/app/api/export/route.ts:56-68 | the key was not taken and is taken afterwards; it is the base, or the base plus the first letter from `a` upward whose key was free |
| Export.CiteKeys.TakeKey | src/app/api/export/route.ts:61-67 | the suffix loop: the first free key among base, base+"a", base+"b", ..., which becomes taken |
| Export.Entries | src/app/api/export/route.ts:73-104 | one entry per work, in order, with its chosen key |
| Export.KeysChosenStep | src/app/api/export/route.ts:63-66 | a new free key keeps the keys of the export pairwise distinct |
| Export.ChooseNextKey | src/app/api/export/route.ts:77 | the next work's key keeps the keys distinct and the taken set equal to them |
| Export.EntriesStep | src/app/api/export/route.ts:73-104 | one more work adds its entry at the end |
| Export.FormatBibtex | src/app/api/export/route.ts:70-106 | one entry per work, in order, joined with a blank line; the keys are pairwise distinct and each is its work's base or the base with the first free suffix |
| Export.DecideExport | src/app/api/export/route.ts:108-136 | not signed in, then over the plan limit, then a format other than csv or bibtex (400 "Invalid format"), then a scope other than library or collection (400 "Invalid scope"); otherwise the export proceeds, a collection only when an id is given |
| Ingest.FindIndexFacts | src/lib/openalex/ingest.ts:144-152 | `findIndex` gives -1 exactly when no row has the key, and otherwise the first row with it |
| Ingest.DedupeFacts | src/lib/openalex/ingest.ts:194-201 | the result's keys are pairwise distinct, it has the same keys as the input, and each kept row is the first row with its key |
| Ingest.DedupeOfDistinct | src/lib/openalex/ingest.ts:194-201 | rows with distinct keys are kept as they are |
| Ingest.DedupeIdempotent | src/lib/openalex/ingest.ts:194-201 | de-duplicating twice is de-duplicating once |
| Ingest.DedupeById | src/lib/openalex/ingest.ts:194-201 | the filter with a `seen` set computes the first-occurrence de-duplication, in order |
| Ingest.FilterFirstIsDedupe | src/lib/openalex/ingest.ts:144-152 | the `index === findIndex(...)` filter is the same first-occurrence de-duplication |
| Ingest.FirstAtOwnIndex | src/lib/openalex/ingest.ts:146-151 | a row is at the index `findIndex` returns for its key exactly when no earlier row has that key |
| Ingest.UpsertRowsRefused | src/lib/openalex/ingest.ts:112-114 | a batch upsert naming one conflict key twice is refused, and the table keeps exactly the rows it had |
| Ingest.UpsertDeduped | src/lib/openalex/ingest.ts:29-32 | a de-duplicated batch is accepted: every key of the rows is stored with the value of its first row, every other row is kept |
| Ingest.WorkRowOf | src/lib/openalex/ingest.ts:77-102 | the work row has the extracted id, title and citations, is never a stub, and keeps the columns the upsert does not name (summary, citation flag) from the row it replaces |
| Ingest.StubsFill | src/lib/openalex/ingest.ts:159-168 | inserting stubs with `ignoreDuplicates` adds a stub for each missing referenced id and leaves existing rows as they were |
| Ingest.WorksAfterFacts | src/lib/openalex/ingest.ts:77-168 | after ingesting, the work row is present and not a stub, other existing rows are unchanged, and every new row besides the work is a stub |
| Ingest.AtLevel | src/lib/openalex/ingest.ts:44-58 | the batch of a level holds exactly the rows at that level |
| Ingest.TopicBatchFacts | src/lib/openalex/ingest.ts:57-62 | one level's batch adds its keys and keeps every other topic row |
| Ingest.TopicsAfterFacts | src/lib/openalex/ingest.ts:39-63 | after the batches for levels 0 to 3, exactly the topics at those levels are written, each from its level's batch; topics at any other level are never written |
| Ingest.GroupByLevel | src/lib/openalex/ingest.ts:43-56 | the map holds a non-empty batch for exactly the levels present, each the rows at that level in sorted order |
| Ingest.WriteTopics | src/lib/openalex/ingest.ts:39-63 | the topics table becomes the level-by-level upsert of the sorted rows, parents before children; nothing else changes |
| Ingest.PairsAfterFacts | src/lib/openalex/ingest.ts:142-156 | the author-institution table gains exactly the pairs of the links |
| Ingest.TopicLinksStored | src/lib/openalex/ingest.ts:117-128 | every topic link of the work is stored with its score and primary flag |
| Ingest.AuthorLinksAsWrittenLost | src/lib/openalex/ingest.ts:105-115 | as written: when an author appears twice among the work's authors, the `work_authors` batch is refused and no link of the work is stored |
| Ingest.RepeatedAuthorshipRepeatsAuthor | src/lib/openalex/extract.ts:83-96 | two authorships naming one author give two extracted authors with the same id |
| Ingest.AuthorLinksStored | src/lib/openalex/ingest.ts:105-115 | corrected: with the links de-duplicated by author, every author of the work is linked, at the earliest position listed |
| Ingest.FunderLinksAsWrittenLost | src/lib/openalex/ingest.ts:131-140 | as written: two grants from one funder make the `work_funders` batch refused, so the work keeps none of its funder links |
| Ingest.FunderLinksStored | src/lib/openalex/ingest.ts:131-140 | corrected: with the links de-duplicated by funder, every funder of the work is linked, with the award of its first grant |
| Ingest.WriteSource | src/lib/openalex/ingest.ts:23-26 | the source row is written only when there is one |
| Ingest.WriteInstitutions | src/lib/openalex/ingest.ts:28-32 | the institutions are upserted de-duplicated by id, and only when there are any |
| Ingest.WriteFunders | src/lib/openalex/ingest.ts:34-37 | the funders are upserted only when there are any |
| Ingest.WriteAuthors | src/lib/openalex/ingest.ts:65-74 | the author rows are upserted de-duplicated by id, and only when there are any |
| Ingest.WriteWorkRow | src/lib/openalex/ingest.ts:76-102 | the work's row is upserted as `WorkRowOf` |
| Ingest.WriteAuthorLinks | src/lib/openalex/ingest.ts:104-115 | corrected: the author links are upserted de-duplicated on (work, author) |
| Ingest.WriteTopicLinks | src/lib/openalex/ingest.ts:117-128 | the topic links are upserted only when there are any |
| Ingest.WriteFunderLinks | src/lib/openalex/ingest.ts:130-140 | corrected: the funder links are upserted de-duplicated on (work, funder) |
| Ingest.WritePairs | src/lib/openalex/ingest.ts:142-156 | the author-institution pairs are upserted de-duplicated on the pair |
| Ingest.WriteReferences | src/lib/openalex/ingest.ts:158-180 | a stub is inserted for each missing referenced id and exactly one citing-to-cited edge per referenced id is added |
| Ingest.IngestWork | src/lib/openalex/ingest.ts:15-183 | corrected: returns the extracted work, and every table ends as `TablesAfterIngest` says: each extracted collection written by its writer in the order of the source, with the author and funder links de-duplicated per work (`WriteAuthorLinks`, `WriteFunderLinks`); the saved works are untouched |
| Ingest.IngestedAfter | src/lib/openalex/ingest.ts:15-183 | ingesting keeps every existing work id and leaves the work present |
| Ingest.IngestStep | src/lib/openalex/ingest.ts:188-190 | one more ingested work keeps every earlier one present |
| Ingest.IngestWorks | src/lib/openalex/ingest.ts:186-192 | one extracted work per input, in input order; every one is present afterwards and no work id is lost; every table afterwards is `TablesAfterAll`, the ingestion of each work in input order on top of the tables the previous one left |
| Ingest.TablesAfterAllStep | src/lib/openalex/ingest.ts:188-190 | ingesting one more work applies `TablesAfterIngest` to the tables the works before it left |
| Ingest.TablesAfterAllKeeps | src/lib/openalex/ingest.ts:186-192 | any sequence of ingestions leaves the saved works unchanged and removes no work row |
| Store.Upsert | src/lib/openalex/ingest.ts:25-155 | a batch upsert succeeds exactly when its conflict keys are distinct, and then stores every row under its key and keeps every other row |
| Store.UpsertKeys | src/lib/openalex/ingest.ts:153-155 | an upsert into a key-only table succeeds exactly when the keys are distinct, and adds them |
| Store.InsertMissing | src/lib/openalex/ingest.ts:166-168 | an insert with `ignoreDuplicates` adds the missing keys and never changes an existing row |
| Store.InsertMissingFirst | src/lib/openalex/ingest.ts:166-168 | a key missing before gets the row of its first occurrence |
| Store.OverwriteFacts | src/lib/openalex/ingest.ts:25-155 | writing rows in order stores each key's last row, adds the keys and keeps the rest |
| Store.ListKeys | src/lib/supabase/queries.ts:20-24 | an `in` filter lists each stored key whose first column is among the ids exactly once |
| Queries.ReadAuthorships | src/lib/supabase/queries.ts:20-24 | the rows read are the stored `work_authors` rows of the listed keys, in order |
| Queries.ReadTopicScores | src/lib/supabase/queries.ts:40-44 | the rows read are the stored `work_topics` rows of the listed keys, in order |
| Queries.SelectAuthorships | src/lib/supabase/queries.ts:20-24 | exactly the author links of the page's works, ordered by position |
| Queries.SelectTopicScores | src/lib/supabase/queries.ts:40-44 | exactly the topic links of the page's works, ordered by descending score |
| Queries.SavedFlag | src/lib/supabase/queries.ts:59-68 | `is_saved` is present exactly when a user id is given, and true exactly when that id is non-empty and the user saved the work |
| Queries.AttachAuthors | src/lib/supabase/queries.ts:89-101 | the loop keeps the links whose author row was found, in link order |
| Queries.AttachTopics | src/lib/supabase/queries.ts:103-115 | the loop keeps the links whose topic row was found, in link order |
| Queries.AttachedAuthors | src/lib/supabase/queries.ts:89-101 | a work's authors are exactly its links with an existing author row, carrying the row's name and the link's position and flag, in ascending position |
| Queries.AttachedTopics | src/lib/supabase/queries.ts:103-115 | a work's topics are exactly its links with an existing topic row, in descending score |
| Queries.GroupBy | src/lib/supabase/queries.ts:70-83 | each key's group is exactly the rows with that key, in their order; a key without rows has no group |
| Queries.AuthorshipsOfWork | src/lib/supabase/queries.ts:70-76 | one work's group holds exactly its author links, still ordered by position |
| Queries.TopicScoresOfWork | src/lib/supabase/queries.ts:78-83 | one work's group holds exactly its topic links, still ordered by score |
| Queries.FoundAuthors | src/lib/supabase/queries.ts:26-37 | the author map answers exactly for the linked ids whose row exists |
| Queries.FoundTopics | src/lib/supabase/queries.ts:46-57 | the topic map answers exactly for the linked ids whose row exists |
| Queries.ReadAuthorGroups | src/lib/supabase/queries.ts:19-37 | every page work finds its ordered author links, and the map answers for their authors |
| Queries.ReadTopicGroups | src/lib/supabase/queries.ts:39-57 | every page work finds its ordered topic links, and the map answers for their topics |
| Queries.ReadSavedIds | src/lib/supabase/queries.ts:59-68 | the saved ids are exactly the page works the (non-empty) user saved |
| Queries.AssembleWork | src/lib/supabase/queries.ts:86-122 | the view of one work: its own fields, its authors and topics as stored, and the saved flag |
| Queries.AssemblePage | src/lib/supabase/queries.ts:86-123 | one view per work, in page order |
| Queries.LoadWorksWithRelations | src/lib/supabase/queries.ts:10-124 | one entry per input work, in order, each keeping the work's fields and carrying its authors by position and topics by score (links to missing rows dropped) and, for a given user, the saved flag; an empty page gives `[]` |
| Hydrate.ConcatAppend | src/lib/openalex/hydrate.ts:71-73 | concatenating result lists works part by part |
| Hydrate.ChunksFacts | src/lib/openalex/hydrate.ts:59-62 | every chunk holds between 1 and n ids, and the chunks concatenate to the input |
| Hydrate.ChunksStep | src/lib/openalex/hydrate.ts:60-61 | the chunks are the first `min(n, len)` ids followed by the chunks of the rest |
| Hydrate.SelectStubs | src/lib/openalex/hydrate.ts:30-34 | the lookup of one chunk lists exactly its ids whose row is a stub, each once |
| Hydrate.SliceChunks | src/lib/openalex/hydrate.ts:59-62 | the stride loop builds exactly the chunks of the input |
| Hydrate.FindStubs | src/lib/openalex/hydrate.ts:26-38 | the lookups are the chunks of at most 200 unique ids; the stub ids are exactly the unique ids whose row is a stub, each once |
| Hydrate.FetchAllAppend | src/lib/openalex/hydrate.ts:66-74 | fetching two runs of chunks gives the two results concatenated |
| Hydrate.FetchGroup | src/lib/openalex/hydrate.ts:67-73 | one group's results are its chunks' results concatenated in chunk order |
| Hydrate.FetchPages | src/lib/openalex/hydrate.ts:64-76 | the groups of `concurrency` chunks together give every chunk's results in chunk order |
| Hydrate.BatchGetWorksAll | src/lib/openalex/hydrate.ts:55-77 | the ids are cut into consecutive chunks of at most 100 whose concatenation is the input, and the results are concatenated in chunk order |
| Hydrate.HydrateStubs | src/lib/openalex/hydrate.ts:19-49 | lookups of at most 200 ids and requests of at most 100; exactly the stubs among the ids are requested, each once; the count is the number of works returned (not of stubs); a zero count writes nothing; otherwise every returned work is ingested, no work id is lost, and every table is `TablesAfterAll` of the returned works in page order |
| Enrich.EnrichedFacts | src/lib/openalex/enrich-citations.ts:32-52 | every cited and citing id gets a stub unless it had a row, existing rows stay, the edges work-to-cited and citing-to-work are present, and the work is flagged fetched so it is no longer pending |
| Enrich.EnrichCitations | src/lib/openalex/enrich-citations.ts:12-55 | Semantic Scholar is asked exactly when the work exists and is not yet fetched; otherwise `{0,0}` and nothing written; when asked, the counts are the two list lengths and the tables are the enriched ones, so a second call is a no-op |
| GetOrFetch.LoadAuthors | src/lib/openalex/get-or-fetch.ts:48-76 | the work's authors are exactly its links with an existing author row, in position order |
| GetOrFetch.LoadTopics | src/lib/openalex/get-or-fetch.ts:78-106 | the work's topics are exactly its links with an existing topic row, in descending score order |
| GetOrFetch.LoadWorkFromDb | src/lib/openalex/get-or-fetch.ts:36-112 | null exactly for a missing work; otherwise the row with its stored authors and topics |
| GetOrFetch.GetOrFetchWork | src/lib/openalex/get-or-fetch.ts:16-34 | a cached non-stub work is returned with no fetch and no write; otherwise OpenAlex is asked; a null answer gives null with no write; an answer is ingested, leaving every table as `TablesAfterIngest` of it, and the work is read back from the store, and found as a non-stub when OpenAlex answered under the id asked for |
| OpenAlexClient.LookupFound | src/lib/openalex/client.ts:15-17 | a parameter is absent exactly when its key is not set, and a found value is the one set |
| OpenAlexClient.BuildParams | src/lib/openalex/client.ts:3-13 | `api_key` is set when a key is configured, else `mailto` when an email is; never both, nothing else |
| OpenAlexClient.YearBounds | src/lib/openalex/client.ts:35-41 | at most two bounds, and none exactly when neither year is given (or both are 0) |
| OpenAlexClient.YearBoundsInclusive | src/lib/openalex/client.ts:36-41 | `>(from-1)` and `<(to+1)` admit exactly the years from `from` to `to`, both included |
| OpenAlexClient.YearFilter | src/lib/openalex/client.ts:35-44 | no `filter` parameter exactly when neither year is given |
| OpenAlexClient.SortParam | src/lib/openalex/client.ts:47-60 | `cited_by_count`, `newest` and `oldest` map to `cited_by_count:desc`, `publication_date:desc` and `publication_date:asc`; any other value gives no `sort` parameter |
| OpenAlexClient.SearchRequest | src/lib/openalex/client.ts:19-62 | the search goes to `/works` with the auth parameters plus three to five others |
| OpenAlexClient.SearchRequestParams | src/lib/openalex/client.ts:29-60 | the keys are distinct; auth as `buildParams`; `search`, `page` (default 1), `per_page` (default 20); `filter` and `sort` as `YearFilter` and `SortParam` |
| OpenAlexClient.YearClauses | src/lib/openalex/client.ts:35-41 | the loop pushes one rendered clause per year bound, in order |
| OpenAlexClient.SearchParams | src/lib/openalex/client.ts:29-60 | the step-by-step parameter record is the one `SearchRequest` describes |
| OpenAlexClient.ListOutcome | src/lib/openalex/client.ts:65-67 | a non-ok status throws; otherwise the results, or `[]` when absent |
| OpenAlexClient.GetWorkRequest | src/lib/openalex/client.ts:73-77 | the work is requested at `/works/<id>` with the auth parameters |
| OpenAlexClient.GetWorkOutcome | src/lib/openalex/client.ts:78-80 | 404 gives null; any other non-ok status throws; an ok status gives the body |
| OpenAlexClient.BatchRequest | src/lib/openalex/client.ts:86-91 | no request exactly for an empty id list; otherwise a request to `/works` |
| OpenAlexClient.BatchRequestParams | src/lib/openalex/client.ts:87-89 | the keys are distinct; auth as `buildParams`; `filter` is `openalex:` and the ids joined with `\|`; `per_page` is min(len, 100) |
| OpenAlexClient.BatchFilterRoundTrip | src/lib/openalex/client.ts:88 | the filter value, split on `\|` after its prefix, gives the ids back when no id contains `\|` |
| SearchCache.ShownYear | src/lib/search-cache.ts:12 | a year field is empty exactly when the year is absent, and never holds the separator |
| SearchCache.QueryHash | src/lib/search-cache.ts:6-13 | the cache key always carries its three separators |
| SearchCache.HashIgnoresCase | src/lib/search-cache.ts:12 | lower-casing the query first does not change the key |
| SearchCache.HashIgnoresPadding | src/lib/search-cache.ts:12 | leading and trailing JavaScript whitespace around the query does not change the key |
| SearchCache.HashOfTrimmed | src/lib/search-cache.ts:12 | the key of the trimmed query is the key of the query, so the trimmed text stored in a row hashes to that row's key |
| SearchCache.HashFields | src/lib/search-cache.ts:12 | when neither the normalised query nor the sort holds a `\|`, splitting the key at `\|` gives back the normalised query, the two shown years and the sort |
| SearchCache.SplitFour | src/lib/search-cache.ts:12 | four separator-free fields joined by the separator split back into those four fields |
| SearchCache.HashDistinguishes | src/lib/search-cache.ts:6-13 | two separator-free searches with the same key agree on normalised query, both year bounds and sort (the key is injective on them) |
| SearchCache.YearShownOnce | src/lib/search-cache.ts:12 | two year fields that read the same come from the same optional year |
| SearchCache.NewCacheRow | src/lib/search-cache.ts:36-47 | a new row stores the trimmed query, the work ids and the count, and its key is the key of what it stores |
| SearchCache.CacheRowsInsert | src/lib/search-cache.ts:36-51 | inserting a fresh row under its own key keeps the table keyed by hash, with ids below the next id |
| SearchCache.CacheTable.FindOrCreate | src/lib/search-cache.ts:15-52 | afterwards the key of the parameters is in the table and the row returned is the one under it; an existing key leaves the table unchanged, a new one inserts exactly the new row and advances the id |
| SearchCache.IsCacheStale | src/lib/search-cache.ts:54-57 | a cache row without a refresh time is never stale |
| SearchCache.StaleLater | src/lib/search-cache.ts:54-57 | a stale row stays stale at any later time, and a row is fresh up to exactly its maximum age |
| SearchCache.DefaultFourHours | src/lib/search-cache.ts:54-57 | without a maximum age a row is stale exactly when more than four hours (14 400 000 ms) have passed since its refresh |
| Plans.PaidPlans | src/lib/plans.ts:3-38 | `Limits`, `IsPaid`: a plan is paid exactly when it can export and exactly when it has on-demand summaries; both paid plans have the same limits; only the free plan has a daily search limit; paid plans reach more citation hops |
| Plans.GetUserPlan | src/lib/supabase/plans.ts:9-36 | without a live (active or trialing) subscription the user is on the free plan; otherwise the first live subscription gives plan, status and period end, with cancel-at-period-end defaulting to false |
| Plans.GetDailyUsage | src/lib/supabase/plans.ts:41-58 | a missing usage row for the day reads as zero for every counter, and a missing counter in a row reads as zero |
| Plans.CollectionNoun | src/lib/supabase/plans.ts:109 | the collection-limit message uses the singular noun exactly when the limit is one |
| Plans.PaidAllowsAll | src/lib/supabase/plans.ts:64-135 | `CheckLimit`: on a paid plan every action is allowed without reading any counter |
| Plans.FreeLimits | src/lib/supabase/plans.ts:72-134 | `CheckLimit`: on the free plan a search is allowed exactly below 50 searches today, saving a paper exactly below 50 saved papers, creating a collection exactly with no collection yet; summaries and export are refused |
| Plans.NoSubscriptionIsFree | src/lib/supabase/plans.ts:21-28 | a user without a live subscription is checked against the free plan |
| Plans.VerdictFromCounter | src/lib/supabase/plans.ts:69-134 | `CheckLimit`: the verdict depends only on the plan and the one counter the action reads |
| LabPermissions.Default | src/lib/supabase/lab-permissions.ts:12-27 | a default exists exactly for the admin and member roles |
| LabPermissions.Defaults | src/lib/supabase/lab-permissions.ts:12-27 | admins default to every permission; members default to posting announcements, uploading files and lab notes, and not to creating collections or scheduling journal clubs |
| LabPermissions.StoredPermissions | src/lib/supabase/lab-permissions.ts:44-50 | non-empty stored settings come from the single lab row with that id |
| LabPermissions.NonMemberDenied | src/lib/supabase/lab-permissions.ts:40-41 | `HasLabPermission`: a user who is not a member of the lab has no permission |
| LabPermissions.OwnerAllowed | src/lib/supabase/lab-permissions.ts:42 | `HasLabPermission`: the owner has every permission whatever the lab's settings |
| LabPermissions.SettingDecides | src/lib/supabase/lab-permissions.ts:44-51 | `HasLabPermission`: for any other role a stored setting for role and permission decides; without one the default for the role decides; a role with neither is refused |
| LabPermissions.ViewEntries | src/lib/supabase/lab-permissions.ts:57-73 | `GetLabPermissions`: the admin and member views hold every permission, take a stored value over the default, and hold no key that is neither a default nor stored |
| LabPermissions.ViewMatchesCheck | src/lib/supabase/lab-permissions.ts:34-73 | `GetLabPermissions`: for an admin or member, the permission view agrees with the per-permission check |
| Collections.VerifyCollectionOwnership | src/lib/supabase/collections.ts:7-19 | a collection is returned only when it is a shared collection with that id in that lab |
| Collections.OwnershipNeedsLab | src/lib/supabase/collections.ts:7-19 | no collection is found for a lab with no shared collections |
| Collections.WriteAccess | src/lib/supabase/collections.ts:26-49 | `HasLabCollectionWriteAccess`: a collection outside the lab gives no access; otherwise access holds exactly for an owner or admin, the creator, or a listed contributor |
| Collections.AccessImpliesShared | src/lib/supabase/collections.ts:34-35 | `HasLabCollectionWriteAccess`: write access implies the collection is shared in that lab |
| Collections.DuplicateContributorRefused | src/lib/supabase/collections.ts:41-48 | `IsContributor`: any two contributor rows for the pair, wherever they sit among other rows, read as no contributor, because the single-row read fails on more than one row |
| Labs.RequireLabRole | src/lib/supabase/labs.ts:7-23 | no role without exactly one membership row for lab and user, or when the role is outside the required roles; otherwise the role of that row |
| Labs.RoleFilterNarrows | src/lib/supabase/labs.ts:20-22 | a role returned under a role filter is the unfiltered role and is one of the filter's roles |
| Labs.GetUserLab | src/lib/supabase/labs.ts:28-52 | no lab exactly when the user has no membership; otherwise the lab and role of the user's first membership, with the lab's name or the empty string |
| Labs.DetailMap | src/lib/supabase/labs.ts:75-77 | the map holds, under each requested id, a fetched collection with that id, and holds every fetched collection that was requested |
| Labs.LoadLabCollections | src/lib/supabase/labs.ts:58-86 | a lab with nothing shared yields nothing, and never more entries than shared rows |
| Labs.LabCollectionsSound | src/lib/supabase/labs.ts:79-85 | every entry comes from a shared row and the collection it names, with pinned defaulting to false |
| Labs.LabCollectionsComplete | src/lib/supabase/labs.ts:79-85 | every shared row whose collection exists yields an entry with its id and pinned flag |
| Labs.LabCollectionsInOrder | src/lib/supabase/labs.ts:79-85 | the entries follow the shared rows in order, one per row whose collection exists: the k-th entry has the id and pinned flag (false by default) of the k-th such row |
| Labs.ValidateInviteRole | src/lib/supabase/labs.ts:88-100 | a role is accepted exactly when it is member or admin, and is returned unchanged; owner is refused |
| Inquiries.EmailOkMatchesPattern | src/app/api/labs/inquiries/route.ts:4 | the scanning test accepts exactly the strings the email pattern matches: a run, `@`, a run, a dot, a run, each non-empty and free of white space and `@` |
| Inquiries.PatternPositions | src/app/api/labs/inquiries/route.ts:4 | any three non-empty plain runs joined as local@domain.tld pass the email test |
| Inquiries.EmailShape | src/app/api/labs/inquiries/route.ts:4 | an accepted address holds exactly one `@`, not at either end, and no white space |
| Inquiries.TrimmedOrNull | src/app/api/labs/inquiries/route.ts:43-45 | an optional field is stored trimmed, and as null when absent or blank after trimming |
| Inquiries.InquiryAccepted | src/app/api/labs/inquiries/route.ts:9-54 | `PostInquiry`: an insert is attempted exactly when every field check passes, and with the normalised row; a refused inquiry gets 400 and attempts nothing; an accepted one gets 201, or 500 when the insert fails |
| Inquiries.FirstFailureDecides | src/app/api/labs/inquiries/route.ts:19-24 | `PostInquiry`: a missing or blank name or email is reported as such before anything else, and a malformed email is reported before any length check |
| Inquiries.RowNormalised | src/app/api/labs/inquiries/route.ts:40-46 | `NormalRow`: the stored name is trimmed and non-empty, the email trimmed and lower-cased with its single `@`, blank institution and message stored as null, and a stored lab size is one of the four allowed sizes |
| Inquiries.LowerKeepsAt | src/app/api/labs/inquiries/route.ts:42 | lower-casing keeps the number of `@` characters |
| Searches.SearchAccepted | src/app/api/searches/route.ts:31-51 | `CheckSearch`: a request is accepted exactly when the body parsed, the query is non-blank and at most 500 characters, work ids are a non-empty list and the result count is non-negative; the accepted parameters are the body's fields |
| Searches.NewSavedRow | src/app/api/searches/route.ts:64-75 | the saved row belongs to the user, stores the trimmed query and the cache row's id, and its fields hash to the same cache key as the request |
| Searches.IdsBelowAppend | src/app/api/searches/route.ts:64-77 | appending a row with the next id keeps all ids below the advanced counter |
| Searches.SavedSearches.Record | src/app/api/searches/route.ts:53-77 | a key already cached leaves the cache as it was; a new key adds exactly one cache row under it with the next id; exactly one saved row pointing at that cache row is appended |
| Searches.SavedSearches.Append | src/app/api/searches/route.ts:64-77 | the row is appended and the id counter advances |
| Searches.SavedSearches.Post | src/app/api/searches/route.ts:26-85 | a refused request gets 400 with its message and changes neither table; an accepted one gets 201 with the appended row, whose key is the key of the cache row it points at; as in `Record`, a key already cached leaves the cache as it was and a new key adds one cache row with the next id |
| Searches.RecentSearchesFacts | src/app/api/searches/route.ts:11-16 | `RecentSearches`: the listing holds at most ten of the user's own rows, newest first; all of them when there are at most ten, and otherwise none older than one it shows |
| TopicGraph.TopicMap | src/components/topic-graph.tsx:53 | an id is a key exactly when some topic has it, and the topic stored under it is one with that id |
| TopicGraph.Parent | src/components/topic-graph.tsx:41-43 | a topic's parent is found only through a present parent id, and is the topic the map holds under it |
| TopicGraph.PathNamesBound | src/components/topic-graph.tsx:33-46 | once the chain of parents ends within a bound, any larger bound gives the same path |
| TopicGraph.PathShape | src/components/topic-graph.tsx:33-46 | the path lists names from a root topic down to the topic's own name, and when no name holds `/`, splitting the joined path at `/` gives the names back |
| TopicGraph.SelfParentEndless | src/components/topic-graph.tsx:39-44 | a topic that is its own parent never reaches a root, whatever the bound |
| TopicGraph.BuildAncestryPath | src/components/topic-graph.tsx:33-46 | the loop that prepends names while walking up returns the root-first names joined by `/` |
| TopicGraph.GroupByLevel | src/components/topic-graph.tsx:57-62 | there is one group per level that occurs, in first-seen order without repeats, holding that level's topics in input order |
| TopicGraph.GroupsAreOfLevels | src/components/topic-graph.tsx:57-62 | any grouping with those properties is the grouping by level |
| TopicGraph.FractionRange | src/components/topic-graph.tsx:73 | position i of a group of n, divided by max(n, 1), lies in [0, 1) |
| TopicGraph.FractionsOkSet | src/components/topic-graph.tsx:72-74 | recording a topic's position in its sorted group keeps every fraction in [0, 1) and a position in some group |
| TopicGraph.PlaceGroup | src/components/topic-graph.tsx:66-75 | after sorting one group every topic of it has a well-placed fraction, and earlier fractions are kept |
| TopicGraph.SortFractions | src/components/topic-graph.tsx:65-75 | every topic of every level gets a fraction, each in [0, 1) and equal to its position in its sorted group over the group's size |
| TopicGraph.ConcentricOrder | src/components/topic-graph.tsx:83 | a topic of a lower level always gets a larger concentric value than one of a higher level, whatever their fractions |
| TopicGraph.Nodes | src/components/topic-graph.tsx:77-85 | one node per topic, in order |
| TopicGraph.NodesFacts | src/components/topic-graph.tsx:77-85 | each node carries the topic's id, name, level and work count (zero when missing), with a concentric value in [4 - level, 5 - level), so lower levels sit further in |
| TopicGraph.BuildElements | src/components/topic-graph.tsx:52-98 | the nodes are built from fractions that place every topic by its sorted ancestry path, and the edges are the parent edges |
| TopicGraph.EveryTopicPlaced | src/components/topic-graph.tsx:65-75 | placing every group places every topic |
| TopicGraph.EdgesExactly | src/components/topic-graph.tsx:87-95 | `Edges`: there is an edge `e-parent-child` from each topic's parent exactly when that parent is among the topics, and no other edge |
| Pagination.CeilDiv | src/components/pagination.tsx:18 | the quotient rounded up: the smallest r with r times the divisor at least the dividend |
| Pagination.TotalPages | src/components/pagination.tsx:18 | finite exactly for a non-zero page size, and then the ceiling of the quotient whatever the signs; a zero page size gives an infinity of the count's sign, or `NaN` for no items |
| Pagination.PageCountFits | src/components/pagination.tsx:18 | the page count is zero exactly for no items, holds every item, and leaves no page empty |
| Pagination.ShownIffMoreThanOnePage | src/components/pagination.tsx:18-19 | `Render`: the control is shown exactly when the items do not fit on one page |
| Pagination.ButtonsStayInRange | src/components/pagination.tsx:23-41 | `Render`: Previous is enabled exactly past the first page and Next exactly before the last, and an enabled button targets the neighbouring page, which exists |
| Pagination.ZeroPageSize | src/components/pagination.tsx:18-19 | `Render`: with a page size of zero the count is not a number or infinite: the control is shown, with Next enabled, for any non-negative total, and hidden for a negative one |
| Utils.IsSafeUrl | src/lib/utils.ts:8-16 | a link is safe exactly when it is present, non-empty, parses, and has protocol `http:` or `https:` |
| Utils.OtherProtocolsUnsafe | src/lib/utils.ts:8-16 | `javascript:`, `data:` and `file:` links, and unparseable ones, are unsafe |
| Utils.LevelName | src/lib/utils.ts:18-26 | levels 0 to 2 read Domain, Field and Subfield, and every other level reads Topic; a name is Topic exactly for the other levels, so the four level names are distinct |

## Left out

- The Supabase and PostgREST query builders are not modelled as such. Each table is an in-memory value (a map keyed as the database keys it, or a sequence in the order the store lists rows). Each query is the filter, order, limit, conditional update, insert or upsert it performs.
- Store errors are mostly left out. Reads that fail are taken as reading nothing, which is also how the source treats a `null` result. Writes whose outcome the source ignores are modelled as applied, except batch upserts, which the store refuses on a repeated key (see Findings).
- Network calls are parameters: the PDF download, the language-model request, OpenAlex, Semantic Scholar and Stripe. Each is a function or value giving a status, a body or an error.
- Name resolution and address classification are parameters. `socket.getaddrinfo` is an input list of addresses. Python's `ipaddress` is concrete only for the IPv4 blocks of RFC 1918, RFC 1122, RFC 3927 and RFC 6890. Other IPv4 reserved classes, and all IPv6 addresses, go through an abstract classifier.
- URL parsing is a parameter: Python's `urlparse`, and JavaScript's `new URL` and `URLSearchParams`. Only the scheme or protocol, the host and the parameter list are modelled.
- PDF text extraction (PyMuPDF), the language model itself and `json.loads` are opaque functions. A decoded JSON value is only as detailed as the tag reader needs: an array of strings and other values.
- These are left out: prompt loading and substitution, environment configuration (except the OpenAlex key and email, which are parameters), logging, and `time.sleep`.
- The clock is an integer parameter: `datetime.now`, `Date.now` and `new Date().toISOString()`.
- The current user is a parameter. Authentication (`requireApiUser`) is not part of this model.
- Concurrency: only the atomic conditional update of the job claim is modelled, as the race lemma between two claimants. The backfill's check-then-insert race is not modelled. `Promise.all` in hydration and enrichment runs its tasks in sequence.
- The language model's reply text and the error message of an exception are inputs. `str(e)` is whatever text the failure carries.
- `localeCompare` in the topic graph is an abstract rank on strings. Paths of equal rank compare equal, and the sort is stable.
- `TopicGraph.BuildAncestryPath`: the path is specified only for parent chains that reach a root within a bound, which a ghost parameter carries. On a cyclic chain the source loops forever (`TopicGraph.SelfParentEndless`), so there is no result to state.
- `TopicGraph.BuildElements`: requires every topic's chain to end within the bound, for the same reason.
- Graph rendering, Cytoscape layouts and every other React component are left out, and so is the page the pagination control renders.
- `Text.Lower` lower-cases ASCII letters only, whereas JavaScript's `toLowerCase` covers all of Unicode.
- String lengths are counted in Dafny characters, whereas JavaScript counts UTF-16 code units. The two differ only for characters outside the Basic Multilingual Plane.
- JavaScript numbers are integers in the model: years, counts, scores, page numbers and page sizes. The one case where floating point shows, division by a zero page size, is spelt out in `Pagination`. The topic graph's fractions are Dafny reals.
- A request body that is not JSON, or a field of the wrong type, is a field read as absent (`None`) or a body marked unparsed.
- `.single()` is modelled as giving a row only when exactly one row matches, and `.maybeSingle()` the same way. `.limit(1).single()` gives the first row.
- `Export.CiteKeys.MakeCiteKey`, `Export.CiteKeys.TakeKey`: require fewer used keys than `Export.MaxSuffixes` (55 199), the suffixes from `a` up to the first surrogate code point. `String.fromCharCode` beyond that range is not modelled.
- `Export.FormatBibtex`: requires fewer works than `Export.MaxSuffixes`, for the same reason.
- `AiJobs.Worker.Pass`: a backfill that raises is taken to raise before it inserts anything. In the source it can raise part-way through its loop (worker/ai-worker.py:300-318), and the jobs already inserted then stay; the pass's contract says nothing about the job table in that case.
- `Ingest.IngestWork`: models the corrected ingestion, whose author and funder links are de-duplicated per work. The source's own batches, which the store refuses on a repeated key, are stated by `Ingest.AuthorLinksAsWrittenLost` and `Ingest.FunderLinksAsWrittenLost` (see Findings); an as-written `IngestWork` as a whole is not modelled.
- `Searches.SavedSearches.Post`: the 500 reply when the saved-search insert fails is not modelled. The insert always succeeds in the model.
- `Searches.RecentSearchesFacts`: the 500 reply of `GET` on a store error is not modelled.
- The declared maximum email length of 320 in the inquiry route is not checked by the source, and the model does not check it either.
- The Stripe routes and client, and the route handlers that are only authentication plus one store call, are not part of this model. That includes favorites, collections, labs, invitations, invites, features, feedback, waitlist, the stub-enrichment cron, the OpenAlex search route and the billing portal.
- The type-only files, `admin.ts`, `untyped.ts` and `cytoscape-setup.ts` are not part of this model. The row types are taken from `types/database.ts` and `types/app.ts`.
- OpenAlexClient.ListOutcome: keeps only `data.results ?? []`; the `meta: data.meta ?? {}` that `searchWorks` also returns is not modelled, as nothing in this model reads it.
- Library: the work row's JSON pass-through columns (`counts_by_year`, `biblio`, `keywords`, `sustainable_development_goals`, `mesh`, from `src/lib/types/database.ts`) are not represented; nothing in this model depends on them. The worker's `ai_tags` column is modelled in AiJobs.
- `PLAN_DISPLAY` is not modelled: it holds display names and prices only.

## Findings

| source | as written | input that shows it | evidently intended | confidence | as-written member | corrected member |
|---|---|---|---|---|---|---|
| src/lib/openalex/ingest.ts:105-115 | the `work_authors` links are upserted as one batch, with no de-duplication on `(work_id, author_id)` | an OpenAlex work whose authorships list the same author twice: PostgreSQL refuses an `ON CONFLICT DO UPDATE` batch that touches one row twice, and the unchecked upsert leaves no author link for the work | de-duplicate the links on the author id, as is already done for the author–institution pairs, so every author is linked | not executed | Ingest.AuthorLinksAsWrittenLost | Ingest.AuthorLinksStored |
| src/lib/openalex/ingest.ts:131-140 | the `work_funders` links, one per grant, are upserted as one batch, with no de-duplication on `(work_id, funder_id)` | a work with two grants from the same funder: the batch repeats the key, the store refuses it, and no funder link is stored | de-duplicate the links on the funder id, keeping the first award, so every funder is linked | not executed | Ingest.FunderLinksAsWrittenLost | Ingest.FunderLinksStored |
