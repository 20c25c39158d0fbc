# job-title-ai: a Dafny model of the classification pipeline

job-title-ai ingests a CSV of raw job rows and deduplicates their titles into
canonical records. It classifies those records in batches with a language
model, standardizes the resulting labels into a job title, and exports the
joined result as CSV. This project models the decision logic of that pipeline
in Dafny 4.11 and proves properties of it. The database, the clock and the
model call are turned into explicit inputs:

- **Store.** The store (`Schema`) is an immutable value. It holds a map of
  canonical records keyed by autoincrement id, a title index that plays the
  part of the UNIQUE constraint on `job_title`, the autoincrement counter,
  and the raw rows, each with a nullable link to a canonical id. Every claim,
  reconciliation, insert and upsert is one indivisible function on it.
- **Standardizer** (`Standardize`, `Text`). The rule cascade of
  `getStandardizedJobTitle` and `capitalize`, over ASCII case mapping.
- **Model-call adapter** (`AiUtils`, `AiClassify`):
  - token-cost arithmetic with the published prices;
  - count and id-set validation of a response;
  - post-processing, which adds the per-item cost and the standardized title;
  - the three-way outcome `success` / `mismatch_error` / `error`. The model
    call itself is an input value: it threw, or it returned usage metadata
    and a text.
- **Classification worker** (`Worker`, `Selection`):
  - the stale reset at the start of a run;
  - the atomic claim of pending records;
  - the reconciliation of a batch with the outcome of its call, and the call
    counters;
  - the pacing of the two dispatch loops.
- **Progress projector** (`Progress`). Status counts from the store, the
  cached count, the 62-second history window, the remaining-time estimate,
  the start and elapsed time, and the projected total cost, all as pure
  functions of the store, the previous statistics and `now`.
- **Rate governor** (`RateLimiter`). Mode selection, the spacing-mode wait,
  and the token bucket as step functions of `(state, now)` that return the
  wait before a task runs.
- **Ingest** (`Ingest`). The distinct non-empty titles of a batch, the
  insert-or-ignore of canonical titles, the last-writer-wins upsert of raw
  rows, and the cutting of the input into batches of 5000.
- **Export** (`Export`). The status and confidence filters over the
  left join, the count query, the descending-confidence order with nulls
  last, the standardized-title column, and the progress cadence.
- **Legacy processor** (`Processor`). A separate `jobTitles` table with a
  `failed` status and a retry counter. Failed records with retries left are
  claimed before pending ones, and reconciliation either completes records
  or fails them with one more retry.

`ai/utils.ts` and `export.ts` import `getStandardizedJobTitle` from a
`helper.js` module that is not part of this model. Both are modelled against
the only definition in the repository, `src/utils/standardize.ts:1-22`.

## Model

| member | source | states |
|---|---|---|
| Text.Capitalize | src/utils/standardize.ts:24-27 | the empty string is returned unchanged; otherwise the length is kept, only index 0 is upper-cased and the rest is kept |
| Text.CapitalizeIdempotent | src/utils/standardize.ts:24-27 | capitalizing twice gives the same string as capitalizing once |
| Text.Lower | src/utils/standardize.ts:2-4 | `toLowerCase` keeps the length and maps each character by itself (ASCII letters only) |
| Text.LowerIdempotent | src/utils/standardize.ts:2-4 | lower-casing an already lower-cased label changes nothing |
| Standardize.StandardizedTitle | src/utils/standardize.ts:1-22 | the result is null exactly when the seniority or the function is missing or empty |
| Standardize.MissingLabelYieldsNull | src/utils/standardize.ts:2-6 | a null or empty seniority or function yields null, whatever the source title, "toimitusjohtaja" included |
| Standardize.ToimitusjohtajaOverride | src/utils/standardize.ts:4-8 | a source title equal to "toimitusjohtaja" in any letter case yields "Chief Executive Officer" for every non-empty seniority and function |
| Standardize.ExecutiveSeniorityPrecedence | src/utils/standardize.ts:9 | founder, managing director, entrepreneur, chairman of the board or ceo, in any case, yields "Executive Decision Maker" for every function unless the toimitusjohtaja override fires |
| Standardize.RegisterExecutiveTitle | src/utils/standardize.ts:10 | a register title equal to "executive decision maker" in any letter case yields "Executive Decision Maker" for every non-empty seniority and function |
| Standardize.OtherFunctionRules | src/utils/standardize.ts:10-12 | once neither register override nor executive seniority applies, function "other commercial" yields "Other Commercial" and "other" yields "Other", whatever the seniority |
| Standardize.TemplateRule | src/utils/standardize.ts:13-21 | otherwise the title is the seniority's template (chief, president, vice president, director, head of, manager, lead) wrapped around the capitalized lower-cased function, and "F Other" for any other seniority |
| Standardize.CaseInsensitive | src/utils/standardize.ts:2-4 | the result does not depend on the letter case of the seniority, the function or the source title |
| Standardize.HrManagerCase | src/utils/standardize.ts:18-26 | ("Manager", "HR") yields "Hr Manager": only the first letter of the function is upper case |
| Standardize.CeoBeatsOtherCommercial | src/utils/standardize.ts:9-11 | ("CEO", "Other Commercial") yields "Executive Decision Maker" |
| Standardize.FallbackCase | src/utils/standardize.ts:21 | ("Partner", "Legal") falls back to "Legal Other" |
| Standardize.SourceTitleKey | src/utils/standardize.ts:4 | the source title takes part, lower-cased, exactly when it is truthy |
| Schema.StatusNameInjective | src/db/schema.ts:15 | distinct statuses are stored as distinct strings |
| Schema.NewUniqueJob | src/db/schema.ts:9-15 | an inserted canonical record is pending and has null function, seniority and confidence |
| Schema.TitlesUnique | src/db/schema.ts:11 | in a valid store no two canonical records share a title |
| Schema.TitlePreservingUpdateValid | src/db/schema.ts:11 | an update that keeps every record and every title keeps the UNIQUE title index valid |
| Schema.CanonicalCountEqualsTitleCount | src/db/schema.ts:9-11 | there are exactly as many canonical records as distinct indexed titles |
| Schema.EmptyDbValid | src/db/schema.ts:3-23 | the empty store satisfies the invariant |
| AiTypes.IdSetCardinality | src/utils/ai/utils.ts:24-29 | a sequence has at most as many distinct ids as elements, and exactly as many when no id repeats |
| AiUtils.CalculateCost | src/utils/ai/utils.ts:6-18 | no usage metadata, or a prompt or candidates count that is missing or zero, costs 0; the billed amount is pinned by the marginal-cost lemmas and SmallestBilledCallCost below |
| AiUtils.Billed | src/utils/ai/utils.ts:10 | a call is billed only when both counts are reported; a zero count is falsy and not billed; two positive counts are billed |
| AiUtils.CostPositiveWhenBilled | src/utils/ai/utils.ts:10-15 | a billed call whose cached count does not exceed its prompt count costs more than 0 and at least its output tokens' price |
| AiUtils.CachingNeverIncreasesCost | src/utils/ai/utils.ts:8-15 | reporting prompt tokens as cached never raises the cost, and an absent cached count costs the same as zero |
| AiUtils.OutputTokenMarginalCost | src/utils/ai/config.ts:8-10 | one more output token of a billed call adds exactly the output price of one token |
| AiUtils.PromptTokenMarginalCost | src/utils/ai/utils.ts:11-12 | one more uncached prompt token of a billed call adds exactly the input price of one token |
| AiUtils.CachedTokenMarginalCost | src/utils/ai/utils.ts:11-13 | moving one prompt token of a billed call into the cache lowers the cost by exactly the input price minus the cache price of one token |
| AiUtils.SmallestBilledCallCost | src/utils/ai/utils.ts:10-15 | one prompt token and one output token with nothing cached cost 0.0000005 dollars, the input plus the output price of one token |
| AiUtils.ValidateResponse | src/utils/ai/utils.ts:20-32 | a count mismatch exactly when the result is missing or its length differs; acceptance exactly when the lengths agree and the input and output id sets are equal |
| AiUtils.AcceptedResponseHasDistinctIds | src/utils/ai/utils.ts:25-31 | for a batch with distinct ids, an accepted response has distinct ids and the batch's id set |
| AiUtils.DuplicateIdsRejected | src/utils/ai/utils.ts:25-30 | for a batch with distinct ids, a response of the right length that repeats an id is an id mismatch |
| AiUtils.FindTitle | src/utils/ai/utils.ts:42 | the title of the first batch row with the id, and null exactly when no row has it |
| AiUtils.ProcessClassifications | src/utils/ai/utils.ts:34-45 | length, order, ids and labels are kept; each item gets cost total/len and the standardized title of its own labels and its batch row's title |
| AiUtils.PerItemCostsSumToCallCost | src/utils/ai/utils.ts:39-44 | the per-item costs add up to the call cost, and to 0 for an empty response |
| AiClassify.EffectiveText | src/utils/ai/index.ts:39 | a missing response text is read as the empty object |
| AiClassify.ClassifyJobTitles | src/utils/ai/index.ts:14-51 | a thrown call gives `error` with cost 0, no classifications and the error message; an escaping exception exactly for a malformed body; a returned call is never `error` and costs what its usage costs; `mismatch_error` exactly when validation fails, with no classifications and the validation's message; `success` exactly when validation passes, carrying the post-processed classifications of the returned list |
| AiClassify.MissingTextIsCountMismatch | src/utils/ai/index.ts:37-46 | a call with no text is billed and reported as a count mismatch |
| AiClassify.SuccessCoversBatch | src/utils/ai/index.ts:42-50 | a successful response has one classification per input, the batch's id set, and per-item costs summing to the call cost |
| AiClassify.SuccessIdsAreDistinct | src/utils/ai/index.ts:42-50 | a successful response for a batch with distinct ids names each id once |
| Selection.LimitCount | src/utils/process.worker.ts:196 | a LIMIT lets through at most the available rows and at most the limit, and fewer than available only when the limit is reached; a negative LIMIT is no limit |
| Selection.MinimumExists | src/utils/process.worker.ts:195 | every non-empty candidate set has a least id |
| Selection.TakeSmallest | src/utils/process.worker.ts:191-196 | the LIMIT-many smallest candidates in increasing order: each is a candidate, and each is below every candidate not taken |
| Worker.PendingIds | src/utils/process.worker.ts:194 | the ids of exactly the pending records |
| Worker.SetStatus | src/utils/process.worker.ts:198-238 | the listed records get the new status; every other record is unchanged |
| Worker.ResetStale | src/utils/process.worker.ts:265 | no record is left processing; processing records become pending and every other record is unchanged |
| Worker.ResetStaleIdempotent | src/utils/process.worker.ts:265 | resetting twice is resetting once |
| Worker.GetBatch | src/utils/process.worker.ts:190-204 | the claim returns LIMIT-many pending records, smallest ids first, sets exactly those to processing, and returns each as updated |
| Worker.MarkProcessing | src/utils/process.worker.ts:200 | the returned rows list the given ids in order, with the store after exactly those ids are set to processing |
| Worker.ClaimTwice | src/utils/process.worker.ts:190-204 | two claims in a row never return the same record, and the second only returns records that were pending before the first |
| Worker.Inputs | src/utils/process.worker.ts:213 | one model input per batch record, with its id and title, in batch order |
| Worker.ClassificationMap | src/utils/process.worker.ts:222 | the map's keys are the classified ids, and each id maps to the last classification with that id |
| Worker.Complete | src/utils/process.worker.ts:226-231 | a classified record is completed with the classification's function, seniority and confidence, and keeps its title |
| Worker.Tally | src/utils/process.worker.ts:217-236 | a returned call adds one call and its cost, and one more to exactly the counter of its status: successful, mismatch or failed; consistent counters stay consistent |
| Worker.ProcessBatch | src/utils/process.worker.ts:210-250 | an empty batch changes nothing. A returned call updates the counters as its status demands. Success completes the batch records in the map and leaves the rest as they are. Any other outcome reverts the whole batch to pending. A thrown call counts only a failure. Records outside the batch never change, and consistent counters stay consistent |
| Worker.NoRecordLeftProcessing | src/utils/process.worker.ts:215-249 | once the batch's call has resolved, to the response built for that batch or to an escaping exception, no record of the batch is left processing |
| Worker.ReconcileKeepsSettledRecords | src/utils/process.worker.ts:223-238 | reconciling a batch of claimed records leaves every completed or pending record unchanged |
| Worker.PacingWait | src/utils/process.worker.ts:312-316 | no wait before the first dispatch or once the gap has passed; otherwise the wait is exactly the gap minus the elapsed time, so the task starts exactly one gap after the previous one |
| Worker.DispatchInterval | src/utils/process.worker.ts:331 | the interval is 60000/rpm for a positive rate and 0 otherwise |
| Worker.DispatchStarts | src/utils/process.worker.ts:339-344 | one start time per loop iteration |
| Worker.DispatchesAreSpaced | src/utils/process.worker.ts:339-344 | after a dispatch at a positive time, the n-th further dispatch starts at least n intervals later |
| Progress.UniqueWithStatus | src/utils/process.worker.ts:80-86 | the canonical ids with exactly the given status |
| Progress.RawWithStatus | src/utils/process.worker.ts:88-95 | the raw rows whose left-joined record has the given status |
| Progress.Counts | src/utils/process.worker.ts:77-132 | each unique count is the number of canonical records with that status, each raw count the number of raw rows whose linked record has it; the unique total is the number of canonical records; the total is the number of raw rows whose linked record has a status, and the number of raw rows when that is 0, so at most the raw row count and equal to it when every raw row is linked; cached is (completed − skipped) − uniqueCompleted |
| Progress.SkippedCount | src/utils/process.worker.ts:97 | the skipped records are at most all canonical records, and none exactly when no title is blank or "--" |
| Progress.PartitionUnique | src/utils/process.worker.ts:109-116 | the three unique status counts add up to the number of canonical records |
| Progress.PartitionRaw | src/utils/process.worker.ts:118-125 | the raw status counts add up to at most the number of raw rows, and exactly to it when every raw row is linked |
| Progress.CachedNonNegative | src/utils/process.worker.ts:97-132 | with no skipped titles and every completed record referenced by a raw row, the cached count is not negative |
| Progress.KeepSince | src/utils/process.worker.ts:149 | the filter keeps exactly the entries at or after the cutoff, and keeps them in chronological order |
| Progress.PruneHistory | src/utils/process.worker.ts:146-149 | the newest snapshot is always last; every kept entry is within 62000 ms of now; every recent entry is kept; nothing new is invented; chronological order is preserved |
| Progress.EstimateRemaining | src/utils/process.worker.ts:154-171 | 0 exactly when nothing remains; unknown exactly when something remains and there was no progress or the window spans at most one second; otherwise a positive estimate that, at the measured rate, finishes the remaining records |
| Progress.NextStartTime | src/utils/process.worker.ts:134-136 | a set start time is kept; an unset one is set to now exactly on a tick with processing records |
| Progress.ElapsedStep | src/utils/process.worker.ts:138-144 | once the run has started, more than a second after the last refresh the elapsed time becomes now − start and the refresh time now; otherwise nothing changes |
| Progress.EstimateStep | src/utils/process.worker.ts:151-174 | with two or more history entries, more than a second after the last refresh the estimate is recomputed from the oldest and newest entries and the refresh time becomes now; otherwise nothing changes |
| Progress.Advance | src/utils/process.worker.ts:134-178 | the history is the pruned history ending with this tick's snapshot; the start is set on the first tick with processing records and then kept; elapsed and estimate are refreshed exactly when their once-a-second rules allow; the starting counts are taken once and then kept |
| Progress.Tick | src/utils/process.worker.ts:76-188 | one tick reports the store's counts and advances the statistics with them exactly as Advance does, so every field, the refresh times and the starting counts included, is kept between refreshes; it appends their snapshot to the pruned history, sets an unset start time exactly when processing records are seen, refreshes the elapsed time from the start, and refreshes the estimate from the pending and processing canonical records |
| Progress.AdvanceRun | src/utils/process.worker.ts:134-178 | consecutive ticks: with no ticks the statistics are unchanged; the starting counts are those of the first tick and are kept; the window ends with the last tick's snapshot |
| Progress.StartTimeKept | src/utils/process.worker.ts:134-136 | once the start time is set, no later tick changes it |
| Progress.StartTimeIsFirstProcessingTick | src/utils/process.worker.ts:134-136 | over a run of ticks, the start time is the time of the first tick that sees a processing record |
| Progress.AdvanceTracksStart | src/utils/process.worker.ts:134-144 | a tick keeps the elapsed time either at its initial 0 or equal to the span from the start to the last refresh |
| Progress.ElapsedTracksStartOverRun | src/utils/process.worker.ts:134-144 | over any run of ticks the elapsed time stays 0 or equal to the span from the start to the last refresh |
| Progress.InitialElapsedTracksStart | src/utils/process.worker.ts:62-68 | from the module's initial values, every run of ticks reports an elapsed time consistent with its start |
| Progress.ProjectedTotalCost | src/utils/process.worker.ts:180-181 | 0 without billed calls or without a non-zero batch size; with billed calls and a positive batch size, at least the spend so far for a non-negative spend, and exactly it when nothing remains |
| Progress.ProjectionExactForUniformPrice | src/utils/process.worker.ts:181 | when every billed record cost the same, the projection is the spend so far plus that price for each remaining record |
| RateLimiter.SelectMode | src/utils/rateLimiter.ts:3-59 | a positive minimum wait selects spacing mode even with a positive rate; otherwise a positive rate selects the token bucket; otherwise there is no limiting |
| RateLimiter.SpacingWait | src/utils/rateLimiter.ts:11-17 | the wait is never negative, the task starts no earlier than the minimum wait after the previous completion, and exactly then when it waits at all |
| RateLimiter.SpacingFinish | src/utils/rateLimiter.ts:9-22 | a sequential run through the spacing rule ends at its start with no tasks, and otherwise no earlier than the start plus every duration |
| RateLimiter.SpacingRunLowerBound | src/utils/rateLimiter.ts:9-22 | because the gap is measured from completion, n sequential tasks finish no earlier than n−1 gaps plus their durations after the first start |
| RateLimiter.RefillRate | src/utils/rateLimiter.ts:26 | the refill rate is non-negative and positive exactly for a positive rpm |
| RateLimiter.InitBucket | src/utils/rateLimiter.ts:25-28 | the bucket starts full, at the creation time |
| RateLimiter.Refilled | src/utils/rateLimiter.ts:33-37 | the refilled amount is capped at the capacity and otherwise grows by the elapsed time times the rate; it is non-negative when the clock has not gone back |
| RateLimiter.AcquireAsWritten | src/utils/rateLimiter.ts:32-51 | as written: the refill clock moves to now; the wait is positive exactly when the refilled tokens are below one; without a wait one token is taken; with one the bucket is emptied and the wait is the time to refill the missing fraction |
| RateLimiter.AsWrittenTokensStayInRange | src/utils/rateLimiter.ts:33-48 | as written, tokens stay between 0 and the capacity while the clock does not go back |
| RateLimiter.AsWrittenAdmitsTwoPerRefill | src/utils/rateLimiter.ts:32-51 | as written, three acquisitions at 1 rpm, at 0, 0 and 60000 ms, start at 0, 60000 and 60000 ms: more than the one token held plus the one refilled |
| RateLimiter.WaitAtMostOneInterval | src/utils/rateLimiter.ts:45-50 | both versions wait the same (1 − tokens)/rate, which is at most 60000/rpm when the bucket holds no debt |
| RateLimiter.Acquire | src/utils/rateLimiter.ts:32-51 | corrected: the wait is positive exactly when the refilled tokens are below one; the refill clock moves to the wake-up time; one token is taken from what was held plus the credit up to then |
| RateLimiter.CorrectedDelaysThird | src/utils/rateLimiter.ts:32-51 | corrected, the same three acquisitions wait 0, 60000 and 60000 ms |
| RateLimiter.BucketRun | src/utils/rateLimiter.ts:53-58 | corrected: a run of corrected acquisitions leaves a non-negative bucket |
| RateLimiter.BucketConformance | src/utils/rateLimiter.ts:25-51 | corrected, n acquisitions plus the tokens left never exceed the initial tokens plus the refill up to the last refill time, however the acquisitions are timed |
| RateLimiter.CreateRateLimiter | src/utils/rateLimiter.ts:3-65 | the limiter's mode is the one selected: spacing with the configured minimum wait and no completion recorded, a token bucket with the configured rate and a full bucket, or no limiting |
| RateLimiter.Admit | src/utils/rateLimiter.ts:7-63 | a task is never refused and never waits a negative time; no limiting never delays; spacing mode starts the task no earlier than the minimum wait after the last completion, and at once when that has passed; bucket mode performs the acquisition as written |
| RateLimiter.Completed | src/utils/rateLimiter.ts:19-20 | spacing mode records the completion time; the other modes keep no completion state |
| RateLimiter.WrapperAdmitsThreeInOneMinute | src/utils/rateLimiter.ts:24-58 | a limiter created for 1 rpm admits acquisitions at 0, 0 and 60000 ms with waits 0, 60000 and 0 |
| RateLimiter.SpacedRunIsSpacingFinish | src/utils/rateLimiter.ts:9-22 | a sequential caller driving the spacing limiter through Admit and Completed finishes exactly when the spacing schedule does |
| RateLimiter.SpacedRun | src/utils/rateLimiter.ts:9-22 | a sequential run through the wrapper's Admit and Completed ends at its start with no tasks, and otherwise no earlier than the start plus every duration |
| RateLimiter.LimiterSpacesSequentialTasks | src/utils/rateLimiter.ts:4-22 | a limiter created with a positive minimum wait makes n sequential tasks take at least n−1 gaps plus their durations, whatever rate is also given |
| Ingest.CollectTitles | src/utils/ingest.worker.ts:19 | appending the new non-empty titles to a list keeps the list as a prefix, repeats no title, never adds "", and lists exactly the old titles and the batch's non-empty titles |
| Ingest.UniqueTitles | src/utils/ingest.worker.ts:19 | the distinct titles list, without repeats and without "", exactly the batch's non-empty titles |
| Ingest.InsertTitle | src/utils/ingest.worker.ts:23-24 | insert-or-ignore: a present title leaves the store unchanged; a new one is added as a fresh pending record; no existing record or title id changes |
| Ingest.InsertTitles | src/utils/ingest.worker.ts:23-24 | the multi-row insert indexes exactly the old titles plus the listed ones, disturbs no existing record, and changes nothing when every title is present |
| Ingest.TitleToId | src/utils/ingest.worker.ts:27-33 | exactly the listed titles present in the store, each mapped to its canonical id |
| Ingest.LastLinkedTitle | src/utils/ingest.worker.ts:36-55 | the link a raw id ends with comes from a row of the batch with a non-empty title; no link means every row with that id has an empty title |
| Ingest.LinkRows | src/utils/ingest.worker.ts:36-55 | each id named with a non-empty title is linked to the id of its last such title; every other raw row is kept as it was |
| Ingest.ProcessBatch | src/utils/ingest.worker.ts:13-56 | the store stays valid and only grows; the title index gains exactly the batch's non-empty titles; a batch without non-empty titles changes nothing; each raw id named with a non-empty title is linked to its last title's record, and other raw rows are unchanged |
| Ingest.ProcessBatchIdempotent | src/utils/ingest.worker.ts:13-56 | ingesting the same batch twice is ingesting it once |
| Ingest.Chunks | src/utils/ingest.worker.ts:66-80 | the batches concatenate back to the input; each holds 1 to 5000 rows; every batch but the last holds exactly 5000 |
| Ingest.IngestChunks | src/utils/ingest.worker.ts:66-80 | processing batches in order has the effect on titles and links that the concatenated rows have |
| Ingest.LastLinkedTitleAppend | src/utils/ingest.worker.ts:50-55 | across two batches, a raw id's link comes from the later batch when that batch names it |
| Ingest.IngestFile | src/utils/ingest.worker.ts:58-90 | the whole file indexes every non-empty title, disturbs no earlier record, and links each raw id by the last row naming it with a non-empty title, as if the file had been one batch |
| Export.JoinedRecord | src/utils/export.ts:31-58 | the left join yields a record exactly when the raw row's link is set and resolves |
| Export.TotalRows | src/utils/export.ts:31-35 | the count query counts at most all raw rows |
| Export.NoFilterExportsEveryRow | src/utils/export.ts:21-59 | without filters every raw row is exported and counted, linked or not |
| Export.FiltersConjoin | src/utils/export.ts:22-59 | with both filters, exactly the rows passing each filter alone are exported |
| Export.StatusCondition | src/utils/export.ts:22-24 | an empty or missing status filter is falsy and keeps every row; a row without a record has a null status and is never kept; otherwise the row is kept exactly when its record's status name equals the filter |
| Export.ConfidenceCondition | src/utils/export.ts:25-27 | a missing minimum keeps every row, while a given one, 0 included, never keeps a null confidence and otherwise keeps exactly the confidences at or above it |
| Export.Passes | src/utils/export.ts:21-59 | no filter means no WHERE clause and every row passes; a passing row meets both conditions, and with one filter absent passing is exactly the other condition |
| Export.StatusFilterSelects | src/utils/export.ts:22-24 | a status filter keeps exactly the rows linked to a record with that status; an empty filter is no filter |
| Export.ConfidenceOf | src/utils/export.ts:56 | a row has a confidence only through its joined record |
| Export.Precedes | src/utils/export.ts:59 | descending confidence with nulls last: two confidences are ordered by at-least, a confidence precedes null, null never precedes a confidence, and nulls tie |
| Export.FirstExists | src/utils/export.ts:59 | every non-empty row set has a row that comes first in descending-confidence order |
| Export.OrderedIds | src/utils/export.ts:51-63 | the select returns each selected row exactly once, as many as the count query counts, in descending confidence with nulls last |
| Export.StandardizedColumn | src/utils/export.ts:69 | the column is null without a joined record or with a missing or empty seniority |
| Export.StandardizedColumnAgrees | src/utils/export.ts:69 | the column always equals the standardizer's title of the joined seniority, function and title |
| Export.RowFor | src/utils/export.ts:51-70 | a CSV line carries its raw id and, through the join, the record's title, function, seniority, confidence and the standardizer's title of them; all null without a joined record |
| Export.ExportCsv | src/utils/export.ts:14-92 | as many lines as the count query reports; each selected raw id exactly once; each line built from its own row; lines in descending confidence with nulls last |
| Export.Reports | src/utils/export.ts:71-74 | progress is reported, in increasing order, exactly at the counts that are multiples of 1000 or equal to the total |
| Export.LastReportIsComplete | src/utils/export.ts:31-74 | a non-empty export always ends with a report of the total; an empty export reports nothing |
| Export.ReportEveryThousand | src/utils/export.ts:72 | no thousand lines pass without a report |
| Processor.EligibleIds | src/utils/processor.ts:102-106 | exactly the records that are pending, or failed with fewer than five retries |
| Processor.EligibleSplits | src/utils/processor.ts:102-106 | the eligible records are the retryable failed ones plus the pending ones, with no overlap |
| Processor.ResetStale | src/utils/processor.ts:23 | no record is left processing; processing records become pending; every other record, retry counts included, is unchanged |
| Processor.StartRun | src/utils/processor.ts:23-25 | the total to process counts the eligible records after the reset, which include all that were eligible before |
| Processor.SetProcessing | src/utils/processor.ts:114-116 | the claimed records become processing; every other record is unchanged |
| Processor.MarkClaimed | src/utils/processor.ts:114-117 | returning() gives one row per claimed id in the given order, each the record as updated, and the store has exactly those ids set to processing |
| Processor.Claim | src/utils/processor.ts:99-117 | LIMIT-many eligible records, none twice; pending ones only once every retryable failed one is claimed; exactly those become processing and are returned as updated |
| Processor.ClaimIdsSound | src/utils/processor.ts:108-111 | failed-then-pending selection: as many ids as the LIMIT allows, all eligible, none repeated, pending ones only after all retryable ones |
| Processor.WorkerStopsWhenNothingEligible | src/utils/processor.ts:119-122 | a claim comes back empty exactly when nothing is eligible or the batch size is zero |
| Processor.CompleteJob | src/utils/processor.ts:41-68 | a classified record is completed with function, seniority, confidence and standardized title, and keeps its title and retry count |
| Processor.FailJob | src/utils/processor.ts:71-84 | a failed record gets status failed and one more retry, and nothing else changes |
| Processor.ProcessBatch | src/utils/processor.ts:28-89 | an empty batch changes nothing. Otherwise processedCount grows by the batch length. A throw fails the whole batch. A list completes the mapped records and fails the rest. Records outside the batch never change |
| Processor.RetryCountMonotone | src/utils/processor.ts:75-83 | retry counts never decrease, grow by at most one, and grow by exactly one for each batch record left failed |
| Processor.ExhaustedStaysExhausted | src/utils/processor.ts:102-106 | a record failed five times is not eligible, and reconciling any claimed batch leaves it as it is |
| Processor.ReconcileSettlesBatch | src/utils/processor.ts:34-84 | every claimed record ends completed or failed, whatever the classifier returned or threw |

## Left out

- SQLite, drizzle and the connection. Atomicity of each statement is assumed: each claim, update and upsert is one step on an immutable store. Store errors (a failing UPDATE) are not modelled, so the paths where a database error is caught are not either.
- Concurrency: `pLimit`, several workers running at once, un-awaited `processBatch` calls in the throughput loop, and the un-awaited async `data` handler of the CSV stream. Batches are taken to run one after another.
- Timers, `setTimeout`/`setInterval`, worker messages, logging and the 500 ms progress debounce. The clock is a parameter `now`; a tick that reads the clock several times reads it once.
- The Gemini client, the context cache and the prompt file. A model call is an input value: it threw, or it returned usage metadata and a text. The legacy `src/utils/ai.ts` is not part of this model; the legacy processor takes its classifier's outcome as an input `Result`.
- The worker loops' orchestration (polling for pending rows, the empty-claim back-off), `cli.tsx` argument parsing, the UI components, `csv.ts`, `ingest.ts`, `short.js`, `logger.ts` and `db.ts`.
- Floating point. Costs, rates, tokens and times are `real`, and ∞ in the time estimate is the `Unknown` case. Case mapping covers ASCII letters only.
- Worker.GetBatch, Processor.Claim: the SQL ORDER BY ties for all candidates within a status, so the database's scan order decides. The model takes the smallest ids first.
- Export.OrderedIds: ties in confidence come out in an unspecified order. The contract states only the descending order, and ExportCsv leaves the order among equal confidences open.
- Schema: a NULL `status` is not modelled. The column has a default and the code never writes NULL.
- Processor: the `jobTitles` schema is not among the repository's files; its record type is taken from the columns `processor.ts` reads and writes.
- Ingest.ProcessBatch: the "could not find unique ID" branch (lines 38-42) is shown unreachable for non-empty titles rather than modelled as a warning; rows with empty titles are dropped as the code drops them.
- Standardize.StandardizedTitle: its own contract states only when the result is null. Each rule of the cascade is stated by one of the lemmas listed above (MissingLabelYieldsNull, ToimitusjohtajaOverride, ExecutiveSeniorityPrecedence, RegisterExecutiveTitle, OtherFunctionRules, TemplateRule), not by the function's ensures.
- RateLimiter.BucketConformance: stated for the corrected bucket only (BucketRun runs the corrected acquisition), because the version as written, which Admit runs, does not conform (see Findings).
- RateLimiter.SpacingFinish: its own contract gives only the empty run and a lower bound; the gaps are added by SpacingRunLowerBound.
- RateLimiter.SpacedRun: its own contract gives only the empty run and a lower bound; SpacedRunIsSpacingFinish equates it with SpacingFinish.
- Worker.DispatchesAreSpaced: the first dispatch of a loop, with `lastRequestStartTime` still 0, is not delayed and is left out of the bound.

## Findings

| source | as written | input that shows it | evidently intended | confidence | as-written member | corrected member |
|---|---|---|---|---|---|---|
| src/utils/rateLimiter.ts:32-51 | on the waiting path `tokens` is set to 0 and `lastRefillTime` stays at the acquisition time, so the tokens that accrue while the caller sleeps are credited again to the next caller | 1 rpm, acquisitions at 0, 0 and 60000 ms: waits 0, 60000 and 0, so three tasks start within one minute from one held and one refilled token | the waiting caller consumes the token it waits for, so the refill clock moves to its wake-up time and at most one token per 60000/rpm ms is handed out beyond the initial burst | not executed | RateLimiter.AcquireAsWritten, RateLimiter.AsWrittenAdmitsTwoPerRefill, RateLimiter.WrapperAdmitsThreeInOneMinute | RateLimiter.Acquire, RateLimiter.CorrectedDelaysThird, RateLimiter.BucketConformance |
