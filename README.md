# CodeReview-AI backend: review lifecycle in Dafny

This project models the backend of CodeReview-AI, a Laravel service. A user submits a piece of code. The service asks Claude for a review and stores the findings next to the submission. The model covers four parts:

- **Reply parser and service wrapper** (`ClaudeAIService::parseClaudeResponse`, `analyzeCode`):
  - Strips the ```` ```json ```` and ```` ``` ```` fences and trims the text.
  - Decodes the text and checks for `summary` and `issues`.
  - Coerces a non-array `issues` to an empty list.
  - Recounts the severities in a loop.
  - Passes every failure on to the caller.
- **Analysis job** (`AnalyzeCodeJob::handle` and `failed`, with `$tries = 3`):
  - Each attempt marks the review `processing`.
  - In one transaction it writes the counters, `completed` and one issue row per reported issue.
  - On an exception it marks the review `failed` and rethrows.
  - The queue retries up to three attempts, then calls `failed()`.
- **Submission validator** (`SubmitCodeRequest::rules` and `messages`).
- **Review endpoints** (`CodeReviewController`):
  - `store` creates a pending review and queues one job.
  - `destroy` deletes a review, and its issues go with it through the cascade.
  - `index` lists one user's reviews, newest first, 15 per page.
  - `stats` gives the counts, the sums and the top five issue types.

The modules:

- `Wrappers`: Option and Result.
- `PhpText`: PHP `trim`, PCRE `\s`, ASCII `strtolower` and integer-to-text.
- `Json`: the decoded value, with `isset` and `??` access.
- `Ordering`: a stable descending sort and `LIMIT`.
- `Schema`: the two tables of the migrations (enums, zero defaults, foreign key).
- `ReviewStore`: a `Database` class whose methods are the row operations. A transaction is a snapshot that a rollback restores.
- `ClaudeAIService`, `AnalysisJob`, `SubmitCodeRequest` and `CodeReviewController`: one module each for the four parts above.

Stateful code is imperative and proved against specification functions:

- the severity `foreach`;
- the issue-insert `foreach`;
- the job class;
- the queue's retry loop;
- `store` and `destroy`.

The lemmas prove the promised properties about those specification functions.

### Behaviour worth noting

- `handle` has no duplicate-delivery guard: every attempt sets `processing`, whatever the current status.
- Every attempt that fails with an exception writes `failed` with `"Analysis failed: " + message`, and a retry sets `processing` again. An attempt that fails with a PHP `Error` writes nothing (see below).
- The parser counts a severity such as `critical` in no bucket. The job then inserts it into the `severity` enum column, the database refuses it, and the transaction rolls back, so that attempt fails.
- The parser returns the issue entries unnormalised. The defaults (line 0, type `General`, empty message and suggestion, no snippet) are applied by the job, in `CodeIssue::create`.
- An issue whose line, type, message, suggestion or snippet is an array (a JSON list or object) cannot be bound by the insert. That raises an exception, the transaction rolls back and the attempt fails.
- A severity that is an array makes `strtolower` raise a `TypeError`. That is a PHP `Error`, which `catch (\Exception $e)` does not catch, so on that attempt the review stays `processing` and the error reaches the queue directly.

## Model

| member | source | states |
|---|---|---|
| ClaudeAIService.StripClosingFence | codereview-ai-backend/app/Services/ClaudeAIService.php:118 | The closing ```` ``` ```` is deleted only when nothing but whitespace follows it, together with that whitespace; otherwise the text is unchanged |
| ClaudeAIService.FencedCleansAsBare | codereview-ai-backend/app/Services/ClaudeAIService.php:117-119 | An object that directly follows a ```` ```json ```` fence, with PCRE whitespace after each fence and only `trim`-set whitespace before the closing fence, cleans to the same text as the bare object |
| ClaudeAIService.FencedReplyParsesAsBare | codereview-ai-backend/app/Services/ClaudeAIService.php:117-122 | A fenced reply parses to the same result or failure as the bare `{…}`, for every decoder |
| ClaudeAIService.SeverityText | codereview-ai-backend/app/Services/ClaudeAIService.php:142 | A missing or null severity reads as `low`; the lowering fails exactly when the severity is an array (a `TypeError`) |
| ClaudeAIService.IssueEntries | codereview-ai-backend/app/Services/ClaudeAIService.php:130-132 | A non-array `issues` becomes the empty list |
| ClaudeAIService.Interpret | codereview-ai-backend/app/Services/ClaudeAIService.php:122-163 | Undecodable text fails with "Failed to parse AI response" (iff). A value without a set `summary` and `issues` fails with "Invalid response structure from Claude" (iff). The result is a success iff the value has both keys set and no array severity (otherwise a PHP `Error` from `strtolower`). A success returns `summary` as decoded, the coerced `issues`, `total_issues` equal to their number, and each severity counter equal to the tally of its word |
| ClaudeAIService.TallyPartition | codereview-ai-backend/app/Services/ClaudeAIService.php:141-146 | high + medium + low never exceeds the number of entries, and equals it exactly when every severity is high, medium or low in some letter case, or missing |
| ClaudeAIService.TallySeverities | codereview-ai-backend/app/Services/ClaudeAIService.php:135-146 | The counting loop yields, per bucket, the number of entries whose lower-cased severity is that word, or the `TypeError` when a severity is an array |
| ClaudeAIService.ParseClaudeResponse | codereview-ai-backend/app/Services/ClaudeAIService.php:114-164 | The imperative parser (overwrites, loop, early throws) returns exactly what the specification `Parse` of the cleaned text gives |
| ClaudeAIService.ParsedCountsBounded | codereview-ai-backend/app/Services/ClaudeAIService.php:141-151 | In every parsed analysis high + medium + low is at most `total_issues`, and equal iff every severity is recognised |
| ClaudeAIService.NonArrayIssuesCountNothing | codereview-ai-backend/app/Services/ClaudeAIService.php:129-132 | A set but non-array `issues` parses to an empty list, total 0 and every count 0 |
| ClaudeAIService.UnrecognisedCountsNowhere | codereview-ai-backend/app/Services/ClaudeAIService.php:143-145 | An entry whose severity is text other than high/medium/low (e.g. `critical`) changes none of the three counts |
| ClaudeAIService.OneHighIssueExample | codereview-ai-backend/app/Services/ClaudeAIService.php:148-155 | A summary with one `HIGH` issue parses to that summary, that issue unchanged, total 1, high 1, medium 0, low 0 |
| ClaudeAIService.Analyze | codereview-ai-backend/app/Services/ClaudeAIService.php:44-63 | A transport exception is rethrown with its message; a status of 400 or above fails with "Failed to analyze code with Claude API"; otherwise the result is the parse of `content[0].text`, or of `''` when absent |
| ClaudeAIService.AnalyzeCode | codereview-ai-backend/app/Services/ClaudeAIService.php:24-64 | The service call returns or throws exactly what `Analyze` gives for the reply |
| ClaudeAIService.EmptyReplyFailsToParse | codereview-ai-backend/app/Services/ClaudeAIService.php:52-55 | A successful response without text is parsed as `''`, which fails with "Failed to parse AI response" when `''` is not JSON |
| ClaudeAIService.AnalyzeSucceedsIffWellFormedReply | codereview-ai-backend/app/Services/ClaudeAIService.php:44-63 | An analysis comes from exactly the non-error responses whose cleaned text decodes to a value with `summary` and `issues` set and no array severity: nothing is swallowed and nothing well-formed is refused |
| Schema.SeverityColumn | codereview-ai-backend/database/migrations/2024_01_01_000002_create_code_issues_table.php:15 | The severity enum stores exactly the words high, medium and low, each as its own severity; any other text is refused |
| Schema.SeverityBucketsCoverRows | codereview-ai-backend/database/migrations/2024_01_01_000002_create_code_issues_table.php:15 | Every stored issue row lies in exactly one of the three severity buckets |
| ReviewStore.PendingReview | codereview-ai-backend/database/migrations/2024_01_01_000001_create_code_reviews_table.php:18-23 | A created review is `pending`, has no analysis, and has every counter at its default 0 |
| ReviewStore.CascadeKeepsForeignKey | codereview-ai-backend/database/migrations/2024_01_01_000002_create_code_issues_table.php:13 | After a delete with the cascade, every remaining issue row still references an existing review |
| ReviewStore.WithoutReviewWellFormed | codereview-ai-backend/database/migrations/2024_01_01_000002_create_code_issues_table.php:13 | A delete with the cascade keeps the tables well formed: keys unique and ordered, and the foreign key holds |
| ReviewStore.Database.CreateReview | codereview-ai-backend/app/Http/Controllers/Api/CodeReviewController.php:48-54 | Appends the pending row under the next key and returns that key; the tables stay well formed |
| ReviewStore.Database.UpdateReview | codereview-ai-backend/app/Jobs/AnalyzeCodeJob.php:53-61 | Rewrites one review row and keeps its key; nothing else changes |
| ReviewStore.Database.CreateIssue | codereview-ai-backend/app/Jobs/AnalyzeCodeJob.php:65-73 | Appends the issue row under the next issue key; its review must exist |
| ReviewStore.Database.DeleteReview | codereview-ai-backend/app/Http/Controllers/Api/CodeReviewController.php:84 | Removes the review and, through the cascade, its issue rows |
| ReviewStore.Database.Restore | codereview-ai-backend/app/Jobs/AnalyzeCodeJob.php:51-75 | A rollback returns both tables to the snapshot taken when the transaction began |
| AnalysisJob.Amend | codereview-ai-backend/app/Jobs/AnalyzeCodeJob.php:53-61 | `update` patches the job's review row only: the new review table is the old one with that one position replaced, every other review row stays as it was at its position, and the issue table and key counters are unchanged |
| AnalysisJob.NewIssueRow | codereview-ai-backend/app/Jobs/AnalyzeCodeJob.php:65-73 | An entry gives a row exactly when its lower-cased severity (default `low`) is an enum word and no column value is an array. The row belongs to the review, carries that severity, and takes line, type, message, suggestion and snippet from the entry, each defaulting to 0, `General`, `''`, `''` and null. Otherwise the failure is the binding error for an array, else the enum refusal |
| AnalysisJob.InsertRows | codereview-ai-backend/app/Jobs/AnalyzeCodeJob.php:64-74 | A successful insert loop adds exactly one row per entry after the existing rows and touches no review |
| AnalysisJob.InsertRowsFailureSticks | codereview-ai-backend/app/Jobs/AnalyzeCodeJob.php:64-74 | The loop stops at the first refused row: a failing prefix makes the whole insert fail the same way |
| AnalysisJob.InsertRowsSucceedIff | codereview-ai-backend/app/Jobs/AnalyzeCodeJob.php:64-74 | The insert succeeds iff every severity is high, medium or low in some letter case, or missing, and no entry gives a column an array |
| AnalysisJob.InsertRowsLast | codereview-ai-backend/app/Jobs/AnalyzeCodeJob.php:64-74 | The rows are created in entry order: the last entry's row comes after those of the others |
| AnalysisJob.IssueRowsForAt | codereview-ai-backend/app/Jobs/AnalyzeCodeJob.php:64-74 | Row i of the rows an accepted insert adds is entry i's row, with the i-th next issue key |
| AnalysisJob.InsertRowsAppends | codereview-ai-backend/app/Jobs/AnalyzeCodeJob.php:64-74 | When every entry is accepted, the insert succeeds, appends exactly the entries' rows in order after the existing rows, and advances the issue key counter by their number |
| AnalysisJob.InsertRowsCount | codereview-ai-backend/app/Jobs/AnalyzeCodeJob.php:64-74 | Every added row belongs to the review, and the added rows per severity equal the parser's tally of the entries |
| AnalysisJob.InsertRowsRefused | codereview-ai-backend/app/Jobs/AnalyzeCodeJob.php:64-74 | After a successful parse the insert loop fails only by a refused row: an unknown severity or an array column; when only one of the two occurs, the failure is that one |
| AnalysisJob.Attempt | codereview-ai-backend/app/Jobs/AnalyzeCodeJob.php:32-98 | One attempt keeps the review row present, and every other review row unchanged at its position |
| AnalysisJob.AttemptFinished | codereview-ai-backend/app/Jobs/AnalyzeCodeJob.php:51-61 | An attempt that returns leaves the review `completed`, with the summary as `ai_analysis`, the counters from the analysis and `suggestions_count` equal to the number of entries; existing issue rows are kept |
| AnalysisJob.AttemptFinishedRows | codereview-ai-backend/app/Jobs/AnalyzeCodeJob.php:55-74 | For a parsed analysis, a completed attempt adds exactly `total_issues` rows for the review; the rows per severity equal the review's counters, which therefore add up to the total |
| AnalysisJob.AttemptException | codereview-ai-backend/app/Jobs/AnalyzeCodeJob.php:82-96 | An attempt that throws an exception leaves the review `failed` with "Analysis failed: " + message, and adds no issue row (the rollback) |
| AnalysisJob.AttemptError | codereview-ai-backend/app/Jobs/AnalyzeCodeJob.php:82 | A PHP `Error` escapes the `catch (\Exception)`: the review stays `processing` and no issue row is added |
| AnalysisJob.UnknownSeverityFailsAttempt | codereview-ai-backend/app/Jobs/AnalyzeCodeJob.php:51-96 | A severity outside the enum rolls back the whole transaction: the attempt throws, and the review ends `failed` with that message as if nothing had been written. Without array columns, the message is the enum refusal |
| AnalysisJob.ArrayColumnFailsAttempt | codereview-ai-backend/app/Jobs/AnalyzeCodeJob.php:51-96 | An issue with an array column rolls back the whole transaction the same way. When every severity is recognised, the message is the binding error |
| AnalysisJob.MissingFieldsTakeDefaults | codereview-ai-backend/app/Jobs/AnalyzeCodeJob.php:65-73 | An issue giving only its severity is stored with line 0, type `General`, an empty message and suggestion, and a null snippet |
| AnalysisJob.CompletedOverrides | codereview-ai-backend/app/Jobs/AnalyzeCodeJob.php:53-61 | The `completed` update overwrites every column that the `processing` and `failed` updates write |
| AnalysisJob.FailedOverrides | codereview-ai-backend/app/Jobs/AnalyzeCodeJob.php:90-93 | The `failed` update overwrites what an earlier `processing` or `failed` update wrote |
| AnalysisJob.AttemptStores | codereview-ai-backend/app/Jobs/AnalyzeCodeJob.php:32-75 | An analysis with only enum severities and no array column makes the attempt return. The review ends `completed` with that analysis, as if never marked `processing`, and exactly its rows are appended |
| AnalysisJob.AttemptRefuses | codereview-ai-backend/app/Jobs/AnalyzeCodeJob.php:32-97 | Any other analysis or failure makes the attempt throw. After an exception the review is `failed` with the message; after an `Error` it stays `processing`. Either way the issue table and its key counter are as they were |
| AnalysisJob.AttemptSettles | codereview-ai-backend/app/Jobs/AnalyzeCodeJob.php:51-96 | An attempt either completes the review or leaves the issue table exactly as it was |
| AnalysisJob.RunFrom | codereview-ai-backend/app/Jobs/AnalyzeCodeJob.php:23 | The queue's run from attempt k, at most `$tries` = 3 attempts in all, keeps the review present and every other review row unchanged at its position |
| AnalysisJob.RunFromStep | codereview-ai-backend/app/Jobs/AnalyzeCodeJob.php:96 | A returning attempt ends the run; a throw on attempt 3 leads to `failed()`; any other throw leads to the next attempt |
| AnalysisJob.RunStep | codereview-ai-backend/app/Jobs/AnalyzeCodeJob.php:103-114 | The same step stated over the attempt's resulting tables and outcome, as the worker observes them |
| AnalysisJob.RunSettles | codereview-ai-backend/app/Jobs/AnalyzeCodeJob.php:103-114 | Whatever the three replies, the job ends with the review `completed`, or `failed` with "Analysis failed after multiple retries. Please try again." and no new issue rows |
| AnalysisJob.RunCompletesIff | codereview-ai-backend/app/Jobs/AnalyzeCodeJob.php:82-114 | The job ends with the review `completed` exactly when one of the attempts from k to 3 gets a storable analysis: a throw is retried up to the third attempt, not given up earlier |
| AnalysisJob.RunStoresFirst | codereview-ai-backend/app/Jobs/AnalyzeCodeJob.php:32-98 | The first attempt with a storable analysis ends the job. The review row is the original one completed with that analysis, earlier failures leaving no trace, and exactly that analysis' rows are appended to the original issue table |
| AnalysisJob.RunExhausted | codereview-ai-backend/app/Jobs/AnalyzeCodeJob.php:82-114 | When no attempt from k to 3 gets a storable analysis, all three attempts are used. The review row is the original one marked `failed` with "Analysis failed after multiple retries. Please try again.", and the issue table and its key counter are as before the first attempt |
| AnalysisJob.AmendReview | codereview-ai-backend/app/Jobs/AnalyzeCodeJob.php:36 | The store update writes exactly the patch `Amend` describes |
| AnalysisJob.StoreIssues | codereview-ai-backend/app/Jobs/AnalyzeCodeJob.php:64-74 | The insert `foreach` leaves exactly the tables `InsertRows` describes, or reports its first failure |
| AnalysisJob.AnalyzeCodeJob.constructor | codereview-ai-backend/app/Jobs/AnalyzeCodeJob.php:25-27 | The job remembers the review it was dispatched for |
| AnalysisJob.AnalyzeCodeJob.Catch | codereview-ai-backend/app/Jobs/AnalyzeCodeJob.php:82-97 | The catch block writes `failed` with the message for an exception, leaves the row for an `Error`, and rethrows either |
| AnalysisJob.AnalyzeCodeJob.Handle | codereview-ai-backend/app/Jobs/AnalyzeCodeJob.php:32-98 | One run of `handle` leaves exactly the tables and outcome `Attempt` describes, including the rollback |
| AnalysisJob.AnalyzeCodeJob.Failed | codereview-ai-backend/app/Jobs/AnalyzeCodeJob.php:103-114 | `failed()` writes `failed` with the fixed "after multiple retries" text and changes nothing else |
| AnalysisJob.Analyses | codereview-ai-backend/app/Services/ClaudeAIService.php:24-64 | The i-th attempt's analysis is what `analyzeCode` gives for the i-th reply |
| AnalysisJob.Deliver | codereview-ai-backend/app/Jobs/AnalyzeCodeJob.php:23 | One delivery runs `handle` and, when attempt 3 throws, `failed()`; it either ends the job or leaves the rest of the run to attempt k + 1 |
| AnalysisJob.RunQueuedJob | codereview-ai-backend/app/Jobs/AnalyzeCodeJob.php:23 | The worker loop makes between 1 and 3 attempts and leaves exactly the tables `RunFrom` describes |
| SubmitCodeRequest.Check | codereview-ai-backend/app/Http/Requests/SubmitCodeRequest.php:41-53 | A rule adds its message exactly when it fails |
| SubmitCodeRequest.UserNameErrors | codereview-ai-backend/app/Http/Requests/SubmitCodeRequest.php:16-20 | A missing or blank name reports only "Please provide your name." |
| SubmitCodeRequest.FilenameErrors | codereview-ai-backend/app/Http/Requests/SubmitCodeRequest.php:21-26 | A missing or blank filename reports only "Please provide a filename for your code." |
| SubmitCodeRequest.LanguageErrors | codereview-ai-backend/app/Http/Requests/SubmitCodeRequest.php:27-31 | A missing or blank language reports only "Please select a programming language." |
| SubmitCodeRequest.CodeErrors | codereview-ai-backend/app/Http/Requests/SubmitCodeRequest.php:32-37 | Missing or blank code reports only "Please provide the code to review." |
| SubmitCodeRequest.UserNameAccepted | codereview-ai-backend/app/Http/Requests/SubmitCodeRequest.php:16-20 | `user_name` passes iff present, not blank and at most 100 characters; a longer one gets the stock `max` message |
| SubmitCodeRequest.FilenameAccepted | codereview-ai-backend/app/Http/Requests/SubmitCodeRequest.php:21-26 | `filename` passes iff present, not blank, at most 255 characters and made only of letters, digits, `_`, `-`, `.` and space; otherwise "Filename contains invalid characters." |
| SubmitCodeRequest.LanguageAccepted | codereview-ai-backend/app/Http/Requests/SubmitCodeRequest.php:27-31 | `language` passes iff it is one of the ten listed tags |
| SubmitCodeRequest.LanguageRejected | codereview-ai-backend/app/Http/Requests/SubmitCodeRequest.php:48 | A present language outside the list gets exactly "The selected language is not supported." |
| SubmitCodeRequest.LanguageNotBlank | codereview-ai-backend/app/Http/Requests/SubmitCodeRequest.php:30 | No listed tag is blank, so the `required` rule never fires on one |
| SubmitCodeRequest.CodeAccepted | codereview-ai-backend/app/Http/Requests/SubmitCodeRequest.php:32-37 | `code` passes iff present, not blank and between 10 and 50000 characters, with the matching min and max messages |
| SubmitCodeRequest.ValidIffEveryField | codereview-ai-backend/app/Http/Requests/SubmitCodeRequest.php:13-53 | A request passes iff all four fields pass; a missing `code` always reports "Please provide the code to review." |
| SubmitCodeRequest.Accept | codereview-ai-backend/app/Http/Requests/SubmitCodeRequest.php:13-39 | Validated input is produced iff the request passes, and it is the four submitted strings |
| CodeReviewController.JobQueue.Dispatch | codereview-ai-backend/app/Http/Controllers/Api/CodeReviewController.php:57 | Dispatching appends exactly one job for the review |
| CodeReviewController.Store | codereview-ai-backend/app/Http/Controllers/Api/CodeReviewController.php:46-64 | An invalid request changes nothing and returns the errors. A valid one adds one pending row under a fresh key, returns it and queues exactly one job for it |
| CodeReviewController.StoredReviewIsPending | codereview-ai-backend/app/Http/Controllers/Api/CodeReviewController.php:48-54 | The new row, found under its fresh key, is `pending` with no analysis, every counter 0 and the submitted name and code |
| CodeReviewController.Destroy | codereview-ai-backend/app/Http/Controllers/Api/CodeReviewController.php:82-90 | An unknown key changes nothing; a known one deletes the review with the cascade |
| CodeReviewController.DestroyRemovesExactly | codereview-ai-backend/app/Http/Controllers/Api/CodeReviewController.php:84 | After the delete the review and all its issue rows are gone, every other review and issue row remains, and the tables stay well formed |
| CodeReviewController.UserReviews | codereview-ai-backend/app/Http/Controllers/Api/CodeReviewController.php:26 | The filter keeps exactly the reviews with that `user_name` |
| CodeReviewController.CurrentPage | codereview-ai-backend/app/Http/Controllers/Api/CodeReviewController.php:29 | The page is at least 1 and is the requested page when that is at least 1 |
| CodeReviewController.LastPage | codereview-ai-backend/app/Http/Controllers/Api/CodeReviewController.php:36 | The last page is the number of 15-row pages needed, and 1 when there is nothing |
| CodeReviewController.Slice | codereview-ai-backend/app/Http/Controllers/Api/CodeReviewController.php:29 | A page holds at most 15 rows, the consecutive ones starting at (page - 1) * 15 |
| CodeReviewController.WithIssues | codereview-ai-backend/app/Http/Controllers/Api/CodeReviewController.php:27 | Each listed review carries exactly its own issue rows |
| CodeReviewController.Index | codereview-ai-backend/app/Http/Controllers/Api/CodeReviewController.php:20-41 | A missing or blank `user_name` is rejected (iff) with the stock `required` message |
| CodeReviewController.IndexPage | codereview-ai-backend/app/Http/Controllers/Api/CodeReviewController.php:26-39 | A page holds at most 15 of the user's own reviews, each with its issues, newest first, and is exactly the slice of the newest-first list that the page number selects; `total` is the user's review count |
| CodeReviewController.EveryReviewOnItsPage | codereview-ai-backend/app/Http/Controllers/Api/CodeReviewController.php:26-36 | The k-th newest review of the user is item k mod 15 of page k div 15 + 1, which is within `last_page` |
| CodeReviewController.SumOf | codereview-ai-backend/app/Http/Controllers/Api/CodeReviewController.php:105-106 | The sum over no reviews is 0, and the sum bounds every review's value in the column |
| CodeReviewController.UserIssueRows | codereview-ai-backend/app/Http/Controllers/Api/CodeReviewController.php:121-123 | The join keeps exactly the issue rows whose review belongs to the user |
| CodeReviewController.CountType | codereview-ai-backend/app/Http/Controllers/Api/CodeReviewController.php:124 | The count of a type is positive iff some row has that type |
| CodeReviewController.Types | codereview-ai-backend/app/Http/Controllers/Api/CodeReviewController.php:125 | The group keys are exactly the types that occur, each once |
| CodeReviewController.Groups | codereview-ai-backend/app/Http/Controllers/Api/CodeReviewController.php:124-125 | The groups are exactly the pairs of an occurring type and its row count, one group per type |
| CodeReviewController.Counted | codereview-ai-backend/app/Http/Controllers/Api/CodeReviewController.php:124 | Each type is paired with the number of its rows |
| CodeReviewController.ReviewStats | codereview-ai-backend/app/Http/Controllers/Api/CodeReviewController.php:95-144 | A missing or blank `user_name` is rejected (iff) with the stock `required` message |
| CodeReviewController.StatsFigures | codereview-ai-backend/app/Http/Controllers/Api/CodeReviewController.php:103-118 | `total_reviews` counts exactly the user's reviews, `total_issues` and the severity totals are the column sums, the average is 0 iff there are no reviews, and every figure is 0 then (`?? 0`) |
| CodeReviewController.SeveritySumsAddUp | codereview-ai-backend/app/Http/Controllers/Api/CodeReviewController.php:112-118 | If each review's counters add up to its total, the three column sums add up to the summed total |
| CodeReviewController.StatsSeveritiesAddUp | codereview-ai-backend/app/Http/Controllers/Api/CodeReviewController.php:105-139 | When the user's reviews have counters that add up, as completed ones do, the severity totals add up to `total_issues` |
| CodeReviewController.CommonIssuesTop | codereview-ai-backend/app/Http/Controllers/Api/CodeReviewController.php:121-128 | `common_issues` has at most 5 groups, by non-increasing count, each type listed once with the count of its rows; a type left out has no more rows than any listed one, and then 5 are listed |
| CodeReviewController.CommonIssuesDistinct | codereview-ai-backend/app/Http/Controllers/Api/CodeReviewController.php:125-127 | No type appears twice in `common_issues`: the sort and the limit keep the groups of `groupBy` distinct |
| CodeReviewController.CommonIssuesCutOff | codereview-ai-backend/app/Http/Controllers/Api/CodeReviewController.php:126-127 | A type with rows that was cut off ranks no higher than every listed type, and the limit of 5 was reached |
| CodeReviewController.CommonIssuesAreGroups | codereview-ai-backend/app/Http/Controllers/Api/CodeReviewController.php:124-125 | Every listed group is a type that occurs together with its row count |
| Ordering.SortDescending | codereview-ai-backend/app/Models/CodeReview.php:42-45 | `ORDER BY … DESC` yields a permutation of its input in non-increasing key order |
| Ordering.TakeDescending | codereview-ai-backend/app/Http/Controllers/Api/CodeReviewController.php:126-127 | A `LIMIT` of a descending list is descending |
| Ordering.CutOffRanksLower | codereview-ai-backend/app/Http/Controllers/Api/CodeReviewController.php:126-127 | An element cut off by `LIMIT n` ranks no higher than every kept one, and n were kept |
| Ordering.PermutationKeepsDistinct | codereview-ai-backend/app/Http/Controllers/Api/CodeReviewController.php:126 | Reordering a sequence without repeats leaves it without repeats |

## Left out

- `SubmitCodeRequest::authorize` returns `true` for every request, so the model has no authorization step.
- The outbound HTTP request is left out: headers, API key, model name, `max_tokens`, the 120 s timeout and `$response->json()`. A `Reply` value stands for what the request produced: a status with the text at `content[0].text` if any, or a thrown exception.
- `json_decode` is left out. The model takes the decoder as a parameter (`decode`): it gives the decoded value, or nothing in place of the `JsonException`.
- `buildPrompt` and `testConnection` are not modelled: the first is a fixed template, the second a connectivity probe.
- Logging (`Log::…`) is left out; it is observability only.
- The average's value (`round($totalIssues / $totalReviews, 1)`) is floating point and left out. `Average` keeps only the zero-review case and the ratio's operands.
- The queue machinery is left out: workers, the 300 s `$timeout`, serialisation, backoff and concurrent redelivery. Only the sequential loop of at most three attempts is modelled.
- RunQueuedJob: always receives exactly `$tries` replies, one per possible attempt, since an attempt's reply is an input of the model.
- A job whose review was deleted before it ran is left out. Every job operation requires the review row to exist.
- `show` is not modelled: it only loads one review with its issues, the same as what `WithIssues` gives.
- The API resources, the routes and the frontend are presentation and routing, and are not modelled.
- The `string` rules and non-string request input (arrays, numbers) are left out. A field is either missing or text.
- The framework's `TrimStrings` input middleware and the PCRE newline before `$` are left out. Rules are checked on the text as given, and `Blank` trims with PHP's `trim` set.
- AnalysisJob.Attempt: an array `summary` is written to `ai_analysis` as a value. The framework's query grammar encodes an array bound in an update as JSON text, and the model keeps the decoded value in its place.
- ReviewStore.Database.Restore: the model assumes SQLite, Laravel's stock default; no database configuration is part of this model. A rollback also resets the key counters, so keys used inside a rolled-back transaction are used again. MySQL and PostgreSQL do not reuse them.
- Schema.SeverityColumn: as in SQLite, the enum is a case-sensitive check. A MySQL enum under a case-insensitive collation, or with trailing spaces ignored, would accept more texts.
- AnalysisJob.UnknownSeverityFailsAttempt: relies on that SQLite refusal.
- Json: a number is an integer. A float value such as `"line": 3.5`, or a severity `1.5` that `strtolower` turns into `"1.5"`, is not modelled.
- Json.Lookup: an object with a repeated key is not modelled. `json_decode` keeps the last value of a repeated key, and a PHP array has unique keys; the model reads the first.
- Column type coercion is left out. `line_number`, `type`, `message`, `suggestion` and `code_snippet` keep the decoded value when it is not an array (for instance a non-integer `line`), as does `ai_analysis`. So `CommonIssues` groups by the decoded JSON value: a `type` of `1` and one of `"1"` form two groups, where a TEXT column would store both as `1` and group them together.
- The wording of the database's refusal of a bad severity (`SeverityRejectedMessage`) and of the binding error for an array (`UnbindableMessage`) depends on the driver and the framework; only their being exceptions matters.
- Eloquent's dirty tracking of the in-memory model after a rollback is left out. The row is modelled as what the database holds.
- `Index`: a non-numeric `page` is not modelled; a page below 1 reads as 1.
- `Ordering.SortDescending`: the order of rows with equal keys is not fixed by SQL; the model keeps their table order (a stable sort).
- Timestamps are reduced to `created_at`, which the listing orders by, and the creation time is a parameter.
