# Legal research assistant: a Dafny model of the page logic

This project models the logic inside the PHP pages of a legal-case
research assistant. The assistant stores court decisions ("sentences"), their
classifications, generated analyses and pairwise comparisons. It asks a
text-generation service for an analysis or comparison when none is stored,
and stores what comes back. It also keeps per-address topic alerts and a
per-session chat transcript.

The model is functional. The datastore is one immutable `Schema.Db` value
that holds every table as a sequence of rows in storage order, plus the
AUTO_INCREMENT counters. Each page request is a pure function from the store
and the request to the new store and what the page shows. The service's
answer is a parameter: `Option<string>` for one call, or a sequence of them
for the search batch. Every request the pages send is a `Prompts.Prompt`
value, and `Prompts.Text` spells out its message text.

The modules follow the program's structure:

- `Wrappers`: `Option`.
- `Text`: PHP `trim`, `empty()` on strings, and the ASCII word and case rules PCRE applies.
- `Sql`: the SQL clauses the pages use, over sequences of rows:
  - `WHERE` filtering;
  - `ORDER BY … DESC` and `LIMIT`;
  - `LEFT JOIN` and `JOIN`, as nested loops;
  - `GROUP BY … COUNT(*)`.
- `Schema`: the tables and `Db`, the joined case rows, and `fetch()` (the first row) against a loop that keeps the last row.
- `Sections`: the section extractor that view.php and compare.php share, the regex `/\bKEY\b.*?:(.*?)(?=\b(?:K1|…|Kn)\b|$)/si`.
- `Escape`: `sanitizeInput` and `formatJudicialSummary`:
  - `htmlspecialchars`, with PHP 8.1 defaults, so `'` becomes `&#039;`;
  - `nl2br`;
  - a decoder used to state that escaping loses nothing.
- `Prompts`: the four request templates.
- `SearchLoop` and `CaseSearch`: search.php.
- `CaseView`: view.php.
- `CaseComparison`: compare.php.
- `Alerts`: alerts.php.
- `Chat`: chat.php.

Where the code and the documented design of the system differ, the model
follows the code:

- **Analysis cache (view.php:30).** The cache check is `empty($case['summary'])`. A stored analysis whose summary is "" or "0" is therefore no cache hit: it is generated and inserted again on every visit, while the stale row stays the one fetched (rows are read in insertion order, see "## Left out"). This is `CaseView.EmptySummaryRegeneratesForever`. Caching holds only for a non-empty generated summary, as `CaseView.GeneratedAnalysisIsCached` states.
- **Search enrichment (search.php:29-55).** Once the first result lacks a summary, every result gets a request, whether or not it has a summary of its own. An answer without content skips that result. An insert that throws ends the whole loop (`SearchLoop.EnrichStopsAtFault`).
- **Section extractor (view.php:53).**
  - The stop markers include the key's own name: "Summary: the summary is" stores "the".
  - The keys are the snake_case column names, so the heading "Proven Facts:" never fills `proven_facts`.
  - Matching is word-bounded and ASCII case-insensitive, not whitespace-tolerant.

## Model

| member | source | states |
|---|---|---|
| Text.Trim | config.php:52 | The result is the input with the maximal runs of trim characters (space, tab, LF, CR, NUL, vertical tab) removed from both ends, and nothing else removed. |
| Text.TrimUnique | config.php:52 | Any slice framed by trim characters on both sides and trimmed itself is what `trim` returns. |
| Text.TrimIgnoresPadding | config.php:52 | Whitespace added around a text does not change its `trim`. |
| Sql.Filter | compare.php:45 | WHERE keeps exactly the rows satisfying the condition and no other row, never more copies of a row than are stored. |
| Sql.FilterCount | compare.php:45 | WHERE keeps every copy of a satisfying row and no copy of any other row. |
| Sql.FilterPositions | compare.php:45 | The rows WHERE keeps sit at strictly increasing positions of the table, and every satisfying position is among them: storage order is kept. |
| Sql.FilterIdempotent | alerts.php:56 | Applying the same WHERE twice removes nothing more. |
| Sql.FilterKeepsAll | alerts.php:56 | A condition every row satisfies removes no row. |
| Sql.SortDesc | alerts.php:98 | ORDER BY … DESC returns a permutation of the rows sorted by the key, largest first. |
| Sql.Limit | chat.php:32 | LIMIT n keeps the first min(n, rows) rows. |
| Sql.TopBy | alerts.php:110-115 | ORDER BY … DESC LIMIT n: min(n, rows) input rows, sorted. Any stored copy left out, even of a row that is also kept, means n rows were kept, each with a key no smaller than its own. |
| Sql.TopWhere | search.php:14-22 | WHERE … ORDER BY … DESC LIMIT n: min(n, satisfying rows) satisfying input rows, no row more often than it is stored, sorted. Any stored copy of a satisfying row left out, even of a row that is also kept, means n were kept, none ranking below it. |
| Sql.JoinOne | view.php:17 | One left row joins each matching right row once per stored copy, or NULL exactly once when none matches; its first joined row carries the first match. |
| Sql.LeftJoin | view.php:16-18 | Every matching pair appears once per copy of its two rows, every left row without a match appears with NULL once per copy, and no other row appears. |
| Sql.InnerJoin | alerts.php:95-96 | Exactly the matching pairs of a left and a right row, each once per stored copy of its two rows. |
| Sql.GroupCount | alerts.php:111-113 | One pair per distinct value, holding that value's number of occurrences. |
| Schema.ClassifiedRows | view.php:82-84 | The sentence/classification join pairs each sentence with classifications of that sentence only. |
| Schema.CaseRows | search.php:14-17 | The three-table join row carries a stored sentence and, when present, an analysis of that very sentence. |
| Sql.First | view.php:23 | `fetch()`: a matching row when one exists and `None` exactly when none matches. |
| Sql.FirstIsEarliest | view.php:23 | `fetch()` returns the earliest matching row in storage order. |
| Sql.FirstAfterAppend | view.php:59-64 | Inserting a row does not change what `fetch()` finds when it found something before. Otherwise the new row is found when it matches. |
| Sql.FirstOfConcat | view.php:23 | `fetch()` on rows produced in two runs finds the first run's match, else the second's. |
| Sql.FirstOfLeftJoin | view.php:16-23 | The first joined row whose left row satisfies a test is that left row's first match in the left table, paired with its first matching right row, or NULL. |
| Sql.Last | compare.php:50-56 | A loop that overwrites one slot per matching row ends with a matching row, and with none exactly when no row matches. |
| Sql.LastOfFilter | compare.php:39-56 | The overwriting loop over the rows a WHERE kept ends on the last row of the whole table satisfying both the WHERE and the loop's own test. |
| Sql.LastOfCons | compare.php:50-56 | The last match of a row followed by more rows is the last match among those rows, else the row itself. |
| Schema.SentenceById | compare.php:16-18 | The first-case lookup finds a sentence with that id, or `None` exactly when there is none. |
| Schema.FetchCase | view.php:13-23 | The case query returns the sentence with that id joined with its first classification and first analysis, and `None` exactly when no sentence has the id. |
| Schema.FirstClassifiedRow | view.php:16-17 | The first sentence/classification row for an id is the sentence with that id paired with its first classification. |
| Schema.FirstAnalysedRow | view.php:16-18 | The first three-table row for an id is the sentence with that id, its first classification and its first analysis. |
| Schema.FetchCaseIsFirstJoinedRow | view.php:13-23 | The case lookup is `fetch()`, the first row of the three-table join whose sentence has the id. |
| Schema.AnalysisRow | view.php:59-74 | The row is stored under the case id, and reading any of its six text columns back by its SQL name gives the section stored under that name. |
| Sections.FindKey | view.php:53 | The first position at or after the start where the key occurs whole-word and case-insensitively. |
| Sections.FindColon | view.php:53 | The first ':' at or after the start. |
| Sections.FindEnd | view.php:53 | The first position where the lookahead (a whole-word key, or `$`) succeeds. |
| Sections.Section | view.php:52-55 | The stored value is trimmed and is a contiguous piece of the reply. |
| Sections.Extract | view.php:42-56 | There is exactly one entry per expected key, each trimmed and a piece of the reply. |
| Sections.ExtractHasAnalysisKeys | view.php:42-49 | All six analysis columns are present. |
| Sections.ExtractHasComparisonKeys | compare.php:83-87 | All three comparison columns are present. |
| Sections.MatchStartsAtFirstOccurrence | view.php:53 | The leftmost regex match starts at the key's first whole-word occurrence. |
| Sections.ExtractFollowsRegex | view.php:53-54 | For any match the regex reports (leftmost start, lazy colon, first stop), the stored value is `trim` of its capture group. |
| Sections.ExtractWithoutMatch | view.php:53 | When the pattern cannot match, the stored value is "". |
| Sections.CaptureStopsAtKeys | view.php:53 | No expected key, its own included, starts whole-word inside a capture. |
| Sections.SummaryStopsAtItsOwnName | view.php:53-54 | "Summary: the summary is" stores "the" as the summary. |
| Sections.HeadingWithoutUnderscoreLeavesColumnEmpty | view.php:53 | In a reply without '_', any key holding '_' is stored as "". |
| Sections.ProvenFactsHeadingIsMissed | view.php:53 | "Proven Facts: X" leaves `proven_facts` empty. |
| Escape.EscapeChar | config.php:52 | `htmlspecialchars` replaces each of & " ' < > by its reference and keeps every other character; anything replaced becomes a single reference, and decoding it gives the character back. |
| Escape.HtmlSpecialChars | config.php:52 | The result holds no < > " ' character, and every & in it starts one of the five references. |
| Escape.UnescapeInvertsHtmlSpecialChars | config.php:52 | Decoding the references gives back the original text: escaping loses nothing. |
| Escape.PlainTextUnchanged | config.php:52 | Text without any of the five special characters passes through unchanged. |
| Escape.SanitizeInput | config.php:51-53 | The result is escaped, and decodes to `strip_tags` of the trimmed input. |
| Escape.SanitizeIgnoresPadding | config.php:52 | Surrounding whitespace does not change the result. |
| Escape.SanitizeNotIdempotent | config.php:52 | "&" becomes "&amp;" and then "&amp;amp;". |
| Escape.Nl2brInsertsOnlyBreaks | config.php:57 | On text without '<', every '<' of the `nl2br` output starts a "<br />" right before a line break, and removing them gives the text back. |
| Escape.FormatJudicialSummary | config.php:56-58 | The only markup in the result is "<br />" before line breaks, and removing it gives `sanitizeInput`'s result. |
| Prompts.AnalysisTextHoldsContent | view.php:31-35 | The analysis request carries the whole case text right after the fixed lead. |
| Prompts.SummaryTextHoldsContent | search.php:32-34 | The summary request carries the whole case text right after the fixed lead. |
| Prompts.SameTextSameContent | view.php:31-35 | Two analysis requests, or two summary requests, with equal text concern the same case text. |
| Prompts.ComparisonTextHoldsBothCases | compare.php:69-75 | The comparison request carries the first case text after the lead and the second right before the closing instructions. |
| Prompts.ChatTextHoldsQuestion | chat.php:45-50 | The chat request starts with the context and carries the whole question right before the closing instructions. |
| SearchLoop.Stop | search.php:30-55 | The loop stops at the failing insert, if one lies ahead, or else at the end. |
| SearchLoop.Enrich | search.php:30-55 | The loop sends one summary request per result up to and including the failing one. It appends exactly the rows of the completed iterations, and reports "Database error: " plus the driver message exactly when an insert threw. |
| SearchLoop.EnrichedRows | search.php:39-47 | Each result after the loop is answered exactly when its iteration completed before the loop stopped. |
| SearchLoop.EnrichAnswers | search.php:30-49 | The loop keeps the cases, their order and their case types. It changes only the summaries of answered results before the stop, each to the whole reply. |
| SearchLoop.EnrichRunsToTheEnd | search.php:30-49 | Without a failing insert, every result gets one request, every answer is shown and stored, and no error is set. |
| SearchLoop.EnrichStopsAtFault | search.php:41-52 | A failing insert for result k sends k+1 requests and stores and shows only the answers before k. It reports the error. |
| CaseSearch.Hits | search.php:14-26 | min(10, matching rows) joined rows, each matching the query in content, title or case type and none more often than stored, newest first. Any stored copy of a matching row left out, even of a row that is also kept, means 10 rows were kept, none older than it. |
| CaseSearch.Answer | search.php:26-55 | For fetched hits, `$results` after the loop holds the same cases in order; the loop runs exactly when the first lacks a summary; only analyses are appended; the error is set exactly when an insert on an answered result fails. |
| CaseSearch.Search | search.php:5-55 | An empty or "0" query changes nothing: no results, requests or error. Otherwise `$results` after the loop holds the selected hits, at most 10, in order; requests go out exactly when the first hit lacks a summary; the store only gains analyses, and only then; and the error is set exactly when an answered insert fails, with the driver message. |
| CaseSearch.AnswerRunsToTheEnd | search.php:29-49 | For fetched hits that run the loop with no failing insert: one request per hit in order, each answered hit shows its answer, every answer is stored, no error. |
| CaseSearch.AnswerStopsAtFault | search.php:37-55 | For fetched hits whose insert for hit k throws: k+1 requests, hits from k on unchanged, only earlier answers stored, and the error shown. |
| CaseSearch.EveryResultGetsOneAttempt | search.php:29-49 | Once the loop runs and no insert fails, every selected result gets exactly one request, in order, whatever its own summary; each answered result shows the whole answer, every answer is stored, and no error is set. |
| CaseSearch.FailingInsertAbortsTheRest | search.php:37-55 | A failing insert for result k ends the loop: k+1 requests, result k and every later one keep the summary they were fetched with, only the earlier answers are stored, and the driver message is shown. |
| CaseSearch.ReferenceIn | search.php:30-52 | The element `$result` still references after the loop: the one whose insert failed, else the last. |
| CaseSearch.AnswerListsAsWritten | search.php:30-133 | For fetched hits that run the loop, the page as written lists `$results` with the referenced element overwritten. |
| CaseSearch.PageListsAsWritten | search.php:5-133 | As written, a reference is left exactly when the loop ran, and then the page lists `$results` with that element overwritten; otherwise it lists `$results` as they are. |
| CaseSearch.Shown | search.php:133-158 | With the reference released, the page lists exactly the results. |
| CaseSearch.RenderLoopPlain | search.php:133 | A by-value loop with no live reference visits the results unchanged. |
| CaseSearch.RenderLoopAliased | search.php:133 | A by-value loop over an array one of whose elements is referenced by the loop variable overwrites that element with the one before it. |
| CaseSearch.ShownAsWrittenRepeatsPrevious | search.php:30-133 | As written, the element the enrichment loop left referenced is shown as a copy of the element before it. |
| CaseSearch.ShownAsWrittenRepeatsPenultimate | search.php:30-133 | As written, after a full enrichment loop the last result is shown as a copy of the second-to-last. |
| CaseSearch.TwoResultsShowTheFirstTwice | search.php:30-133 | As written, two enriched results x, y are listed as x, x. |
| CaseView.Related | view.php:82-95 | min(5, qualifying rows) other cases of the same (non-NULL) case type, none more often than stored, newest first. Any stored copy of a qualifying row left out, even of a row that is also kept, means 5 were kept, none older. |
| CaseView.AnalysisSectionsComeFromReply | view.php:41-74 | The generated analysis is stored under the case id, and each of its six columns is a trimmed, contiguous piece of the reply. |
| CaseView.ViewCase | view.php:5-95 | Covers the whole page: a missing, non-integer or zero id redirects with no work; the case is shown exactly when the id is valid and a sentence has it; an unknown id shows "Case not found" with no call; there is a request exactly when the fetched summary is empty; and a row is inserted exactly when there is also an answer, with the shown analysis becoming that row while the other fields stay as fetched. |
| CaseView.GeneratedAnalysisIsCached | view.php:23-30 | A case analysed once, with a non-empty summary, is served from the store on the next visit: no second call and the same page. |
| CaseView.EmptySummaryRegeneratesForever | view.php:30-74 | A stored empty summary triggers a request on every visit, and every answer appends another row, while the fetched row stays the stale one. |
| CaseComparison.FindComparison | compare.php:59-65 | The lookup finds a stored comparison linking the two ids in either column order, and `None` exactly when no row links them. |
| CaseComparison.ComparisonLookupIsSymmetric | compare.php:59-64 | Looking up (a, b) and (b, a) gives the same row. |
| CaseComparison.Candidates | compare.php:25-34 | min(10, other cases) cases other than the first, none more often than stored, newest first. Any stored copy of another case's row left out, even of a row that is also kept, means 10 were kept, none older. |
| CaseComparison.PairRows | compare.php:39-48 | Exactly the joined rows of the two requested ids. |
| CaseComparison.AssignSlots | compare.php:50-56 | The case1 slot ends with the last fetched row whose id is case1 and the case2 slot with the last other row. |
| CaseComparison.SlotsHoldLastRows | compare.php:39-56 | After the loop over `WHERE s.id IN (?, ?)`, case1 holds the last joined row of the first id in storage order, and case2 the last joined row of the second id, or nothing when both ids are equal. |
| CaseComparison.ComparisonSectionsComeFromReply | compare.php:80-93 | Each of the three shown and stored sections is a trimmed, contiguous piece of the reply. |
| CaseComparison.Compare | compare.php:5-119 | Covers the whole page: a request without a valid case1 redirects, whatever case2 is; selection mode shows "First case not found" or the candidates; any stored comparison, even an empty one, suppresses the call; and exactly one row is inserted, in request order and equal to the shown text, exactly when a call is answered. |
| CaseComparison.GeneratedComparisonServesBothOrders | compare.php:59-113 | A comparison generated for (a, b) is served from the store for (a, b) and for (b, a), with no further call and the same text. |
| CaseComparison.EvolutionNotesNeedTheUnderscoredHeading | compare.php:83-93 | A reply without '_' leaves the evolution notes empty. |
| Alerts.ParseFrequency | alerts.php:19-21 | Each of the three names gives its own frequency, and anything else gives weekly. |
| Alerts.UserByEmail | alerts.php:28-30 | A subscriber with that address, or `None` exactly when there is none. |
| Alerts.OwnedAlerts | alerts.php:93-98 | The join of the address's subscribers with the alerts: exactly the pairs of a subscriber with that address and an alert it owns, each once per stored copy of the two rows. |
| Alerts.Subscribe | alerts.php:14-48 | Covers the subscribe action: with a missing address, name or topic, nothing changes and the error is shown; otherwise exactly one alert is appended with the next id, the sanitized topic and the normalised frequency, the existing subscriber with that address is reused unchanged (or exactly one is created), and no other table changes. |
| Alerts.Unsubscribe | alerts.php:50-60 | An invalid or zero id shows the error and changes nothing. Otherwise exactly the alerts with that id are removed, whoever owns them. |
| Alerts.SetFrequency | alerts.php:72-77 | Only the frequency of alerts with that id changes; ids, owners, topics and timestamps stay. |
| Alerts.Update | alerts.php:62-80 | An invalid or zero id shows the error and changes nothing. Otherwise only the alerts table changes, it keeps its length, and each alert keeps every field but the frequency; the alerts with that id get the normalised frequency and every other alert stays as it was. |
| Alerts.PostTouchesOnlyAlertTables | alerts.php:10-86 | Whatever is posted, only the subscriber and alert tables change: subscribers are kept unchanged and at most one is added, at most one alert is added, an error leaves the store as it was, and nothing is shown exactly when the action is missing or unknown. |
| Alerts.Listing | alerts.php:89-106 | Without a valid, non-empty address the listing is empty. Otherwise it holds exactly the (subscriber, alert) pairs of that address, each once per stored copy of its two rows, newest first. |
| Alerts.PopularTopics | alerts.php:109-118 | At most 10 distinct case types, each with its true count, most common first. A type left out means 10 were listed, each at least as common. |
| Alerts.SubscriptionIsListed | alerts.php:41-101 | After a subscription, the listing for the address shows the new alert with its topic and frequency. |
| Alerts.SubscriberIsReused | alerts.php:28-38 | A second subscription with the same address creates no subscriber. |
| Alerts.UnsubscribedAlertIsNotListed | alerts.php:56-101 | An unsubscribed alert is in no listing. |
| Alerts.UnsubscribeIsIdempotent | alerts.php:56-57 | Unsubscribing twice leaves the store as unsubscribing once. |
| Alerts.UnknownIdStillSucceeds | alerts.php:50-80 | For an id no alert has, both actions leave the store unchanged and still report success. |
| Alerts.UpdateIsIdempotent | alerts.php:72-77 | Setting the same frequency twice equals setting it once. |
| Alerts.UpdatedAlertIsListedWithFrequency | alerts.php:72-101 | After an update, the listing shows the new frequency for that alert. |
| Alerts.ConfirmationShowsStoredTopic | alerts.php:18-47 | The success message escapes the already escaped topic, so what the browser shows is the topic as stored. |
| Chat.EntriesAppend | chat.php:39-42 | The context entries of two runs of cases are those of the first run followed by those of the second. |
| Chat.ContextHasEveryCase | chat.php:38-42 | Every consulted case has its own entry in the context, in order. |
| Chat.Ask | chat.php:15-68 | Covers one posted message: the question is appended before the search; a search error leaves just it and shows the driver message; otherwise at most 3 ranked cases are consulted in rank order and put into the request; an answer is appended (history +2), and its absence shows "Failed to get response from AI" (history +1). |
| Chat.ChatPage | chat.php:7-74 | The history starts empty only when absent. A request without a message leaves it alone, and `clear_chat` empties it after the message is handled. |
| Chat.ChatKeepsAnswersAfterQuestions | chat.php:20-62 | Every assistant turn in the history directly follows a user turn. |
| Chat.AnsweredAsk | chat.php:20-62 | An answered question appends the question and then the answer. |
| Chat.ConversationAccumulates | chat.php:20-62 | Two answered messages append both exchanges, in order. |
| Chat.UnansweredQuestionIsKept | chat.php:20-68 | A question without an answer stays in the history on its own, and the error is shown. |

## Left out

- HTML rendering of every page, and index.php, which is static markup. The only display logic modelled is the search results loop, for the finding below.
- PDO connection and SQL execution. Tables are sequences, and queries are the `Sql` functions over them.
- Driver errors. Every query and every write is assumed to succeed, except in two places: an enrichment insert that throws (search.php:37-52, which ends the loop), and a chat search query that throws (chat.php:26-35, where the driver message is shown). The model does not cover these failures: the search query itself (search.php:24-26, which would leave no results and show "Database error: …" at search.php:51-52); the case and related-case reads and the analysis insert of view.php:11-99; the reads and the comparison insert of compare.php:12-122; the alert writes of alerts.php:11-86; the listing query (alerts.php:90-106, which would leave the listing empty and show the message); and the popular-topics query (alerts.php:109-121, which would leave the suggestions empty).
- Reading order without ORDER BY. The model reads every table in insertion order, and runs each join as nested loops over the left table then the right. MySQL promises neither; the model fixes this order so that `fetch()` (the first row) and the overwriting loops have one definite result. Sql.FirstIsEarliest, Schema.FetchCaseIsFirstJoinedRow, CaseComparison.AssignSlots and CaseView.EmptySummaryRegeneratesForever depend on it.
- Row order among equal sort keys. SQL leaves it unspecified, so the contracts about sorted results do not fix it.
- CaseSearch.Hits: models `LIKE '%q%'` as exact, case-sensitive substring search. MySQL's case-insensitive collation, and the `%` and `_` wildcards inside a user query, are not modelled.
- Chat.Ask: the `MATCH … AGAINST` relevance ranking is the parameter `ranked`. Only the cut to the first three rows is modelled.
- CaseView.Related: compares `c.case_type = :case_type` (view.php:85) exactly, not under MySQL's case-insensitive collation.
- Alerts.UserByEmail: compares addresses exactly, not under MySQL's case-insensitive collation.
- Alerts.PopularTopics: groups case types by exact equality, not under the collation. The exception path that shows no topics is not modelled, because no modelled store operation fails there.
- Alerts.HandlePost: the `try … catch` that turns a driver error into the error message is not modelled beyond the page's own validation errors.
- `strip_tags` is the function parameter `strip`. Only its use after `trim` and before `htmlspecialchars` is modelled.
- `FILTER_VALIDATE_INT` and `FILTER_VALIDATE_EMAIL`: the pages receive their verdict as an `Option` (`None` for false).
- The HTTP call to the completion service (`callOpenAI`, config.php:21-48), and JSON encoding and decoding. A reply is `Option<string>`, where `None` means no `choices[0].message.content`. The service's randomness and failures are all captured by that parameter.
- Dates and timestamps are integers ordered as the SQL values. `created_at` is the `now` parameter of a subscription. `strtotime` and `date` formatting are display-only.
- Sessions, headers and redirects. The chat session is an `Option` of the stored history, and a redirect is a `Redirect` page value.
- Concurrent requests, which can both miss a cache and insert duplicate rows. The code has no concurrency control to model.
- The generic `Exception` branch of search.php:53-54. No modelled step throws anything but a driver error there.
- NULL columns of analysis rows written by search.php are "" in `Schema.Analysis`. The pages display NULL and "" alike.

## Findings

| source | as written | input that shows it | evidently intended | confidence | as-written member | corrected member |
|---|---|---|---|---|---|---|
| search.php:30-133 | The enrichment loop `foreach ($results as &$result)` leaves `$result` a reference to the element it stopped on. The display loop `foreach ($results as $result)` then writes every shown row into that element, so it is shown as a copy of the row before it. | Two results x, y whose first has no summary: the loop runs to the end, and the page lists x, x instead of x, y. | Release the reference (`unset($result)`) after the enrichment loop, so the page lists the results as they are. | not executed | CaseSearch.TwoResultsShowTheFirstTwice | CaseSearch.Shown |
