/**
 * The search page (search.php): sanitize the query, select up to ten
 * matching cases newest first, and, when the first result has no summary,
 * ask the model for a summary of every result and store each answer.
 */
module CaseSearch {
  import opened Wrappers
  import opened Text
  import opened Sql
  import opened Schema
  import opened Escape
  import opened SearchLoop
  import opened Prompts

  /**
   * The store after the request, the sanitized query, `$results` after the
   * enrichment loop (the page lists it through ShownAsWritten), the error
   * shown, and the prompts sent, in order.
   */
  datatype SearchResult = SearchResult(db: Db, query: string, results: seq<SearchRow>, error: Option<string>, prompts: seq<Prompt>)

  const ResultLimit := 10

  /** `q` occurs in `text`: `text LIKE '%q%'` without wildcards in `q` and with exact character comparison. */
  predicate Contains(text: string, q: string) {
    exists i :: 0 <= i <= |text| - |q| && HasAt(text, i, q)
  }

  /** The WHERE clause: the query occurs in the content, the title, or the case type (a NULL case type matches nothing). */
  predicate Matches(q: string, row: CaseRow) {
    Contains(row.sentence.content, q) || Contains(row.sentence.title, q)
    || (row.classification.Some? && Contains(row.classification.value.caseType, q))
  }

  function CaseRecency(row: CaseRow): int {
    row.sentence.dateIssued
  }

  /** The WHERE clause as a condition on joined rows. */
  function MatchesQuery(q: string): CaseRow -> bool {
    (row: CaseRow) => Matches(q, row)
  }

  /**
   * The selected rows: up to ten matching rows of the full case join, newest
   * first; fewer only when fewer rows match.
   */
  function Hits(db: Db, q: string): (r: seq<CaseRow>)
    ensures |r| == if |Filter(CaseRows(db), MatchesQuery(q))| <= ResultLimit then |Filter(CaseRows(db), MatchesQuery(q))| else ResultLimit
    ensures forall row :: row in r ==> row in CaseRows(db) && Matches(q, row)
    ensures multiset(r) <= multiset(CaseRows(db))
    ensures SortedDesc(r, CaseRecency)
    ensures forall row :: Matches(q, row) && multiset(r)[row] < multiset(CaseRows(db))[row] ==>
              |r| == ResultLimit && forall y :: y in r ==> CaseRecency(row) <= CaseRecency(y)
  {
    assert forall row :: MatchesQuery(q)(row) == Matches(q, row);
    TopWhere(CaseRows(db), MatchesQuery(q), CaseRecency, ResultLimit)
  }

  /** The columns of a joined row the query selects. */
  function AsResult(row: CaseRow): SearchRow {
    SearchRow(
      row.sentence,
      if row.classification.Some? then Some(row.classification.value.caseType) else None,
      if row.analysis.Some? then Some(row.analysis.value.summary) else None)
  }

  function AsResults(rows: seq<CaseRow>): (r: seq<SearchRow>)
    ensures |r| == |rows|
    ensures forall k :: 0 <= k < |rows| ==> r[k] == AsResult(rows[k])
  {
    seq(|rows|, k requires 0 <= k < |rows| => AsResult(rows[k]))
  }

  /** PHP `empty()` of a nullable text column. */
  predicate Blank(s: Option<string>) {
    s.None? || PhpEmpty(s.value)
  }

  /** `$query`: the sanitized parameter, or "" when it is absent. */
  function Query(strip: string -> string, raw: Option<string>): string {
    if raw.Some? then SanitizeInput(strip, raw.value) else ""
  }

  /** The loop runs when there are results and the first one has no summary. */
  predicate NeedsSummaries(results: seq<SearchRow>) {
    |results| > 0 && Blank(results[0].summary)
  }

  /** `$results` before the enrichment loop: the selected rows for query `q`. */
  function Selected(db: Db, q: string): seq<SearchRow> {
    AsResults(Hits(db, q))
  }

  /** The enrichment loop runs for query `q`: the query is not empty and the first selected case has no summary. */
  predicate LoopRuns(db: Db, q: string) {
    !PhpEmpty(q) && NeedsSummaries(Selected(db, q))
  }

  /**
   * The page once a non-empty query has selected `hits`: the loop runs when
   * the first of them has no summary, and otherwise the hits are listed as
   * they are.
   */
  function Answer(db: Db, query: string, hits: seq<SearchRow>, replies: seq<Option<string>>, fault: Option<Fault>): (r: SearchResult)
    ensures r.query == query && SameCases(r.results, hits)
    ensures r.db == db.(analyses := r.db.analyses) && db.analyses <= r.db.analyses
    ensures |r.prompts| > 0 <==> NeedsSummaries(hits)
    ensures !NeedsSummaries(hits) ==> r.db == db && r.results == hits && r.error.None?
    ensures r.error.Some? <==> NeedsSummaries(hits) && fault.Some? && fault.value.at < |hits| && ReplyAt(replies, fault.value.at).Some?
    ensures r.error.Some? ==> r.error == Some("Database error: " + fault.value.message)
    ensures NeedsSummaries(hits) ==>
              var stop := Stop(hits, replies, fault, 0);
              PromptsFrom(r.prompts, hits, 0, stop)
              && AnsweredUpTo(r.results, hits, replies, stop)
              && r.db.analyses == db.analyses + Inserted(hits, replies, 0, stop)
  {
    if NeedsSummaries(hits) then
      var b := Enrich(db.analyses, hits, replies, fault, 0);
      EnrichAnswers(db.analyses, hits, replies, fault);
      SearchResult(db.(analyses := b.analyses), query, b.rows, b.error, b.prompts)
    else SearchResult(db, query, hits, None, [])
  }

  /**
   * One request for the page. `raw` is the query parameter, `strip` stands
   * for `strip_tags`, `replies[k]` is the model's answer for result `k`, and
   * `fault` names the result whose insert throws, if any.
   */
  function Search(db: Db, strip: string -> string, raw: Option<string>, replies: seq<Option<string>>, fault: Option<Fault>): (r: SearchResult)
    ensures r.query == Query(strip, raw)
    ensures PhpEmpty(r.query) ==> r.db == db && r.results == [] && r.error.None? && r.prompts == []
    ensures !PhpEmpty(r.query) ==> SameCases(r.results, Selected(db, r.query))
    ensures |r.results| <= ResultLimit
    ensures r.db == db.(analyses := r.db.analyses) && db.analyses <= r.db.analyses
    ensures |r.prompts| > 0 <==> LoopRuns(db, r.query)
    ensures !PhpEmpty(r.query) && !LoopRuns(db, r.query) ==> r.db == db && r.results == Selected(db, r.query) && r.error.None?
    ensures r.error.Some? <==> LoopRuns(db, r.query) && fault.Some? && fault.value.at < |Selected(db, r.query)|
                               && ReplyAt(replies, fault.value.at).Some?
    ensures r.error.Some? ==> r.error == Some("Database error: " + fault.value.message)
    ensures LoopRuns(db, r.query) ==>
              var hits := Selected(db, r.query);
              var stop := Stop(hits, replies, fault, 0);
              PromptsFrom(r.prompts, hits, 0, stop)
              && AnsweredUpTo(r.results, hits, replies, stop)
              && r.db.analyses == db.analyses + Inserted(hits, replies, 0, stop)
  {
    var query := Query(strip, raw);
    if PhpEmpty(query) then SearchResult(db, query, [], None, [])
    else Answer(db, query, Selected(db, query), replies, fault)
  }

  /** A loop over fetched `hits` with no failing insert: one request per result, every answer shown and stored. */
  lemma AnswerRunsToTheEnd(db: Db, query: string, hits: seq<SearchRow>, replies: seq<Option<string>>)
    requires NeedsSummaries(hits)
    ensures var r := Answer(db, query, hits, replies, None);
            && |r.prompts| == |hits|
            && (forall k :: 0 <= k < |hits| ==> r.prompts[k] == SummaryRequest(hits[k].sentence.content))
            && (forall k :: 0 <= k < |hits| ==> r.results[k] == Answered(hits[k], ReplyAt(replies, k)))
            && r.error.None?
            && r.db.analyses == db.analyses + Inserted(hits, replies, 0, |hits|)
  {
    assert Stop(hits, replies, None, 0) == |hits|;
  }

  /** A loop over fetched `hits` whose insert for `fault.at` throws: it stops there. */
  lemma AnswerStopsAtFault(db: Db, query: string, hits: seq<SearchRow>, replies: seq<Option<string>>, fault: Fault)
    requires NeedsSummaries(hits)
    requires fault.at < |hits| && ReplyAt(replies, fault.at).Some?
    ensures var r := Answer(db, query, hits, replies, Some(fault));
            && |r.prompts| == fault.at + 1
            && (forall k :: fault.at <= k < |hits| ==> r.results[k] == hits[k])
            && r.error == Some("Database error: " + fault.message)
            && r.db.analyses == db.analyses + Inserted(hits, replies, 0, fault.at)
  {
    assert Stop(hits, replies, Some(fault), 0) == fault.at;
  }

  /**
   * Once the loop runs and no insert fails, every result gets exactly one
   * summary request, in order, whatever its own summary; every answered
   * result shows the whole answer and every answer is stored.
   */
  lemma EveryResultGetsOneAttempt(db: Db, strip: string -> string, raw: Option<string>, replies: seq<Option<string>>)
    requires LoopRuns(db, Query(strip, raw))
    ensures var r := Search(db, strip, raw, replies, None);
            var hits := Selected(db, Query(strip, raw));
            && |r.prompts| == |hits|
            && (forall k :: 0 <= k < |hits| ==> r.prompts[k] == SummaryRequest(hits[k].sentence.content))
            && (forall k :: 0 <= k < |hits| ==> r.results[k] == Answered(hits[k], ReplyAt(replies, k)))
            && r.error.None?
            && r.db.analyses == db.analyses + Inserted(hits, replies, 0, |hits|)
  {
    var q := Query(strip, raw);
    assert Search(db, strip, raw, replies, None) == Answer(db, q, Selected(db, q), replies, None);
    AnswerRunsToTheEnd(db, q, Selected(db, q), replies);
  }

  /**
   * An insert that throws for result `fault.at` ends the loop: requests went
   * out for that result and the ones before it only, that result and every
   * later one keep the summary they were fetched with, only the earlier
   * answers are stored, and the driver's message is shown.
   */
  lemma FailingInsertAbortsTheRest(db: Db, strip: string -> string, raw: Option<string>, replies: seq<Option<string>>, fault: Fault)
    requires LoopRuns(db, Query(strip, raw))
    requires fault.at < |Selected(db, Query(strip, raw))| && ReplyAt(replies, fault.at).Some?
    ensures var r := Search(db, strip, raw, replies, Some(fault));
            var hits := Selected(db, Query(strip, raw));
            && |r.prompts| == fault.at + 1
            && (forall k :: fault.at <= k < |hits| ==> r.results[k] == hits[k])
            && r.error == Some("Database error: " + fault.message)
            && r.db.analyses == db.analyses + Inserted(hits, replies, 0, fault.at)
  {
    var q := Query(strip, raw);
    assert Search(db, strip, raw, replies, Some(fault)) == Answer(db, q, Selected(db, q), replies, Some(fault));
    AnswerStopsAtFault(db, q, Selected(db, q), replies, fault);
  }

  /**
   * The element of `$results` that `$result` still refers to after an
   * enrichment loop over `hits`: the result whose insert threw, when a fault
   * falls on an answered result, otherwise the last result.
   */
  function ReferenceIn(hits: seq<SearchRow>, replies: seq<Option<string>>, fault: Option<Fault>): (a: nat)
    requires |hits| > 0
    ensures a < |hits|
    ensures a == if fault.Some? && fault.value.at < |hits| && ReplyAt(replies, fault.value.at).Some? then fault.value.at else |hits| - 1
  {
    var stop := Stop(hits, replies, fault, 0);
    if stop < |hits| then stop else |hits| - 1
  }

  /** The element `$result` refers to after the request, none when the enrichment loop did not run. */
  function ReferenceLeft(db: Db, strip: string -> string, raw: Option<string>, replies: seq<Option<string>>, fault: Option<Fault>): Option<nat> {
    var q := Query(strip, raw);
    if LoopRuns(db, q) then Some(ReferenceIn(Selected(db, q), replies, fault)) else None
  }

  /**
   * After an enrichment loop over `hits`, the page lists the results with
   * the one `$result` still refers to (the failing one when an error is
   * shown, otherwise the last) replaced by the one before it.
   */
  lemma AnswerListsAsWritten(db: Db, query: string, hits: seq<SearchRow>, replies: seq<Option<string>>, fault: Option<Fault>)
    requires NeedsSummaries(hits)
    ensures var r := Answer(db, query, hits, replies, fault);
            var a := ReferenceIn(hits, replies, fault);
            && a < |r.results|
            && (r.error.Some? ==> a == fault.value.at)
            && (r.error.None? ==> a == |r.results| - 1)
            && ShownAsWritten(r.results, Some(a)) == AliasedView(r.results, a)
  {
    var r := Answer(db, query, hits, replies, fault);
    ShownAsWrittenRepeatsPrevious(r.results, ReferenceIn(hits, replies, fault));
  }

  /**
   * What the page lists, as written: `$results` after the loop, except that
   * the element `$result` still refers to is shown as a copy of the one
   * before it; when the loop did not run, `$results` as it is.
   */
  lemma PageListsAsWritten(db: Db, strip: string -> string, raw: Option<string>, replies: seq<Option<string>>, fault: Option<Fault>)
    ensures var r := Search(db, strip, raw, replies, fault);
            var a := ReferenceLeft(db, strip, raw, replies, fault);
            && (a.Some? <==> LoopRuns(db, r.query))
            && (a.Some? ==> a.value < |r.results| && ShownAsWritten(r.results, a) == AliasedView(r.results, a.value))
            && (a.None? ==> ShownAsWritten(r.results, a) == r.results)
  {
    var q := Query(strip, raw);
    if LoopRuns(db, q) {
      AnswerListsAsWritten(db, q, Selected(db, q), replies, fault);
    } else {
      RenderLoopPlain(Search(db, strip, raw, replies, fault).results, 0, []);
    }
  }

  /** The template's display loop, `foreach ($results as $result)`, when `$result` is still a reference to element `alias` (or to nothing). */
  function RenderLoop<T>(items: seq<T>, alias: Option<nat>, k: nat, shown: seq<T>): seq<T>
    requires k <= |items|
    requires alias.Some? ==> alias.value < |items|
    decreases |items| - k
  {
    if k == |items| then shown
    else
      var current := items[k];
      var next := if alias.Some? then items[alias.value := current] else items;
      RenderLoop(next, alias, k + 1, shown + [current])
  }

  /**
   * What the page lists, as written. The by-reference loop leaves `$result`
   * referring to the element it stopped on (`referenced`): the last one when
   * it ran to the end, the one whose insert threw when it was cut short, and
   * none when it did not run. The display loop writes every row it shows
   * into that element.
   */
  function ShownAsWritten<T>(results: seq<T>, referenced: Option<nat>): seq<T>
    requires referenced.Some? ==> referenced.value < |results|
  {
    RenderLoop(results, referenced, 0, [])
  }

  /** What the page lists once the reference is released (`unset($result)`) after the enrichment loop. */
  function Shown<T>(results: seq<T>): (r: seq<T>)
    ensures r == results
  {
    RenderLoopPlain(results, 0, []);
    RenderLoop(results, None, 0, [])
  }

  lemma {:induction false} RenderLoopPlain<T>(items: seq<T>, k: nat, shown: seq<T>)
    requires k <= |items| && shown == items[..k]
    ensures RenderLoop(items, None, k, shown) == items
    decreases |items| - k
  {
    if k < |items| {
      assert shown + [items[k]] == items[..k + 1];
      RenderLoopPlain(items, k + 1, shown + [items[k]]);
    }
  }

  /** The rows shown when `$result` aliases element `a`: element `a` is replaced by the one before it. */
  function AliasedView<T>(results: seq<T>, a: nat): seq<T>
    requires a < |results|
  {
    if a > 0 then results[a := results[a - 1]] else results
  }

  lemma {:induction false} RenderLoopAliased<T>(results: seq<T>, items: seq<T>, a: nat, k: nat, shown: seq<T>)
    requires |items| == |results| && a < |items| && k <= |items|
    requires forall j :: 0 <= j < |items| && j != a ==> items[j] == results[j]
    requires shown == AliasedView(results, a)[..k]
    requires items[a] == if k == 0 then results[a] else shown[k - 1]
    ensures RenderLoop(items, Some(a), k, shown) == AliasedView(results, a)
    decreases |items| - k
  {
    var view := AliasedView(results, a);
    if k < |items| {
      var current := items[k];
      assert current == view[k] by {
        if k != a {
          assert current == results[k];
        } else if a > 0 {
          assert current == shown[a - 1] == view[a - 1] == results[a - 1];
        }
      }
      assert shown + [current] == view[..k + 1];
      RenderLoopAliased(results, items[a := current], a, k + 1, shown + [current]);
    }
  }

  /** As written, the element `$result` still refers to is shown as a copy of the one before it. */
  lemma ShownAsWrittenRepeatsPrevious<T>(results: seq<T>, a: nat)
    requires a < |results|
    ensures ShownAsWritten(results, Some(a)) == AliasedView(results, a)
  {
    RenderLoopAliased(results, results, a, 0, []);
  }

  /**
   * As written, a page whose enrichment loop ran to the end shows the
   * second-to-last result twice and never the last one.
   */
  lemma ShownAsWrittenRepeatsPenultimate<T>(results: seq<T>)
    requires |results| >= 2
    ensures ShownAsWritten(results, Some(|results| - 1)) == results[|results| - 1 := results[|results| - 2]]
  {
    ShownAsWrittenRepeatsPrevious(results, |results| - 1);
  }

  /** The smallest case: two enriched results `x`, `y` are listed as `x, x`. */
  lemma TwoResultsShowTheFirstTwice<T>(x: T, y: T)
    ensures ShownAsWritten([x, y], Some(1)) == [x, x]
  {
    ShownAsWrittenRepeatsPenultimate([x, y]);
    assert [x, y][1 := x] == [x, x];
  }
}
