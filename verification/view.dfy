/**
 * The case detail page (view.php): validate the id, fetch the case, generate
 * and store an analysis when the stored summary is empty, and list related
 * cases of the same type.
 */
module CaseView {
  import opened Wrappers
  import opened Text
  import opened Sql
  import opened Schema
  import opened Sections
  import opened Prompts

  /** What the page shows: a redirect to the index, an error message, or the case with its related cases. */
  datatype Page = Redirect | Failed(error: string) | Shown(record: CaseRow, related: seq<ClassifiedRow>)

  /** The store after the request, the page, and the prompt sent to the model (`None` when no call is made). */
  datatype ViewResult = ViewResult(db: Db, page: Page, prompt: Option<Prompt>)

  const NotFound := "Case not found"
  const RelatedLimit := 5

  /** PHP's `empty($case['summary'])`: no analysis row, or a summary that is "" or "0". */
  predicate NeedsAnalysis(row: CaseRow) {
    row.analysis.None? || PhpEmpty(row.analysis.value.summary)
  }

  /** The WHERE clause of the related-cases query. */
  predicate IsRelated(caseType: Option<string>, id: int, row: ClassifiedRow) {
    row.0.id != id && row.1.Some? && caseType == Some(row.1.value.caseType)
  }

  /** The WHERE clause of the related-cases query, as a condition on joined rows. */
  function RelatedTo(caseType: Option<string>, id: int): ClassifiedRow -> bool {
    (row: ClassifiedRow) => IsRelated(caseType, id, row)
  }

  /**
   * Up to five other cases whose classification has the same case type,
   * newest first; fewer only when fewer qualify. A NULL case type matches
   * nothing, as `c.case_type = NULL` is never true.
   */
  function Related(db: Db, caseType: Option<string>, id: int): (r: seq<ClassifiedRow>)
    ensures |r| == if |Filter(ClassifiedRows(db), RelatedTo(caseType, id))| <= RelatedLimit
                   then |Filter(ClassifiedRows(db), RelatedTo(caseType, id))| else RelatedLimit
    ensures forall row :: row in r ==> row in ClassifiedRows(db) && IsRelated(caseType, id, row)
    ensures multiset(r) <= multiset(ClassifiedRows(db))
    ensures SortedDesc(r, Recency)
    ensures forall row :: IsRelated(caseType, id, row) && multiset(r)[row] < multiset(ClassifiedRows(db))[row] ==>
              |r| == RelatedLimit && forall y :: y in r ==> Recency(row) <= Recency(y)
  {
    assert forall row :: RelatedTo(caseType, id)(row) == IsRelated(caseType, id, row);
    TopWhere(ClassifiedRows(db), RelatedTo(caseType, id), Recency, RelatedLimit)
  }

  function CaseType(row: CaseRow): Option<string> {
    if row.classification.Some? then Some(row.classification.value.caseType) else None
  }

  /**
   * The row the page stores for a reply: the six sections extracted from
   * the reply text under the case's id, each a trimmed piece of the reply.
   */
  function GeneratedAnalysis(id: int, content: string): (a: Analysis)
    ensures (ExtractHasAnalysisKeys(content);
             var sections := Extract(content, AnalysisKeys);
             a.sentenceId == id
             && a.summary == sections["summary"] && a.provenFacts == sections["proven_facts"]
             && a.appliedNorms == sections["applied_norms"] && a.courtCriteria == sections["court_criteria"]
             && a.finalResolution == sections["final_resolution"] && a.dissentingOpinion == sections["dissenting_opinion"])
  {
    ExtractHasAnalysisKeys(content);
    AnalysisRow(id, Extract(content, AnalysisKeys))
  }

  /** Every column of a generated analysis is a trimmed, contiguous piece of the reply, stored under the case's id. */
  lemma AnalysisSectionsComeFromReply(id: int, content: string)
    ensures var a := GeneratedAnalysis(id, content);
            && a.sentenceId == id
            && TrimmedPiece(a.summary, content) && TrimmedPiece(a.provenFacts, content) && TrimmedPiece(a.appliedNorms, content)
            && TrimmedPiece(a.courtCriteria, content) && TrimmedPiece(a.finalResolution, content) && TrimmedPiece(a.dissentingOpinion, content)
  {
    ExtractHasAnalysisKeys(content);
  }

  /**
   * One request for the page. `id` is the query parameter after
   * FILTER_VALIDATE_INT (`None` when it is absent or not an integer), and
   * `reply` is the message content of the model's answer (`None` when the
   * answer carries no content).
   */
  function ViewCase(db: Db, id: Option<int>, reply: Option<string>): (r: ViewResult)
    ensures r.page.Redirect? <==> InvalidId(id)
    ensures InvalidId(id) ==> r.db == db && r.prompt.None?
    ensures !InvalidId(id) && FetchCase(db, id.value).None? ==> r == ViewResult(db, Failed(NotFound), None)
    ensures r.prompt.Some? <==> !InvalidId(id) && FetchCase(db, id.value).Some? && NeedsAnalysis(FetchCase(db, id.value).value)
    ensures r.prompt.Some? ==> r.prompt.value == AnalysisRequest(FetchCase(db, id.value).value.sentence.content)
    ensures r.db != db <==> r.prompt.Some? && reply.Some?
    ensures r.db != db ==> r.db == db.(analyses := db.analyses + [GeneratedAnalysis(id.value, reply.value)])
    ensures r.page.Shown? <==> !InvalidId(id) && FetchCase(db, id.value).Some?
    ensures r.page.Shown? ==>
              var fetched := FetchCase(db, id.value).value;
              r.page.record.sentence == fetched.sentence
              && r.page.record.classification == fetched.classification
              && r.page.record.analysis == (if r.db != db then Some(r.db.analyses[|db.analyses|]) else fetched.analysis)
              && r.page.related == Related(db, CaseType(fetched), id.value)
  {
    if InvalidId(id) then ViewResult(db, Redirect, None)
    else match FetchCase(db, id.value)
      case None => ViewResult(db, Failed(NotFound), None)
      case Some(row) =>
        var related := Related(db, CaseType(row), id.value);
        if !NeedsAnalysis(row) then ViewResult(db, Shown(row, related), None)
        else
          var prompt := AnalysisRequest(row.sentence.content);
          match reply
          case None => ViewResult(db, Shown(row, related), Some(prompt))
          case Some(content) =>
            var a := GeneratedAnalysis(id.value, content);
            var stored := db.(analyses := db.analyses + [a]);
            ViewResult(stored, Shown(row.(analysis := Some(a)), related), Some(prompt))
  }

  /**
   * A case with no analysis row whose generated summary is not empty is
   * served from the store on the next request: no second model call and the
   * same page.
   */
  lemma GeneratedAnalysisIsCached(db: Db, id: int, reply: string, later: Option<string>)
    requires id != 0 && FetchCase(db, id).Some? && FetchCase(db, id).value.analysis.None?
    requires !PhpEmpty(GeneratedAnalysis(id, reply).summary)
    ensures var first := ViewCase(db, Some(id), Some(reply));
            ViewCase(first.db, Some(id), later) == ViewResult(first.db, first.page, None)
  {
    var first := ViewCase(db, Some(id), Some(reply));
    var a := GeneratedAnalysis(id, reply);
    assert first.db == db.(analyses := db.analyses + [a]);
    FirstAfterAppend(db.analyses, a, (x: Analysis) => x.sentenceId == id);
    assert FirstAnalysis(first.db, id) == Some(a);
    assert ClassifiedRows(first.db) == ClassifiedRows(db);
  }

  /**
   * A stored analysis row with an empty summary is never replaced: the page
   * asks the model again on every request and, whenever the model answers,
   * appends yet another row, while the stale row stays the one fetched.
   */
  lemma EmptySummaryRegeneratesForever(db: Db, id: int, reply: Option<string>, later: Option<string>)
    requires id != 0 && FetchCase(db, id).Some?
    requires FetchCase(db, id).value.analysis.Some? && PhpEmpty(FetchCase(db, id).value.analysis.value.summary)
    ensures var first := ViewCase(db, Some(id), reply);
            var second := ViewCase(first.db, Some(id), later);
            first.prompt.Some? && second.prompt.Some?
            && FetchCase(first.db, id) == FetchCase(db, id)
            && (reply.Some? ==> |first.db.analyses| == |db.analyses| + 1)
            && (later.Some? ==> |second.db.analyses| == |first.db.analyses| + 1)
  {
    var first := ViewCase(db, Some(id), reply);
    if reply.Some? {
      var a := GeneratedAnalysis(id, reply.value);
      FirstAfterAppend(db.analyses, a, (x: Analysis) => x.sentenceId == id);
    }
  }
}
