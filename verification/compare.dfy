/**
 * The comparison page (compare.php). With only a first case it lists
 * candidates to compare against; with both cases it looks up a stored
 * comparison in either order and otherwise generates, stores and shows one.
 */
module CaseComparison {
  import opened Wrappers
  import opened Text
  import opened Sql
  import opened Schema
  import opened Sections
  import opened Prompts

  /** The two cases as the page holds them, `$cases['case1']` and `$cases['case2']`. */
  datatype Slots = Slots(first: Option<CaseRow>, second: Option<CaseRow>)

  /** The three comparison sections the page shows. */
  datatype ComparisonText = ComparisonText(similarities: string, differences: string, evolutionNotes: string)

  /** What the page shows. */
  datatype Page =
    | Redirect
    | Failed(error: string)
    | Selecting(first: Sentence, candidates: seq<ClassifiedRow>)
    | Comparing(cases: Slots, comparison: Option<ComparisonText>)

  /** The store after the request, the page, and the prompt sent to the model (`None` when no call is made). */
  datatype CompareResult = CompareResult(db: Db, page: Page, prompt: Option<Prompt>)

  const FirstNotFound := "First case not found"
  const CandidateLimit := 10

  /** The lookup condition: the stored row links `a` and `b`, in either column order. */
  predicate Links(c: Comparison, a: int, b: int) {
    (c.sentenceId1 == a && c.sentenceId2 == b) || (c.sentenceId1 == b && c.sentenceId2 == a)
  }

  /** `fetch()` of the lookup query: the first stored comparison linking the two cases. */
  function FindComparison(db: Db, a: int, b: int): (r: Option<Comparison>)
    ensures r.Some? ==> r.value in db.comparisons && Links(r.value, a, b)
    ensures r.None? <==> forall c :: c in db.comparisons ==> !Links(c, a, b)
  {
    First(db.comparisons, (c: Comparison) => Links(c, a, b))
  }

  /** The lookup does not depend on the order the two ids are given in. */
  lemma ComparisonLookupIsSymmetric(db: Db, a: int, b: int)
    ensures FindComparison(db, a, b) == FindComparison(db, b, a)
  {
    FirstAgrees(db.comparisons, (c: Comparison) => Links(c, a, b), (c: Comparison) => Links(c, b, a));
  }

  function TextOf(c: Comparison): ComparisonText {
    ComparisonText(c.similarities, c.differences, c.evolutionNotes)
  }

  /** The candidates' WHERE clause `s.id != ?`. */
  function OtherThan(first: int): ClassifiedRow -> bool {
    (row: ClassifiedRow) => row.0.id != first
  }

  /** Up to ten other cases, newest first, offered as the second case; fewer only when there are fewer other cases. */
  function Candidates(db: Db, first: int): (r: seq<ClassifiedRow>)
    ensures |r| == if |Filter(ClassifiedRows(db), OtherThan(first))| <= CandidateLimit
                   then |Filter(ClassifiedRows(db), OtherThan(first))| else CandidateLimit
    ensures forall row :: row in r ==> row in ClassifiedRows(db) && row.0.id != first
    ensures multiset(r) <= multiset(ClassifiedRows(db))
    ensures SortedDesc(r, Recency)
    ensures forall row: ClassifiedRow :: row.0.id != first && multiset(r)[row] < multiset(ClassifiedRows(db))[row] ==>
              |r| == CandidateLimit && forall y :: y in r ==> Recency(row) <= Recency(y)
  {
    assert forall row: ClassifiedRow :: OtherThan(first)(row) == (row.0.id != first);
    TopWhere(ClassifiedRows(db), OtherThan(first), Recency, CandidateLimit)
  }

  function IsFirstCase(first: int): CaseRow -> bool {
    (row: CaseRow) => row.sentence.id == first
  }

  function IsOtherCase(first: int): CaseRow -> bool {
    (row: CaseRow) => row.sentence.id != first
  }

  /**
   * The loop that files each fetched row under `case1` when its id is the
   * first id and under `case2` otherwise, starting from `acc`: each slot ends
   * up holding the last row filed under it.
   */
  function AssignSlots(rows: seq<CaseRow>, first: int, acc: Slots): (r: Slots)
    ensures r.first == if Last(rows, IsFirstCase(first)).Some? then Last(rows, IsFirstCase(first)) else acc.first
    ensures r.second == if Last(rows, IsOtherCase(first)).Some? then Last(rows, IsOtherCase(first)) else acc.second
    decreases |rows|
  {
    if rows == [] then acc
    else
      var h := rows[0];
      var next := if h.sentence.id == first then acc.(first := Some(h)) else acc.(second := Some(h));
      assert rows == [h] + rows[1..];
      LastOfCons(h, rows[1..], IsFirstCase(first));
      LastOfCons(h, rows[1..], IsOtherCase(first));
      AssignSlots(rows[1..], first, next)
  }

  /** The condition `s.id IN (?, ?)`. */
  function IsEitherCase(first: int, second: int): CaseRow -> bool {
    (row: CaseRow) => row.sentence.id == first || row.sentence.id == second
  }

  /** `WHERE s.id IN (?, ?)` over the full case join, in storage order. */
  function PairRows(db: Db, first: int, second: int): (r: seq<CaseRow>)
    ensures forall row :: row in r ==> row in CaseRows(db) && (row.sentence.id == first || row.sentence.id == second)
    ensures forall row :: row in CaseRows(db) && (row.sentence.id == first || row.sentence.id == second) ==> row in r
  {
    Filter(CaseRows(db), IsEitherCase(first, second))
  }

  /**
   * After the loop over the fetched rows, `case1` holds the last joined row
   * of the first case and `case2` the last joined row of the second, in
   * storage order; when both ids are equal every row goes to `case1` and
   * `case2` stays empty.
   */
  lemma SlotsHoldLastRows(db: Db, first: int, second: int)
    ensures var cases := AssignSlots(PairRows(db, first, second), first, Slots(None, None));
            && cases.first == Last(CaseRows(db), IsFirstCase(first))
            && cases.second == if first == second then None else Last(CaseRows(db), IsFirstCase(second))
  {
    LastOfFilter(CaseRows(db), IsEitherCase(first, second), IsFirstCase(first), IsFirstCase(first));
    if first != second {
      LastOfFilter(CaseRows(db), IsEitherCase(first, second), IsOtherCase(first), IsFirstCase(second));
    }
  }

  /** `$cases[...]['content']`: a missing case contributes NULL, which concatenates as "". */
  function ContentOf(slot: Option<CaseRow>): string {
    if slot.Some? then slot.value.sentence.content else ""
  }

  /** The request for the two slots as filled. */
  function ComparisonPrompt(cases: Slots): Prompt {
    ComparisonRequest(ContentOf(cases.first), ContentOf(cases.second))
  }

  /** The three sections extracted from a reply, each a trimmed piece of it. */
  function GeneratedText(content: string): (t: ComparisonText)
    ensures (ExtractHasComparisonKeys(content);
             var sections := Extract(content, ComparisonKeys);
             t.similarities == sections["similarities"] && t.differences == sections["differences"]
             && t.evolutionNotes == sections["evolution_notes"])
  {
    ExtractHasComparisonKeys(content);
    var sections := Extract(content, ComparisonKeys);
    ComparisonText(sections["similarities"], sections["differences"], sections["evolution_notes"])
  }

  /** Every section of a generated comparison is a trimmed, contiguous piece of the reply. */
  lemma ComparisonSectionsComeFromReply(content: string)
    ensures var t := GeneratedText(content);
            TrimmedPiece(t.similarities, content) && TrimmedPiece(t.differences, content) && TrimmedPiece(t.evolutionNotes, content)
  {
    ExtractHasComparisonKeys(content);
  }

  /**
   * One request for the page. `first` and `second` are the two id parameters
   * after FILTER_VALIDATE_INT, and `reply` the message content of the
   * model's answer (`None` when the answer carries no content).
   */
  function Compare(db: Db, first: Option<int>, second: Option<int>, reply: Option<string>): (r: CompareResult)
    ensures r.page.Redirect? <==> InvalidId(first)
    ensures r.page.Redirect? || r.page.Failed? || r.page.Selecting? ==> r.db == db && r.prompt.None?
    ensures !InvalidId(first) && InvalidId(second) ==>
              (SentenceById(db, first.value).None? ==> r.page == Failed(FirstNotFound))
              && (SentenceById(db, first.value).Some? ==>
                    r.page == Selecting(SentenceById(db, first.value).value, Candidates(db, first.value)))
    ensures r.page.Comparing? <==> !InvalidId(first) && !InvalidId(second)
    ensures r.page.Comparing? ==>
              r.page.cases == AssignSlots(PairRows(db, first.value, second.value), first.value, Slots(None, None))
    ensures r.prompt.Some? <==> r.page.Comparing? && FindComparison(db, first.value, second.value).None?
    ensures r.prompt.Some? ==> r.prompt.value == ComparisonPrompt(r.page.cases)
    ensures r.page.Comparing? && FindComparison(db, first.value, second.value).Some? ==>
              r.db == db && r.page.comparison == Some(TextOf(FindComparison(db, first.value, second.value).value))
    ensures r.db != db <==> r.prompt.Some? && reply.Some?
    ensures r.prompt.Some? && reply.None? ==> r.page.comparison.None?
    ensures r.db != db ==>
              var t := GeneratedText(reply.value);
              r.page.comparison == Some(t)
              && r.db == db.(comparisons := db.comparisons + [Comparison(first.value, second.value, t.similarities, t.differences, t.evolutionNotes)])
  {
    if InvalidId(first) then CompareResult(db, Redirect, None)
    else if InvalidId(second) then
      match SentenceById(db, first.value)
      case None => CompareResult(db, Failed(FirstNotFound), None)
      case Some(s) => CompareResult(db, Selecting(s, Candidates(db, first.value)), None)
    else
      var cases := AssignSlots(PairRows(db, first.value, second.value), first.value, Slots(None, None));
      match FindComparison(db, first.value, second.value)
      case Some(c) => CompareResult(db, Comparing(cases, Some(TextOf(c))), None)
      case None =>
        var prompt := ComparisonPrompt(cases);
        match reply
        case None => CompareResult(db, Comparing(cases, None), Some(prompt))
        case Some(content) =>
          var t := GeneratedText(content);
          var row := Comparison(first.value, second.value, t.similarities, t.differences, t.evolutionNotes);
          CompareResult(db.(comparisons := db.comparisons + [row]), Comparing(cases, Some(t)), Some(prompt))
  }

  /**
   * A comparison generated for (a, b) is served from the store afterwards,
   * for (a, b) and for (b, a) alike: no further model call, the same text.
   */
  lemma GeneratedComparisonServesBothOrders(db: Db, a: int, b: int, reply: string, later: Option<string>)
    requires a != 0 && b != 0
    requires FindComparison(db, a, b).None?
    ensures var made := Compare(db, Some(a), Some(b), Some(reply));
            var again := Compare(made.db, Some(a), Some(b), later);
            var swapped := Compare(made.db, Some(b), Some(a), later);
            made.page.comparison == Some(GeneratedText(reply))
            && again.prompt.None? && again.db == made.db && again.page.comparison == made.page.comparison
            && swapped.prompt.None? && swapped.db == made.db && swapped.page.comparison == made.page.comparison
  {
    var made := Compare(db, Some(a), Some(b), Some(reply));
    var t := GeneratedText(reply);
    var row := Comparison(a, b, t.similarities, t.differences, t.evolutionNotes);
    FirstAfterAppend(db.comparisons, row, (c: Comparison) => Links(c, a, b));
    assert FindComparison(made.db, a, b) == Some(row);
    ComparisonLookupIsSymmetric(made.db, a, b);
  }

  /** Without an underscore anywhere in the reply, the evolution notes come out empty, whatever the reply says about them. */
  lemma EvolutionNotesNeedTheUnderscoredHeading(reply: string)
    requires '_' !in reply
    ensures GeneratedText(reply).evolutionNotes == ""
  {
    ExtractHasComparisonKeys(reply);
    assert ComparisonKeys[2] == "evolution_notes";
    HeadingWithoutUnderscoreLeavesColumnEmpty(reply, ComparisonKeys, "evolution_notes");
  }
}
