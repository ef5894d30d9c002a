/**
 * The tables the pages read and write, held as sequences of rows in storage
 * order, and the joined rows the case queries return. Dates and timestamps
 * are integers ordered like the SQL values they stand for.
 */
module Schema {
  import opened Wrappers
  import opened Sql

  /** A judicial decision (table `sentences`). */
  datatype Sentence = Sentence(id: int, title: string, court: string, caseNumber: string, dateIssued: int, content: string)

  /** Derived metadata about a case (table `classifications`). */
  datatype Classification = Classification(sentenceId: int, caseType: string, legalNorms: string, isPrecedent: bool)

  /**
   * A generated analysis (table `analysis`). The five columns search.php does
   * not write are NULL in its rows; they are "" here, which is how the pages
   * display a NULL.
   */
  datatype Analysis = Analysis(
    sentenceId: int,
    summary: string,
    provenFacts: string,
    appliedNorms: string,
    courtCriteria: string,
    finalResolution: string,
    dissentingOpinion: string)

  /** A generated comparison of two cases (table `comparisons`). */
  datatype Comparison = Comparison(sentenceId1: int, sentenceId2: int, similarities: string, differences: string, evolutionNotes: string)

  /** The three frequencies an alert can have (column `alerts.frequency`). */
  datatype Frequency = Daily | Weekly | Monthly

  /** A subscriber (table `users`). */
  datatype User = User(id: int, email: string, name: string)

  /** A topic subscription (table `alerts`); `createdAt` is the row's creation timestamp. */
  datatype Alert = Alert(id: int, userId: int, topic: string, frequency: Frequency, createdAt: int)

  /**
   * The whole datastore. `nextUserId` and `nextAlertId` are the
   * AUTO_INCREMENT counters of `users` and `alerts`.
   */
  datatype Db = Db(
    sentences: seq<Sentence>,
    classifications: seq<Classification>,
    analyses: seq<Analysis>,
    comparisons: seq<Comparison>,
    users: seq<User>,
    alerts: seq<Alert>,
    nextUserId: int,
    nextAlertId: int)

  /** One row of `sentences s LEFT JOIN classifications c ON s.id = c.sentence_id`. */
  type ClassifiedRow = (Sentence, Option<Classification>)

  /** One row of that join further LEFT JOINed with `analysis a ON s.id = a.sentence_id`. */
  datatype CaseRow = CaseRow(sentence: Sentence, classification: Option<Classification>, analysis: Option<Analysis>)

  /** The sort key of `ORDER BY s.date_issued DESC`. */
  function Recency(row: ClassifiedRow): int {
    row.0.dateIssued
  }

  /**
   * An id request parameter after FILTER_VALIDATE_INT (`None` when it is
   * absent or not an integer) that PHP treats as false: missing, invalid, or zero.
   */
  predicate InvalidId(id: Option<int>) {
    id.None? || id.value == 0
  }

  /** The join condition `s.id = c.sentence_id`. */
  predicate ClassifiedAs(s: Sentence, c: Classification) {
    c.sentenceId == s.id
  }

  /** The join condition `s.id = a.sentence_id`. */
  predicate AnalysedIn(p: ClassifiedRow, a: Analysis) {
    a.sentenceId == p.0.id
  }

  function ClassifiedRows(db: Db): (r: seq<ClassifiedRow>)
    ensures forall row :: row in r ==> row.0 in db.sentences
    ensures forall row :: row in r && row.1.Some? ==> row.1.value in db.classifications && row.1.value.sentenceId == row.0.id
  {
    LeftJoin(db.sentences, db.classifications, ClassifiedAs)
  }

  /** The joined pairs of the second LEFT JOIN flattened into case rows, in order. */
  function Flatten(joined: seq<(ClassifiedRow, Option<Analysis>)>): (r: seq<CaseRow>)
    ensures |r| == |joined|
    ensures forall row :: row in r ==> ((row.sentence, row.classification), row.analysis) in joined
    decreases |joined|
  {
    if joined == [] then []
    else
      var rest := Flatten(joined[1..]);
      assert forall p :: p in joined[1..] ==> p in joined;
      [CaseRow(joined[0].0.0, joined[0].0.1, joined[0].1)] + rest
  }

  function CaseRows(db: Db): (r: seq<CaseRow>)
    ensures forall row :: row in r ==> row.sentence in db.sentences
    ensures forall row :: row in r && row.analysis.Some? ==> row.analysis.value in db.analyses && row.analysis.value.sentenceId == row.sentence.id
  {
    Flatten(LeftJoin(ClassifiedRows(db), db.analyses, AnalysedIn))
  }

  function SentenceById(db: Db, id: int): (r: Option<Sentence>)
    ensures r.Some? ==> r.value in db.sentences && r.value.id == id
    ensures r.None? <==> forall s :: s in db.sentences ==> s.id != id
  {
    First(db.sentences, (s: Sentence) => s.id == id)
  }

  function FirstClassification(db: Db, id: int): (r: Option<Classification>)
    ensures r.Some? ==> r.value in db.classifications && r.value.sentenceId == id
    ensures r.None? <==> forall c :: c in db.classifications ==> c.sentenceId != id
  {
    First(db.classifications, (c: Classification) => c.sentenceId == id)
  }

  function FirstAnalysis(db: Db, id: int): (r: Option<Analysis>)
    ensures r.Some? ==> r.value in db.analyses && r.value.sentenceId == id
    ensures r.None? <==> forall a :: a in db.analyses ==> a.sentenceId != id
  {
    First(db.analyses, (a: Analysis) => a.sentenceId == id)
  }

  /**
   * `fetch()` of the case query of view.php: the first joined row for `id`,
   * which in nested-loop order pairs the first sentence with that id with its
   * first classification and first analysis row.
   */
  function FetchCase(db: Db, id: int): (r: Option<CaseRow>)
    ensures r.None? <==> forall s :: s in db.sentences ==> s.id != id
    ensures r.Some? ==> r.value.sentence in db.sentences && r.value.sentence.id == id
    ensures r.Some? ==> r.value.analysis == FirstAnalysis(db, id) && r.value.classification == FirstClassification(db, id)
  {
    match SentenceById(db, id)
    case None => None
    case Some(s) => Some(CaseRow(s, FirstClassification(db, id), FirstAnalysis(db, id)))
  }

  /** The first flattened case row with sentence `id` comes from the first joined pair with that sentence. */
  lemma {:induction false} FirstOfFlatten(joined: seq<(ClassifiedRow, Option<Analysis>)>, id: int)
    ensures First(Flatten(joined), (row: CaseRow) => row.sentence.id == id)
         == match First(joined, (j: (ClassifiedRow, Option<Analysis>)) => j.0.0.id == id)
            case None => None
            case Some(j) => Some(CaseRow(j.0.0, j.0.1, j.1))
    decreases |joined|
  {
    if joined != [] && joined[0].0.0.id != id {
      FirstOfFlatten(joined[1..], id);
    }
  }

  /** The first sentence-classification pair for `id` pairs the first sentence with its first classification. */
  lemma FirstClassifiedRow(db: Db, id: int)
    ensures First(ClassifiedRows(db), (p: ClassifiedRow) => p.0.id == id)
         == match SentenceById(db, id)
            case None => None
            case Some(s) => Some((s, FirstClassification(db, id)))
  {
    FirstOfLeftJoin(db.sentences, db.classifications, ClassifiedAs, (s: Sentence) => s.id == id, (p: ClassifiedRow) => p.0.id == id);
    if SentenceById(db, id).Some? {
      var s := SentenceById(db, id).value;
      FirstAgrees(db.classifications, Matching(ClassifiedAs, s), (c: Classification) => c.sentenceId == id);
    }
  }

  /** The first joined pair for `id` pairs the first classified row with the first analysis row. */
  lemma FirstAnalysedRow(db: Db, id: int)
    ensures First(LeftJoin(ClassifiedRows(db), db.analyses, AnalysedIn), (j: (ClassifiedRow, Option<Analysis>)) => j.0.0.id == id)
         == match First(ClassifiedRows(db), (p: ClassifiedRow) => p.0.id == id)
            case None => None
            case Some(p) => Some((p, FirstAnalysis(db, id)))
  {
    FirstOfLeftJoin(ClassifiedRows(db), db.analyses, AnalysedIn, (p: ClassifiedRow) => p.0.id == id,
                    (j: (ClassifiedRow, Option<Analysis>)) => j.0.0.id == id);
    if First(ClassifiedRows(db), (p: ClassifiedRow) => p.0.id == id).Some? {
      var p := First(ClassifiedRows(db), (p: ClassifiedRow) => p.0.id == id).value;
      FirstAgrees(db.analyses, Matching(AnalysedIn, p), (a: Analysis) => a.sentenceId == id);
    }
  }

  /**
   * FetchCase is what `fetch()` returns for the case query of view.php read
   * as nested loops in storage order: the first joined case row whose
   * sentence has id `id`.
   */
  lemma FetchCaseIsFirstJoinedRow(db: Db, id: int)
    ensures FetchCase(db, id) == First(CaseRows(db), (row: CaseRow) => row.sentence.id == id)
  {
    FirstOfFlatten(LeftJoin(ClassifiedRows(db), db.analyses, AnalysedIn), id);
    FirstAnalysedRow(db, id);
    FirstClassifiedRow(db, id);
  }

  /** The six text columns of the `analysis` table, by their SQL names. */
  const AnalysisColumns: seq<string> := ["summary", "proven_facts", "applied_norms", "court_criteria", "final_resolution", "dissenting_opinion"]

  /** `$row[name]` on an analysis row: the text column called `name`, or `None` when there is no such column. */
  function AnalysisColumn(a: Analysis, name: string): Option<string> {
    if name == "summary" then Some(a.summary)
    else if name == "proven_facts" then Some(a.provenFacts)
    else if name == "applied_norms" then Some(a.appliedNorms)
    else if name == "court_criteria" then Some(a.courtCriteria)
    else if name == "final_resolution" then Some(a.finalResolution)
    else if name == "dissenting_opinion" then Some(a.dissentingOpinion)
    else None
  }

  /**
   * The analysis a page writes for `id` from the six extracted columns:
   * reading any column back by its name gives the section stored under that
   * name.
   */
  function AnalysisRow(id: int, sections: map<string, string>): (a: Analysis)
    requires "summary" in sections && "proven_facts" in sections && "applied_norms" in sections
    requires "court_criteria" in sections && "final_resolution" in sections && "dissenting_opinion" in sections
    ensures a.sentenceId == id
    ensures forall name :: name in AnalysisColumns ==> AnalysisColumn(a, name) == Some(sections[name])
  {
    Analysis(id, sections["summary"], sections["proven_facts"], sections["applied_norms"],
             sections["court_criteria"], sections["final_resolution"], sections["dissenting_opinion"])
  }
}
