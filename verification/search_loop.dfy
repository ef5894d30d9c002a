/**
 * The enrichment loop of search.php: for every result, ask the model for a
 * summary and, when an answer comes back, store it and show it; a failing
 * insert ends the loop.
 */
module SearchLoop {
  import opened Wrappers
  import opened Schema
  import opened Prompts

  /** One result row: `s.*, c.case_type, a.summary`; a NULL column is `None`. */
  datatype SearchRow = SearchRow(sentence: Sentence, caseType: Option<string>, summary: Option<string>)

  /** An INSERT that throws: the result index whose insert fails, and the driver's message. */
  datatype Fault = Fault(at: nat, message: string)

  /** The outcome of the enrichment loop: the `analysis` table, the processed rows from the start index on, the error, the prompts. */
  datatype Batch = Batch(analyses: seq<Analysis>, rows: seq<SearchRow>, error: Option<string>, prompts: seq<Prompt>)

  /** The analysis row the loop inserts: only the case id and the whole reply as summary; the other columns stay NULL. */
  function SummaryRow(id: int, content: string): Analysis {
    Analysis(id, content, "", "", "", "", "")
  }

  /** The model's answer for result `k`; results without a scripted answer get none. */
  function ReplyAt(replies: seq<Option<string>>, k: nat): Option<string> {
    if k < |replies| then replies[k] else None
  }

  /** The insert for result `k` throws: the fault is there and there is an answer to insert. */
  predicate FailsAt(replies: seq<Option<string>>, fault: Option<Fault>, k: nat) {
    fault.Some? && fault.value.at == k && ReplyAt(replies, k).Some?
  }

  /** Where a loop started at `i` stops: at the failing insert if it lies ahead, otherwise at the end. */
  function Stop(rows: seq<SearchRow>, replies: seq<Option<string>>, fault: Option<Fault>, i: nat): (stop: nat)
    ensures i <= |rows| ==> i <= stop <= |rows|
  {
    if fault.Some? && i <= fault.value.at < |rows| && FailsAt(replies, fault, fault.value.at) then fault.value.at else |rows|
  }

  /** A result after its own iteration: the answer, when there is one, replaces the summary. */
  function Answered(row: SearchRow, reply: Option<string>): SearchRow {
    if reply.Some? then row.(summary := reply) else row
  }

  /** What the iteration for result `k` inserts: one row when there is an answer, none otherwise. */
  function Saved(rows: seq<SearchRow>, replies: seq<Option<string>>, k: nat): seq<Analysis>
    requires k < |rows|
  {
    if ReplyAt(replies, k).Some? then [SummaryRow(rows[k].sentence.id, ReplyAt(replies, k).value)] else []
  }

  /** Result `j` after a loop that stopped at `stop`: answered when its iteration completed. */
  function Enriched(rows: seq<SearchRow>, replies: seq<Option<string>>, j: nat, stop: nat): SearchRow
    requires j < |rows|
  {
    if j < stop then Answered(rows[j], ReplyAt(replies, j)) else rows[j]
  }

  /** The rows the loop inserts for results `from` up to `to`, in order. */
  function Inserted(rows: seq<SearchRow>, replies: seq<Option<string>>, from: nat, to: nat): seq<Analysis>
    requires from <= to <= |rows|
    decreases (to as int) - (from as int)
  {
    if from == to then [] else Saved(rows, replies, from) + Inserted(rows, replies, from + 1, to)
  }

  /**
   * The `foreach ($results as &$result)` loop from result `i` on. A failing
   * insert throws out of the loop: that result and all later ones are left
   * as they are and the error is recorded.
   */
  function Enrich(table: seq<Analysis>, rows: seq<SearchRow>, replies: seq<Option<string>>, fault: Option<Fault>, i: nat): (b: Batch)
    requires i <= |rows|
    ensures |b.rows| == |rows| - i
    ensures PromptsFrom(b.prompts, rows, i, Stop(rows, replies, fault, i))
    ensures b.error == if Stop(rows, replies, fault, i) < |rows| then Some("Database error: " + fault.value.message) else None
    ensures b.analyses == table + Inserted(rows, replies, i, Stop(rows, replies, fault, i))
    decreases |rows| - i
  {
    if i == |rows| then Batch(table, [], None, [])
    else
      var prompt := SummaryRequest(rows[i].sentence.content);
      if FailsAt(replies, fault, i) then
        assert Stop(rows, replies, fault, i) == i;
        Batch(table, rows[i..], Some("Database error: " + fault.value.message), [prompt])
      else
        var b := Enrich(table + Saved(rows, replies, i), rows, replies, fault, i + 1);
        assert Stop(rows, replies, fault, i + 1) == Stop(rows, replies, fault, i);
        ShiftPrompts(rows, i, Stop(rows, replies, fault, i), b.prompts);
        Batch(b.analyses, [Answered(rows[i], ReplyAt(replies, i))] + b.rows, b.error, [prompt] + b.prompts)
  }

  /**
   * `prompts` are the requests sent for results `i` onward by a loop that
   * stopped at `stop`: one per result up to and including the one whose
   * insert failed, or one per remaining result when none failed.
   */
  predicate PromptsFrom(prompts: seq<Prompt>, rows: seq<SearchRow>, i: nat, stop: nat)
    requires i <= stop <= |rows|
  {
    |prompts| == (if stop < |rows| then stop - i + 1 else |rows| - i)
    && forall k :: 0 <= k < |prompts| ==> i + k < |rows| && prompts[k] == SummaryRequest(rows[i + k].sentence.content)
  }

  /** `out` holds results `i` onward as they stand after a loop that stopped at `stop`. */
  predicate EnrichedFrom(out: seq<SearchRow>, rows: seq<SearchRow>, replies: seq<Option<string>>, i: nat, stop: nat)
    requires i <= |rows|
  {
    |out| == |rows| - i && forall k :: 0 <= k < |out| ==> out[k] == Enriched(rows, replies, i + k, stop)
  }

  /** Each result after the loop: answered exactly when its iteration completed before the loop stopped. */
  lemma {:induction false} EnrichedRows(table: seq<Analysis>, rows: seq<SearchRow>, replies: seq<Option<string>>, fault: Option<Fault>, i: nat)
    requires i <= |rows|
    ensures EnrichedFrom(Enrich(table, rows, replies, fault, i).rows, rows, replies, i, Stop(rows, replies, fault, i))
    decreases |rows| - i
  {
    if i < |rows| && !FailsAt(replies, fault, i) {
      var stored := table + Saved(rows, replies, i);
      var rest := Enrich(stored, rows, replies, fault, i + 1);
      EnrichedRows(stored, rows, replies, fault, i + 1);
      assert Stop(rows, replies, fault, i + 1) == Stop(rows, replies, fault, i);
      ShiftRows(rows, replies, i, Stop(rows, replies, fault, i), rest.rows);
    }
  }

  lemma ShiftPrompts(rows: seq<SearchRow>, i: nat, stop: nat, rest: seq<Prompt>)
    requires i < stop <= |rows|
    requires PromptsFrom(rest, rows, i + 1, stop)
    ensures PromptsFrom([SummaryRequest(rows[i].sentence.content)] + rest, rows, i, stop)
  {
    var out := [SummaryRequest(rows[i].sentence.content)] + rest;
    forall k | 0 <= k < |out|
      ensures i + k < |rows| && out[k] == SummaryRequest(rows[i + k].sentence.content)
    {
      if k > 0 {
        assert out[k] == rest[k - 1];
      }
    }
  }

  lemma ShiftRows(rows: seq<SearchRow>, replies: seq<Option<string>>, i: nat, stop: nat, rest: seq<SearchRow>)
    requires i < stop <= |rows|
    requires EnrichedFrom(rest, rows, replies, i + 1, stop)
    ensures EnrichedFrom([Answered(rows[i], ReplyAt(replies, i))] + rest, rows, replies, i, stop)
  {
    var out := [Answered(rows[i], ReplyAt(replies, i))] + rest;
    forall k | 0 <= k < |out|
      ensures out[k] == Enriched(rows, replies, i + k, stop)
    {
      if k > 0 {
        assert out[k] == rest[k - 1];
      }
    }
  }

  /** `out` lists the same cases as `rows`, in the same order, with the same case types. */
  predicate SameCases(out: seq<SearchRow>, rows: seq<SearchRow>) {
    |out| == |rows| && forall k :: 0 <= k < |rows| ==> out[k].sentence == rows[k].sentence && out[k].caseType == rows[k].caseType
  }

  /**
   * `out` is `rows` after a loop that stopped at `stop`: every result before
   * `stop` that was answered shows the whole answer as its summary, and every
   * other result is unchanged.
   */
  predicate AnsweredUpTo(out: seq<SearchRow>, rows: seq<SearchRow>, replies: seq<Option<string>>, stop: nat) {
    |out| == |rows|
    && (forall k :: 0 <= k < |rows| && k < stop && ReplyAt(replies, k).Some? ==> out[k] == rows[k].(summary := ReplyAt(replies, k)))
    && (forall k :: 0 <= k < |rows| && (stop <= k || ReplyAt(replies, k).None?) ==> out[k] == rows[k])
  }

  /** The whole loop keeps the cases and their order and changes only the summaries of the results it answered before it stopped. */
  lemma EnrichAnswers(table: seq<Analysis>, rows: seq<SearchRow>, replies: seq<Option<string>>, fault: Option<Fault>)
    ensures var b := Enrich(table, rows, replies, fault, 0);
            SameCases(b.rows, rows) && AnsweredUpTo(b.rows, rows, replies, Stop(rows, replies, fault, 0))
  {
    var b := Enrich(table, rows, replies, fault, 0);
    var stop := Stop(rows, replies, fault, 0);
    EnrichedRows(table, rows, replies, fault, 0);
    assert forall k :: 0 <= k < |rows| ==> b.rows[k] == Enriched(rows, replies, k, stop) by {
      forall k | 0 <= k < |rows| ensures b.rows[k] == Enriched(rows, replies, k, stop) {
        assert b.rows[k] == Enriched(rows, replies, 0 + k, stop);
      }
    }
    EnrichedMeaning(b.rows, rows, replies, stop);
  }

  /** A loop with no failing insert sends one request per result, answers every result it can, and stores every answer. */
  lemma EnrichRunsToTheEnd(table: seq<Analysis>, rows: seq<SearchRow>, replies: seq<Option<string>>)
    ensures var b := Enrich(table, rows, replies, None, 0);
            b.error.None? && PromptsFrom(b.prompts, rows, 0, |rows|)
            && AnsweredUpTo(b.rows, rows, replies, |rows|)
            && b.analyses == table + Inserted(rows, replies, 0, |rows|)
  {
    assert Stop(rows, replies, None, 0) == |rows|;
    EnrichAnswers(table, rows, replies, None);
  }

  /**
   * A failing insert for result `fault.at` stops the loop there: requests
   * went out for that result and the ones before it, only the answers before
   * it are shown and stored, and the error is reported.
   */
  lemma EnrichStopsAtFault(table: seq<Analysis>, rows: seq<SearchRow>, replies: seq<Option<string>>, fault: Fault)
    requires fault.at < |rows| && ReplyAt(replies, fault.at).Some?
    ensures var b := Enrich(table, rows, replies, Some(fault), 0);
            b.error == Some("Database error: " + fault.message)
            && PromptsFrom(b.prompts, rows, 0, fault.at) && |b.prompts| == fault.at + 1
            && AnsweredUpTo(b.rows, rows, replies, fault.at)
            && b.analyses == table + Inserted(rows, replies, 0, fault.at)
  {
    assert Stop(rows, replies, Some(fault), 0) == fault.at;
    EnrichAnswers(table, rows, replies, Some(fault));
  }

  lemma EnrichedMeaning(out: seq<SearchRow>, rows: seq<SearchRow>, replies: seq<Option<string>>, stop: nat)
    requires |out| == |rows|
    requires forall k :: 0 <= k < |rows| ==> out[k] == Enriched(rows, replies, k, stop)
    ensures SameCases(out, rows) && AnsweredUpTo(out, rows, replies, stop)
  {
  }
}
