/**
 * The chat page (chat.php): the conversation kept in the session, one turn
 * per posted message, and the request built from the question and up to
 * three matching cases.
 */
module Chat {
  import opened Wrappers
  import opened Sql
  import opened Schema
  import opened Escape
  import opened Prompts

  datatype Role = UserRole | AssistantRole

  /** One entry of `$_SESSION['chat_history']`. */
  datatype Turn = Turn(role: Role, content: string)

  /** The posted fields the page reads: `message`, and whether `clear_chat` is set. */
  datatype Post = Post(message: Option<string>, clear: bool)

  /**
   * The page after the request: the session history, the error and the
   * answer shown, the cases put into the request, and the request sent
   * (`None` when no call is made).
   */
  datatype ChatResult = ChatResult(history: seq<Turn>, error: Option<string>, response: Option<string>, consulted: seq<CaseRow>, prompt: Option<Prompt>)

  const CaseLimit := 3
  const NoAnswer := "Failed to get response from AI"
  const NoSummary := "No summary available"
  const ContextLead := "Based on our legal database, here are relevant cases:\n\n"

  /** `$case['summary'] ?? 'No summary available'`: only a missing analysis row gets the placeholder. */
  function SummaryOf(row: CaseRow): string {
    if row.analysis.Some? then row.analysis.value.summary else NoSummary
  }

  /** The two lines the context gives one case. */
  function Entry(row: CaseRow): string {
    "Case: " + row.sentence.title + "\n" + "Summary: " + SummaryOf(row) + "\n\n"
  }

  /** The entries of `rows`, in order. */
  function Entries(rows: seq<CaseRow>): string
    decreases |rows|
  {
    if rows == [] then [] else Entry(rows[0]) + Entries(rows[1..])
  }

  /** `$context`: the fixed lead followed by one entry per case. */
  function Context(rows: seq<CaseRow>): string {
    ContextLead + Entries(rows)
  }

  /** The entries of two runs of cases are the entries of the first run followed by those of the second. */
  lemma {:induction false} EntriesAppend(a: seq<CaseRow>, b: seq<CaseRow>)
    ensures Entries(a + b) == Entries(a) + Entries(b)
    decreases |a|
  {
    if a != [] {
      assert (a + b)[0] == a[0] && (a + b)[1..] == a[1..] + b;
      EntriesAppend(a[1..], b);
    } else {
      assert a + b == b;
    }
  }

  /** Every case put into the request shows up in the context as its own entry, after the entries of the cases before it. */
  lemma ContextHasEveryCase(rows: seq<CaseRow>, k: nat)
    requires k < |rows|
    ensures Entries(rows) == Entries(rows[..k]) + Entry(rows[k]) + Entries(rows[k + 1..])
  {
    SplitAt(rows, k);
    EntriesAppend(rows[..k], [rows[k]] + rows[k + 1..]);
    EntriesCons(rows[k], rows[k + 1..]);
    Regroup(Entries(rows[..k]), Entry(rows[k]), Entries(rows[k + 1..]));
  }

  lemma Regroup(a: string, b: string, c: string)
    ensures a + (b + c) == a + b + c
  {
  }

  lemma SplitAt<T>(xs: seq<T>, k: nat)
    requires k < |xs|
    ensures xs == xs[..k] + ([xs[k]] + xs[k + 1..])
  {
  }

  lemma EntriesCons(row: CaseRow, rest: seq<CaseRow>)
    ensures Entries([row] + rest) == Entry(row) + Entries(rest)
  {
    assert ([row] + rest)[0] == row && ([row] + rest)[1..] == rest;
  }

  /**
   * One posted message, `message` already sanitized. `ranked` stands for the
   * rows the full-text search returns, best match first; `queryFault` is the
   * driver's message when that query throws; `reply` is the answer's message
   * content (`None` when the answer carries none).
   */
  function Ask(history: seq<Turn>, message: string, ranked: seq<CaseRow>, queryFault: Option<string>, reply: Option<string>): (r: ChatResult)
    ensures |r.history| == |history| + (if queryFault.None? && reply.Some? then 2 else 1)
    ensures r.history[..|history|] == history && r.history[|history|] == Turn(UserRole, message)
    ensures queryFault.Some? ==> r.error == queryFault && r.prompt.None? && r.response.None?
    ensures queryFault.None? ==>
              |r.consulted| == (if |ranked| <= CaseLimit then |ranked| else CaseLimit)
              && r.consulted == ranked[..|r.consulted|]
              && r.prompt == Some(ChatRequest(Context(r.consulted), message))
    ensures queryFault.None? && reply.None? ==> r.error == Some(NoAnswer) && r.response.None?
    ensures queryFault.None? && reply.Some? ==>
              r.error.None? && r.response == reply && r.history[|history| + 1] == Turn(AssistantRole, reply.value)
  {
    var asked := history + [Turn(UserRole, message)];
    assert asked[..|history|] == history;
    if queryFault.Some? then ChatResult(asked, queryFault, None, [], None)
    else
      var consulted := Limit(ranked, CaseLimit);
      var prompt := ChatRequest(Context(consulted), message);
      match reply
      case None => ChatResult(asked, Some(NoAnswer), None, consulted, Some(prompt))
      case Some(answer) =>
        var answered := asked + [Turn(AssistantRole, answer)];
        assert answered[..|history|] == history;
        ChatResult(answered, None, Some(answer), consulted, Some(prompt))
  }

  /**
   * One request for the page. `session` is the stored history (`None` before
   * the first visit), `post` the posted fields (`None` for a GET), and
   * `strip` stands for `strip_tags`. A posted message is handled first; a
   * posted `clear_chat` then empties the history whatever happened.
   */
  function ChatPage(session: Option<seq<Turn>>, post: Option<Post>, strip: string -> string,
                    ranked: seq<CaseRow>, queryFault: Option<string>, reply: Option<string>): (r: ChatResult)
    ensures post.Some? && post.value.clear ==> r.history == []
    ensures (post.None? || post.value.message.None?) ==>
              r.error.None? && r.response.None? && r.prompt.None?
              && (post.None? || !post.value.clear ==> r.history == session.GetOr([]))
    ensures post.Some? && post.value.message.Some? ==>
              var a := Ask(session.GetOr([]), SanitizeInput(strip, post.value.message.value), ranked, queryFault, reply);
              r.error == a.error && r.response == a.response && r.consulted == a.consulted && r.prompt == a.prompt
              && (!post.value.clear ==> r.history == a.history)
  {
    var history := session.GetOr([]);
    var handled :=
      if post.Some? && post.value.message.Some? then
        Ask(history, SanitizeInput(strip, post.value.message.value), ranked, queryFault, reply)
      else ChatResult(history, None, None, [], None);
    if post.Some? && post.value.clear then handled.(history := []) else handled
  }

  /** Every answer in the history directly follows a question. */
  predicate AnswersFollowQuestions(h: seq<Turn>) {
    forall k :: 0 <= k < |h| && h[k].role == AssistantRole ==> k > 0 && h[k - 1].role == UserRole
  }

  /** The page keeps every answer right after the question it answers. */
  lemma ChatKeepsAnswersAfterQuestions(session: Option<seq<Turn>>, post: Option<Post>, strip: string -> string,
                                       ranked: seq<CaseRow>, queryFault: Option<string>, reply: Option<string>)
    requires session.Some? ==> AnswersFollowQuestions(session.value)
    ensures AnswersFollowQuestions(ChatPage(session, post, strip, ranked, queryFault, reply).history)
  {
    var history := session.GetOr([]);
    if post.Some? && post.value.message.Some? && !post.value.clear {
      var a := Ask(history, SanitizeInput(strip, post.value.message.value), ranked, queryFault, reply);
      AskKeepsAnswersAfterQuestions(history, a.history);
    }
  }

  lemma AskKeepsAnswersAfterQuestions(history: seq<Turn>, h: seq<Turn>)
    requires AnswersFollowQuestions(history)
    requires |history| < |h| <= |history| + 2 && h[..|history|] == history && h[|history|].role == UserRole
    ensures AnswersFollowQuestions(h)
  {
    forall k | 0 <= k < |h| && h[k].role == AssistantRole ensures k > 0 && h[k - 1].role == UserRole {
      if k < |history| {
        assert h[k] == history[k] && h[k - 1] == history[k - 1];
      }
    }
  }

  /** An answered question appends the question and then the answer. */
  lemma AnsweredAsk(history: seq<Turn>, message: string, ranked: seq<CaseRow>, answer: string)
    ensures Ask(history, message, ranked, None, Some(answer)).history == history + [Turn(UserRole, message), Turn(AssistantRole, answer)]
  {
    assert history + [Turn(UserRole, message)] + [Turn(AssistantRole, answer)] == history + [Turn(UserRole, message), Turn(AssistantRole, answer)];
  }

  /** Two answered questions in a row leave the history with both exchanges appended, in order. */
  lemma ConversationAccumulates(history: seq<Turn>, strip: string -> string, first: string, second: string,
                                ranked1: seq<CaseRow>, ranked2: seq<CaseRow>, answer1: string, answer2: string)
    ensures var one := ChatPage(Some(history), Some(Post(Some(first), false)), strip, ranked1, None, Some(answer1));
            var two := ChatPage(Some(one.history), Some(Post(Some(second), false)), strip, ranked2, None, Some(answer2));
            two.history == history + [Turn(UserRole, SanitizeInput(strip, first)), Turn(AssistantRole, answer1),
                                      Turn(UserRole, SanitizeInput(strip, second)), Turn(AssistantRole, answer2)]
  {
    var q1 := SanitizeInput(strip, first);
    var q2 := SanitizeInput(strip, second);
    AnsweredAsk(history, q1, ranked1, answer1);
    var h1 := history + [Turn(UserRole, q1), Turn(AssistantRole, answer1)];
    AnsweredAsk(h1, q2, ranked2, answer2);
    AppendPairs(history, Turn(UserRole, q1), Turn(AssistantRole, answer1), Turn(UserRole, q2), Turn(AssistantRole, answer2));
  }

  lemma AppendPairs<T>(h: seq<T>, a: T, b: T, c: T, d: T)
    ensures h + [a, b] + [c, d] == h + [a, b, c, d]
  {
  }

  /** A question that gets no answer stays in the history on its own, and the error is shown. */
  lemma UnansweredQuestionIsKept(history: seq<Turn>, strip: string -> string, message: string, ranked: seq<CaseRow>)
    ensures var r := ChatPage(Some(history), Some(Post(Some(message), false)), strip, ranked, None, None);
            r.history == history + [Turn(UserRole, SanitizeInput(strip, message))] && r.error == Some(NoAnswer)
  {
    assert Ask(history, SanitizeInput(strip, message), ranked, None, None).history == history + [Turn(UserRole, SanitizeInput(strip, message))];
  }
}
