/**
 * The requests the pages send to the model. Each page fills one fixed
 * template with text from the store or the user; a request is modelled by
 * the template it uses and the text that fills it, and `Text` spells out the
 * single user message `callOpenAI` sends for it.
 */
module Prompts {

  datatype Prompt =
    /** view.php: a detailed analysis of one case, in six sections. */
    | AnalysisRequest(content: string)
    /** search.php: a brief summary of one search result. */
    | SummaryRequest(content: string)
    /** compare.php: a comparison of two cases, in three sections. */
    | ComparisonRequest(first: string, second: string)
    /** chat.php: the user's question after the context built from the matching cases. */
    | ChatRequest(context: string, question: string)

  const AnalysisLead := "Analyze this legal case in detail:\n\n"
  const AnalysisAsk := "\n\nProvide:\n1. Summary\n2. Proven Facts\n3. Applied Legal Norms\n4. Court's Criteria\n5. Final Resolution\n6. Dissenting Opinion (if any)"

  const SummaryLead := "Analyze this legal sentence and provide a brief summary:\n\n"
  const SummaryAsk := "\n\nProvide a concise summary including:\n1. Key facts\n2. Legal principles applied\n3. Final decision"

  const ComparisonLead := "Compare these two legal cases:\n\nCase 1:\n"
  const ComparisonMiddle := "\n\nCase 2:\n"
  const ComparisonAsk := "\n\nProvide analysis in these sections:\n1. Similarities in legal reasoning and principles\n2. Key differences in approach or outcome\n3. Evolution of legal criteria (if cases are from different dates)"

  const QuestionLead := "\n\nUser Question: "
  const ChatAsk := "\n\nPlease provide a detailed response that:\n1. Directly answers the user's question\n2. Cites relevant legal principles from the cases\n3. Provides specific case references\n4. Explains any important considerations"

  /** The message text of a request. */
  function Text(p: Prompt): string {
    match p
    case AnalysisRequest(content) => AnalysisLead + content + AnalysisAsk
    case SummaryRequest(content) => SummaryLead + content + SummaryAsk
    case ComparisonRequest(first, second) => ComparisonLead + first + ComparisonMiddle + second + ComparisonAsk
    case ChatRequest(context, question) => context + QuestionLead + question + ChatAsk
  }

  /** The text between a fixed lead and a fixed tail can be read back from its position. */
  lemma Framed(lead: string, x: string, tail: string)
    ensures |lead + x + tail| == |lead| + |x| + |tail|
    ensures (lead + x + tail)[|lead|..|lead| + |x|] == x
  {
    var t := lead + x + tail;
    forall k | 0 <= k < |x| ensures t[|lead|..|lead| + |x|][k] == x[k] {
      assert t[|lead| + k] == x[k];
    }
  }

  /** The analysis request carries the whole case text, right after the fixed lead. */
  lemma AnalysisTextHoldsContent(content: string)
    ensures |Text(AnalysisRequest(content))| == |AnalysisLead| + |content| + |AnalysisAsk|
    ensures Text(AnalysisRequest(content))[|AnalysisLead|..|AnalysisLead| + |content|] == content
  {
    Framed(AnalysisLead, content, AnalysisAsk);
  }

  /** The summary request carries the whole case text, right after the fixed lead. */
  lemma SummaryTextHoldsContent(content: string)
    ensures |Text(SummaryRequest(content))| == |SummaryLead| + |content| + |SummaryAsk|
    ensures Text(SummaryRequest(content))[|SummaryLead|..|SummaryLead| + |content|] == content
  {
    Framed(SummaryLead, content, SummaryAsk);
  }

  /** Two analysis requests, or two summary requests, with the same text are about the same case text. */
  lemma SameTextSameContent(p: Prompt, q: Prompt)
    requires (p.AnalysisRequest? && q.AnalysisRequest?) || (p.SummaryRequest? && q.SummaryRequest?)
    requires Text(p) == Text(q)
    ensures p == q
  {
    if p.AnalysisRequest? {
      AnalysisTextHoldsContent(p.content);
      AnalysisTextHoldsContent(q.content);
    } else {
      SummaryTextHoldsContent(p.content);
      SummaryTextHoldsContent(q.content);
    }
  }

  /** Two texts between fixed pieces can both be read back: the first from the start, the second from the end. */
  lemma FramedTwice(lead: string, x: string, middle: string, y: string, tail: string)
    ensures var t := lead + x + middle + y + tail;
            && |t| == |lead| + |x| + |middle| + |y| + |tail|
            && t[|lead|..|lead| + |x|] == x
            && t[|t| - |tail| - |y|..|t| - |tail|] == y
  {
    var t := lead + x + middle + y + tail;
    forall k | 0 <= k < |x| ensures t[|lead|..|lead| + |x|][k] == x[k] {
      assert t[|lead| + k] == x[k];
    }
    var at := |lead| + |x| + |middle|;
    forall k | 0 <= k < |y| ensures t[at..at + |y|][k] == y[k] {
      assert t[at + k] == y[k];
    }
  }

  /**
   * The comparison request carries both case texts: the first right after
   * the fixed lead, the second right before the fixed closing instructions.
   */
  lemma ComparisonTextHoldsBothCases(first: string, second: string)
    ensures var t := Text(ComparisonRequest(first, second));
            && |t| == |ComparisonLead| + |first| + |ComparisonMiddle| + |second| + |ComparisonAsk|
            && t[|ComparisonLead|..|ComparisonLead| + |first|] == first
            && t[|t| - |ComparisonAsk| - |second|..|t| - |ComparisonAsk|] == second
  {
    FramedTwice(ComparisonLead, first, ComparisonMiddle, second, ComparisonAsk);
  }

  /**
   * The chat request starts with the context and carries the whole question
   * right before the fixed closing instructions.
   */
  lemma ChatTextHoldsQuestion(context: string, question: string)
    ensures var t := Text(ChatRequest(context, question));
            && |t| == |context| + |QuestionLead| + |question| + |ChatAsk|
            && t[..|context|] == context
            && t[|t| - |ChatAsk| - |question|..|t| - |ChatAsk|] == question
  {
    FramedTwice([], context, QuestionLead, question, ChatAsk);
    assert [] + context == context;
  }
}
