/**
 * The section extractor of view.php and compare.php. For every expected key
 * the pages run the PCRE pattern
 *   \bKEY\b .*? : (.*?) (?= \b(?:K1|...|Kn)\b | $ )      with flags s and i
 * against the completion text and store `trim` of the first capture, or ""
 * when the pattern does not match. Keys are identifiers (word characters
 * only), so they are literal inside the pattern.
 */
module Sections {
  import opened Wrappers
  import opened Text

  /** The six analysis columns, in the order view.php lists them. */
  const AnalysisKeys: seq<string> :=
    ["summary", "proven_facts", "applied_norms", "court_criteria", "final_resolution", "dissenting_opinion"]

  /** The three comparison columns, in the order compare.php lists them. */
  const ComparisonKeys: seq<string> := ["similarities", "differences", "evolution_notes"]

  /** `\bKEY\b` matches at position `p`, ignoring ASCII case. */
  predicate OccursAt(s: string, key: string, p: int) {
    0 <= p && p + |key| <= |s|
    && Boundary(s, p)
    && EqualIgnoringCase(s[p..p + |key|], key)
    && Boundary(s, p + |key|)
  }

  /** The lookahead `\b(?:K1|...|Kn)\b` succeeds at `e`: some key starts there, whole-word. */
  predicate StopAt(s: string, keys: seq<string>, e: int) {
    exists k :: k in keys && OccursAt(s, k, e)
  }

  /**
   * The whole lookahead succeeds at `e`: a key starts there, or `$` matches
   * (the end of the text, or just before a final newline).
   */
  predicate EndAt(s: string, keys: seq<string>, e: int) {
    StopAt(s, keys, e) || e == |s| || (0 <= e == |s| - 1 && s[e] == '\n')
  }

  /** The first whole-word occurrence of `key` at or after `from`. */
  function FindKey(s: string, key: string, from: nat): (r: Option<nat>)
    requires from <= |s|
    ensures r.Some? ==> from <= r.value <= |s| && OccursAt(s, key, r.value)
    ensures forall q :: from <= q && (r.None? || q < r.value) ==> !OccursAt(s, key, q)
    decreases |s| - from
  {
    if OccursAt(s, key, from) then Some(from)
    else if from == |s| then None
    else FindKey(s, key, from + 1)
  }

  /** The first ':' at or after `from`. */
  function FindColon(s: string, from: nat): (r: Option<nat>)
    requires from <= |s|
    ensures r.Some? ==> from <= r.value < |s| && s[r.value] == ':'
    ensures forall q :: from <= q < |s| && (r.None? || q < r.value) ==> s[q] != ':'
    decreases |s| - from
  {
    if from == |s| then None
    else if s[from] == ':' then Some(from)
    else FindColon(s, from + 1)
  }

  /** The first position at or after `from` where the lookahead succeeds; it always does at `|s|`. */
  function FindEnd(s: string, keys: seq<string>, from: nat): (e: nat)
    requires from <= |s|
    ensures from <= e <= |s|
    ensures EndAt(s, keys, e)
    ensures forall q :: from <= q < e ==> !EndAt(s, keys, q)
    decreases |s| - from
  {
    if EndAt(s, keys, from) then from else FindEnd(s, keys, from + 1)
  }

  /**
   * Where the capture of the pattern for `key` starts: just after the first
   * ':' that follows the first whole-word occurrence of the key; `None` when
   * the pattern does not match.
   */
  function CaptureStart(s: string, key: string): (r: Option<nat>)
    ensures r.Some? ==> 0 < r.value <= |s|
  {
    match FindKey(s, key, 0)
    case None => None
    case Some(p) =>
      if p + |key| > |s| then None
      else
        match FindColon(s, p + |key|)
        case None => None
        case Some(c) => Some(c + 1)
  }

  /** The value stored for a capture starting at `start`: `trim` of the text up to where the lazy capture stops, or "" when there is no match. */
  function Captured(s: string, keys: seq<string>, start: Option<nat>): (v: string)
    requires start.Some? ==> start.value <= |s|
    ensures IsTrimmed(v)
    ensures IsSliceOf(v, s)
  {
    if start.None? then assert "" == s[0..0]; ""
    else
      var e := FindEnd(s, keys, start.value);
      TrimOfSliceIsSlice(s, start.value, e);
      Trim(s[start.value..e])
  }

  /** The value stored for one key. */
  function Section(s: string, keys: seq<string>, key: string): (v: string)
    ensures IsTrimmed(v)
    ensures IsSliceOf(v, s)
  {
    Captured(s, keys, CaptureStart(s, key))
  }

  /** `v` is a trimmed, contiguous piece of `s`: what the extractor stores for any section of reply `s`. */
  ghost predicate TrimmedPiece(v: string, s: string) {
    IsTrimmed(v) && IsSliceOf(v, s)
  }

  /**
   * The sections the page fills in: every expected key is present, each value
   * is trimmed and is a piece of the completion text.
   */
  function Extract(content: string, keys: seq<string>): (r: map<string, string>)
    ensures r.Keys == set k | k in keys
    ensures forall k :: k in r ==> IsTrimmed(r[k]) && IsSliceOf(r[k], content)
  {
    map k | k in keys :: Section(content, keys, k)
  }

  /** Every one of the six analysis columns is present in an extraction with the analysis keys. */
  lemma ExtractHasAnalysisKeys(content: string)
    ensures var m := Extract(content, AnalysisKeys);
            "summary" in m && "proven_facts" in m && "applied_norms" in m
            && "court_criteria" in m && "final_resolution" in m && "dissenting_opinion" in m
  {
    assert forall k :: k in AnalysisKeys ==> k in Extract(content, AnalysisKeys);
    assert AnalysisKeys[0] == "summary" && AnalysisKeys[1] == "proven_facts" && AnalysisKeys[2] == "applied_norms";
    assert AnalysisKeys[3] == "court_criteria" && AnalysisKeys[4] == "final_resolution" && AnalysisKeys[5] == "dissenting_opinion";
  }

  /** Every one of the three comparison columns is present in an extraction with the comparison keys. */
  lemma ExtractHasComparisonKeys(content: string)
    ensures var m := Extract(content, ComparisonKeys);
            "similarities" in m && "differences" in m && "evolution_notes" in m
  {
    assert forall k :: k in ComparisonKeys ==> k in Extract(content, ComparisonKeys);
    assert ComparisonKeys[0] == "similarities" && ComparisonKeys[1] == "differences" && ComparisonKeys[2] == "evolution_notes";
  }

  /** The pattern for `key` can match starting at `p`: the key is there and some ':' follows it. */
  ghost predicate PatternMatchesAt(s: string, key: string, p: int) {
    OccursAt(s, key, p) && exists c :: p + |key| <= c < |s| && s[c] == ':'
  }

  /**
   * `p`, `c`, `e` are the match `preg_match` reports: the leftmost start of
   * a match, the colon the lazy `.*?:` reaches first, and the first position
   * where the lazy capture may stop. The capture is s[c+1..e].
   */
  ghost predicate RegexMatch(s: string, keys: seq<string>, key: string, p: int, c: int, e: int) {
    && PatternMatchesAt(s, key, p)
    && (forall q :: 0 <= q < p ==> !PatternMatchesAt(s, key, q))
    && p + |key| <= c < |s| && s[c] == ':'
    && (forall q :: p + |key| <= q < c ==> s[q] != ':')
    && c + 1 <= e <= |s| && EndAt(s, keys, e)
    && (forall q :: c + 1 <= q < e ==> !EndAt(s, keys, q))
  }

  /** The leftmost match starts at the first whole-word occurrence of the key. */
  lemma MatchStartsAtFirstOccurrence(s: string, keys: seq<string>, key: string, p: int, c: int, e: int)
    requires RegexMatch(s, keys, key, p, c, e)
    ensures FindKey(s, key, 0) == Some(p)
  {
    var fk := FindKey(s, key, 0);
    assert OccursAt(s, key, p);
    assert fk.Some? && fk.value <= p;
    var p0 := fk.value;
    if p0 < p {
      assert p0 + |key| <= c < |s| && s[c] == ':';
      assert PatternMatchesAt(s, key, p0);
      assert false;
    }
  }

  lemma FirstEnd(s: string, keys: seq<string>, from: nat, e: int)
    requires from <= e <= |s| && EndAt(s, keys, e)
    requires forall q :: from <= q < e ==> !EndAt(s, keys, q)
    ensures FindEnd(s, keys, from) == e
  {
  }

  lemma FirstColon(s: string, from: nat, c: int)
    requires from <= c < |s| && s[c] == ':'
    requires forall q :: from <= q < c ==> s[q] != ':'
    ensures FindColon(s, from) == Some(c)
  {
  }

  lemma SectionFromStart(s: string, keys: seq<string>, key: string, lo: nat, hi: nat)
    requires lo <= hi <= |s| && CaptureStart(s, key) == Some(lo) && FindEnd(s, keys, lo) == hi
    ensures Section(s, keys, key) == Trim(s[lo..hi])
  {
    CapturedFrom(s, keys, lo, hi);
  }

  lemma CaptureStartOfMatch(s: string, key: string, p: nat, c: nat)
    requires FindKey(s, key, 0) == Some(p)
    requires p + |key| <= |s| && FindColon(s, p + |key|) == Some(c)
    ensures CaptureStart(s, key) == Some(c + 1)
  {
  }

  lemma CapturedFrom(s: string, keys: seq<string>, lo: nat, hi: nat)
    requires lo <= hi <= |s| && FindEnd(s, keys, lo) == hi
    ensures Captured(s, keys, Some(lo)) == Trim(s[lo..hi])
  {
  }

  /** When the pattern matches, the stored value is `trim` of its capture group. */
  lemma ExtractFollowsRegex(s: string, keys: seq<string>, key: string, p: int, c: int, e: int)
    requires key in keys
    requires RegexMatch(s, keys, key, p, c, e)
    ensures Extract(s, keys)[key] == Trim(s[c + 1..e])
  {
    MatchStartsAtFirstOccurrence(s, keys, key, p, c, e);
    FirstColon(s, p + |key|, c);
    FirstEnd(s, keys, c + 1, e);
    CaptureStartOfMatch(s, key, p, c);
    SectionFromStart(s, keys, key, c + 1, e);
    assert Extract(s, keys)[key] == Section(s, keys, key);
  }

  /** When the pattern cannot match anywhere, the stored value is "". */
  lemma ExtractWithoutMatch(s: string, keys: seq<string>, key: string)
    requires key in keys
    requires forall p :: !PatternMatchesAt(s, key, p)
    ensures Extract(s, keys)[key] == ""
  {
    var fk := FindKey(s, key, 0);
    if fk.Some? {
      var fc := FindColon(s, fk.value + |key|);
      if fc.Some? {
        assert PatternMatchesAt(s, key, fk.value);
        assert false;
      }
    }
  }

  /**
   * A capture never runs across a whole-word key, its own included: between
   * the colon and the end of the capture no expected key starts.
   */
  lemma CaptureStopsAtKeys(s: string, keys: seq<string>, key: string, p: int, c: int, e: int, k: string, q: int)
    requires RegexMatch(s, keys, key, p, c, e)
    requires k in keys && c + 1 <= q < e
    ensures !OccursAt(s, k, q)
  {
    assert !EndAt(s, keys, q);
  }

  /** No expected key starts at `q` when the character there cannot begin any of them. */
  lemma NoKeyStartsWith(s: string, keys: seq<string>, q: int)
    requires 0 <= q < |s|
    requires forall k :: k in keys ==> |k| > 0 && Lower(k[0]) != Lower(s[q])
    ensures !StopAt(s, keys, q)
  {
    forall k | k in keys ensures !OccursAt(s, k, q) {
      if q + |k| <= |s| {
        assert s[q..q + |k|][0] == s[q];
      }
    }
  }

  const SummaryExample: string := "Summary: the summary is"

  lemma SummaryExampleStart()
    ensures PatternMatchesAt(SummaryExample, "summary", 0)
  {
    var s := SummaryExample;
    assert s[0..7] == "Summary";
    assert EqualIgnoringCase(s[0..7], "summary");
    assert s[7] == ':';
  }

  lemma SummaryExampleStop()
    ensures StopAt(SummaryExample, AnalysisKeys, 13)
  {
    var s := SummaryExample;
    assert s[13..20] == "summary";
    assert EqualIgnoringCase(s[13..20], "summary");
    assert OccursAt(s, "summary", 13);
    assert "summary" in AnalysisKeys;
  }

  lemma AnalysisKeyInitials()
    ensures forall k :: k in AnalysisKeys ==>
      |k| > 0 && Lower(k[0]) == k[0] && (k[0] == 's' || k[0] == 'p' || k[0] == 'a' || k[0] == 'c' || k[0] == 'f' || k[0] == 'd')
  {
  }

  lemma InitialMatchesNoAnalysisKey(c: char)
    requires Lower(c) == c
    requires c != 's' && c != 'p' && c != 'a' && c != 'c' && c != 'f' && c != 'd'
    ensures forall k :: k in AnalysisKeys ==> |k| > 0 && Lower(k[0]) != Lower(c)
  {
    AnalysisKeyInitials();
  }

  lemma SummaryExampleNoStopAt(q: int)
    requires 8 <= q < 13
    ensures !EndAt(SummaryExample, AnalysisKeys, q)
  {
    var s := SummaryExample;
    assert s[8..13] == " the ";
    assert s[q] == s[8..13][q - 8];
    if q == 8 || q == 12 { assert s[q] == ' '; }
    else if q == 9 { assert s[q] == 't'; }
    else if q == 10 { assert s[q] == 'h'; }
    else { assert s[q] == 'e'; }
    InitialMatchesNoAnalysisKey(s[q]);
    NoKeyStartsWith(s, AnalysisKeys, q);
  }

  lemma SummaryExampleMatch()
    ensures RegexMatch(SummaryExample, AnalysisKeys, "summary", 0, 7, 13)
  {
    var s := SummaryExample;
    SummaryExampleStart();
    SummaryExampleStop();
    forall q | 8 <= q < 13 ensures !EndAt(s, AnalysisKeys, q) {
      SummaryExampleNoStopAt(q);
    }
    assert s[7] == ':';
  }

  lemma TrimOfPaddedThe()
    ensures Trim(" the ") == "the"
  {
    var t := " the ";
    assert t[..1] == " " && t[4..] == " " && t[1..4] == "the";
    TrimUnique(t, 1, 4);
  }

  lemma SummaryExampleCaptureText()
    ensures SummaryExample[8..13] == " the "
  {
  }

  lemma SummaryExampleCapture()
    ensures Extract(SummaryExample, AnalysisKeys)["summary"] == Trim(" the ")
  {
    SummaryExampleMatch();
    assert "summary" in AnalysisKeys;
    ExtractFollowsRegex(SummaryExample, AnalysisKeys, "summary", 0, 7, 13);
    SummaryExampleCaptureText();
  }

  /** The word "summary" inside the summary's own text ends the capture: "Summary: the summary is" stores "the". */
  lemma SummaryStopsAtItsOwnName()
    ensures Extract(SummaryExample, AnalysisKeys)["summary"] == "the"
  {
    SummaryExampleCapture();
    TrimOfPaddedThe();
  }

  /**
   * A key holding '_' never occurs in text without '_', so a column such as
   * `proven_facts` is left "" however the completion words its headings.
   */
  lemma HeadingWithoutUnderscoreLeavesColumnEmpty(s: string, keys: seq<string>, key: string)
    requires key in keys && '_' in key && '_' !in s
    ensures Extract(s, keys)[key] == ""
  {
    var u :| 0 <= u < |key| && key[u] == '_';
    forall p ensures !PatternMatchesAt(s, key, p) {
      if OccursAt(s, key, p) {
        assert false;
      }
    }
    ExtractWithoutMatch(s, keys, key);
  }

  /** The heading the prompt asks for, "Proven Facts:", does not fill `proven_facts`. */
  lemma ProvenFactsHeadingIsMissed()
    ensures Extract("Proven Facts: X", AnalysisKeys)["proven_facts"] == ""
  {
    assert "proven_facts"[6] == '_';
    HeadingWithoutUnderscoreLeavesColumnEmpty("Proven Facts: X", AnalysisKeys, "proven_facts");
  }
}
