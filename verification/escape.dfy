/**
 * config.php's two output helpers. `sanitizeInput` is
 * htmlspecialchars(strip_tags(trim(s))) and `formatJudicialSummary` is
 * nl2br(sanitizeInput(s)). `strip_tags` is a parameter: its HTML tokenizer
 * is not part of this model. `htmlspecialchars` uses PHP 8.1's default flags
 * (ENT_QUOTES): it replaces the five characters & " ' < > with character
 * references (section 13.1.4 of the HTML Living Standard) and, with
 * double_encode on, re-escapes an '&' that already starts a reference.
 */
module Escape {
  import opened Text

  /**
   * The replacement htmlspecialchars makes for one character: the five
   * special characters become the reference that decodes back to them,
   * every other character stays as it is.
   */
  function EscapeChar(c: char): (r: string)
    ensures |r| >= 1
    ensures c != '&' && c != '"' && c != '\'' && c != '<' && c != '>' <==> r == [c]
    ensures r != [c] ==> IsReference(r)
    ensures Unescape(r) == [c]
  {
    match c
    case '&' => assert "&amp;"[..5] == "&amp;"; "&amp;"
    case '"' =>
      assert "&quot;"[..6] == "&quot;" && "&quot;"[1] == 'q';
      "&quot;"
    case '\'' =>
      assert "&#039;"[..6] == "&#039;" && "&#039;"[1] == '#';
      "&#039;"
    case '<' =>
      assert "&lt;"[..4] == "&lt;" && "&lt;"[1] == 'l';
      "&lt;"
    case '>' =>
      assert "&gt;"[..4] == "&gt;" && "&gt;"[1] == 'g';
      "&gt;"
    case _ =>
      assert !HasAt([c], 0, "&amp;") && !HasAt([c], 0, "&lt;");
      [c]
  }

  /** `w` occurs in `s` starting at index `i`. */
  predicate HasAt(s: string, i: nat, w: string) {
    i + |w| <= |s| && s[i..i + |w|] == w
  }

  /** One of the character references htmlspecialchars writes starts at index `i`. */
  predicate ReferenceAt(s: string, i: nat) {
    HasAt(s, i, "&amp;") || HasAt(s, i, "&quot;") || HasAt(s, i, "&#039;")
    || HasAt(s, i, "&lt;") || HasAt(s, i, "&gt;")
  }

  /** `s` holds none of the characters < > " ' that open or close markup or attribute values. */
  predicate NoMarkup(s: string) {
    forall k :: 0 <= k < |s| ==> s[k] != '<' && s[k] != '>' && s[k] != '"' && s[k] != '\''
  }

  lemma NoMarkupConcat(a: string, b: string)
    requires NoMarkup(a) && NoMarkup(b)
    ensures NoMarkup(a + b)
  {
    var s := a + b;
    forall k | 0 <= k < |s| ensures s[k] != '<' && s[k] != '>' && s[k] != '"' && s[k] != '\'' {
      if k < |a| {
        assert s[k] == a[k];
      } else {
        assert s[k] == b[k - |a|];
      }
    }
  }

  /** Text safe to place in HTML content or a quoted attribute: no markup characters, every '&' starts a reference. */
  ghost predicate IsEscaped(s: string) {
    && NoMarkup(s)
    && (forall k :: 0 <= k < |s| && s[k] == '&' ==> ReferenceAt(s, k))
  }

  lemma HasAtShift(a: string, b: string, i: nat, w: string)
    requires HasAt(b, i, w)
    ensures HasAt(a + b, |a| + i, w)
  {
    assert (a + b)[|a| + i..|a| + i + |w|] == b[i..i + |w|];
  }

  lemma HasAtPrefix(a: string, b: string, w: string)
    requires HasAt(a, 0, w)
    ensures HasAt(a + b, 0, w)
  {
    assert (a + b)[..|w|] == a[..|w|];
  }

  lemma EscapedShift(a: string, b: string, j: nat)
    requires IsEscaped(b) && j < |b| && b[j] == '&'
    ensures ReferenceAt(a + b, |a| + j)
  {
    if HasAt(b, j, "&amp;") { HasAtShift(a, b, j, "&amp;"); }
    else if HasAt(b, j, "&quot;") { HasAtShift(a, b, j, "&quot;"); }
    else if HasAt(b, j, "&#039;") { HasAtShift(a, b, j, "&#039;"); }
    else if HasAt(b, j, "&lt;") { HasAtShift(a, b, j, "&lt;"); }
    else { HasAtShift(a, b, j, "&gt;"); }
  }

  /** The five references htmlspecialchars writes. */
  predicate IsReference(w: string) {
    w == "&amp;" || w == "&quot;" || w == "&#039;" || w == "&lt;" || w == "&gt;"
  }

  /** A reference starts with its only '&' and holds no markup character. */
  lemma ReferenceShape(w: string)
    requires IsReference(w)
    ensures |w| >= 4 && w[0] == '&'
    ensures NoMarkup(w)
    ensures forall k :: 1 <= k < |w| ==> w[k] != '&'
  {
  }

  lemma ReferenceAtStart(w: string, b: string)
    requires IsReference(w)
    ensures ReferenceAt(w + b, 0)
  {
    assert w[0..|w|] == w;
    HasAtPrefix(w, b, w);
  }

  /** A reference followed by escaped text is escaped text. */
  lemma EscapedAfterReference(w: string, b: string)
    requires IsReference(w)
    requires IsEscaped(b)
    ensures IsEscaped(w + b)
  {
    ReferenceShape(w);
    NoMarkupConcat(w, b);
    AmpersandsAfterReference(w, b);
  }

  lemma AmpersandsAfterReference(w: string, b: string)
    requires IsReference(w)
    requires IsEscaped(b)
    ensures forall k :: 0 <= k < |w + b| && (w + b)[k] == '&' ==> ReferenceAt(w + b, k)
  {
    var s := w + b;
    ReferenceShape(w);
    forall k | 0 <= k < |s| && s[k] == '&' ensures ReferenceAt(s, k) {
      if k < |w| {
        AmpersandInReference(w, b, k);
      } else {
        assert s[k] == b[k - |w|];
        EscapedShift(w, b, k - |w|);
      }
    }
  }

  lemma AmpersandInReference(w: string, b: string, k: nat)
    requires IsReference(w) && k < |w| && (w + b)[k] == '&'
    ensures ReferenceAt(w + b, k)
  {
    ReferenceShape(w);
    assert w[k] == '&';
    ReferenceAtStart(w, b);
  }

  /** Escaping one character in front of escaped text keeps it escaped. */
  lemma EscapedCons(c: char, b: string)
    requires IsEscaped(b)
    ensures IsEscaped(EscapeChar(c) + b)
  {
    if c == '&' || c == '"' || c == '\'' || c == '<' || c == '>' {
      EscapedAfterReference(EscapeChar(c), b);
    } else {
      var s := [c] + b;
      forall k | 0 <= k < |s| && s[k] == '&' ensures ReferenceAt(s, k) {
        EscapedShift([c], b, k - 1);
      }
    }
  }

  /**
   * PHP `htmlspecialchars($s)`: the result holds no < > " ' character and
   * every & in it starts a character reference.
   */
  function HtmlSpecialChars(s: string): (r: string)
    ensures IsEscaped(r)
    ensures |r| >= |s|
    decreases |s|
  {
    if s == [] then []
    else
      var tail := HtmlSpecialChars(s[1..]);
      EscapedCons(s[0], tail);
      EscapeChar(s[0]) + tail
  }

  /** Decoding the five references htmlspecialchars writes (what a browser shows). */
  function Unescape(s: string): string
    decreases |s|
  {
    if s == [] then []
    else if HasAt(s, 0, "&amp;") then "&" + Unescape(s[5..])
    else if HasAt(s, 0, "&quot;") then "\"" + Unescape(s[6..])
    else if HasAt(s, 0, "&#039;") then "'" + Unescape(s[6..])
    else if HasAt(s, 0, "&lt;") then "<" + Unescape(s[4..])
    else if HasAt(s, 0, "&gt;") then ">" + Unescape(s[4..])
    else [s[0]] + Unescape(s[1..])
  }

  /** A text starting with a character other than '&' is not taken for a reference. */
  lemma NoReferenceAtPlainChar(t: string)
    requires |t| > 0 && t[0] != '&'
    ensures !ReferenceAt(t, 0)
  {
  }

  lemma UnescapeOneChar(c: char, rest: string)
    ensures Unescape(EscapeChar(c) + rest) == [c] + Unescape(rest)
  {
    if c == '&' || c == '"' {
      UnescapeAmpOrQuote(c, rest);
    } else if c == '\'' || c == '<' || c == '>' {
      UnescapeAposOrAngle(c, rest);
    } else {
      var t := EscapeChar(c) + rest;
      assert t[0] == c && t[1..] == rest;
      NoReferenceAtPlainChar(t);
    }
  }

  lemma UnescapeAmpOrQuote(c: char, rest: string)
    requires c == '&' || c == '"'
    ensures Unescape(EscapeChar(c) + rest) == [c] + Unescape(rest)
  {
    var t := EscapeChar(c) + rest;
    if c == '&' {
      assert t[..5] == "&amp;" && t[5..] == rest;
    } else {
      assert t[..6] == "&quot;" && t[6..] == rest;
      assert !HasAt(t, 0, "&amp;") by { assert t[1] == 'q'; }
    }
  }

  lemma UnescapeAposOrAngle(c: char, rest: string)
    requires c == '\'' || c == '<' || c == '>'
    ensures Unescape(EscapeChar(c) + rest) == [c] + Unescape(rest)
  {
    var t := EscapeChar(c) + rest;
    if c == '\'' {
      assert t[..6] == "&#039;" && t[6..] == rest;
      assert !HasAt(t, 0, "&amp;") && !HasAt(t, 0, "&quot;") by { assert t[1] == '#'; }
    } else if c == '<' {
      assert t[..4] == "&lt;" && t[4..] == rest;
      assert !HasAt(t, 0, "&amp;") && !HasAt(t, 0, "&quot;") && !HasAt(t, 0, "&#039;") by { assert t[1] == 'l'; }
    } else {
      assert t[..4] == "&gt;" && t[4..] == rest;
      assert !HasAt(t, 0, "&amp;") && !HasAt(t, 0, "&quot;") && !HasAt(t, 0, "&#039;") && !HasAt(t, 0, "&lt;") by { assert t[1] == 'g'; }
    }
  }

  /** Escaping loses nothing: decoding the references gives the original text back. */
  lemma {:induction false} UnescapeInvertsHtmlSpecialChars(s: string)
    ensures Unescape(HtmlSpecialChars(s)) == s
    decreases |s|
  {
    if s != [] {
      UnescapeOneChar(s[0], HtmlSpecialChars(s[1..]));
      UnescapeInvertsHtmlSpecialChars(s[1..]);
      assert s == [s[0]] + s[1..];
    }
  }

  /** PHP `sanitizeInput($input)` with `strip` standing for `strip_tags`. */
  function SanitizeInput(strip: string -> string, input: string): (r: string)
    ensures IsEscaped(r)
    ensures Unescape(r) == strip(Trim(input))
  {
    UnescapeInvertsHtmlSpecialChars(strip(Trim(input)));
    HtmlSpecialChars(strip(Trim(input)))
  }

  /** Whitespace around the input does not change what sanitizeInput returns. */
  lemma SanitizeIgnoresPadding(strip: string -> string, pre: string, s: string, post: string)
    requires AllTrimChars(pre) && AllTrimChars(post)
    ensures SanitizeInput(strip, pre + s + post) == SanitizeInput(strip, s)
  {
    TrimIgnoresPadding(pre, s, post);
  }

  /**
   * sanitizeInput is not idempotent: for a `strip_tags` that keeps tag-free
   * text, "&" becomes "&amp;" and then "&amp;amp;".
   */
  lemma SanitizeNotIdempotent(strip: string -> string)
    requires strip("&") == "&" && strip("&amp;") == "&amp;"
    ensures SanitizeInput(strip, "&") == "&amp;"
    ensures SanitizeInput(strip, SanitizeInput(strip, "&")) == "&amp;amp;"
  {
    TrimUnique("&", 0, 1);
    assert Trim("&") == "&" by { assert "&"[0..1] == "&"; }
    TrimUnique("&amp;", 0, 5);
    EscapeAmpersand();
  }

  lemma EscapeAmpersand()
    ensures HtmlSpecialChars("&") == "&amp;"
    ensures HtmlSpecialChars("&amp;") == "&amp;amp;"
  {
    EscapeAmpersandAlone();
    EscapeEscapedAmpersand();
  }

  lemma EscapeAmpersandAlone()
    ensures HtmlSpecialChars("&") == "&amp;"
  {
    EscapeLeadingAmpersand("");
    assert "&" == ['&'] + "";
    assert "&amp;" + "" == "&amp;";
  }

  lemma EscapeEscapedAmpersand()
    ensures HtmlSpecialChars("&amp;") == "&amp;amp;"
  {
    EscapeLeadingAmpersand("amp;");
    AmpersandLiterals();
    EntityNameUnchanged();
  }

  lemma AmpersandLiterals()
    ensures "&amp;" == ['&'] + "amp;"
    ensures "&amp;" + "amp;" == "&amp;amp;"
  {
  }

  lemma EntityNameUnchanged()
    ensures HtmlSpecialChars("amp;") == "amp;"
  {
    PlainTextUnchanged("amp;");
  }

  lemma EscapeLeadingAmpersand(s: string)
    ensures HtmlSpecialChars(['&'] + s) == "&amp;" + HtmlSpecialChars(s)
  {
    EscapeCons('&', s);
  }

  lemma EscapeCons(c: char, s: string)
    ensures HtmlSpecialChars([c] + s) == EscapeChar(c) + HtmlSpecialChars(s)
  {
    assert ([c] + s)[1..] == s;
  }

  /** Text without any of the five special characters passes through htmlspecialchars unchanged. */
  lemma {:induction false} PlainTextUnchanged(s: string)
    requires forall k :: 0 <= k < |s| ==> s[k] != '&' && s[k] != '"' && s[k] != '\'' && s[k] != '<' && s[k] != '>'
    ensures HtmlSpecialChars(s) == s
    decreases |s|
  {
    if s != [] {
      PlainTextUnchanged(s[1..]);
      assert s == [s[0]] + s[1..];
    }
  }

  /** The line breaks nl2br recognises: "\r\n" and "\n\r" count once, as do a lone "\n" or "\r". */
  predicate IsBreakChar(c: char) {
    c == '\n' || c == '\r'
  }

  const Br: string := "<br />"

  /** PHP `nl2br($s)`: "<br />" goes in front of every line break, which is kept. */
  function Nl2br(s: string): string
    decreases |s|
  {
    if s == [] then []
    else if |s| >= 2 && ((s[0] == '\r' && s[1] == '\n') || (s[0] == '\n' && s[1] == '\r')) then
      Br + s[..2] + Nl2br(s[2..])
    else if IsBreakChar(s[0]) then Br + [s[0]] + Nl2br(s[1..])
    else [s[0]] + Nl2br(s[1..])
  }

  /** Every '<' of `s` starts an inserted "<br />" that sits right before a line break. */
  ghost predicate TagsAreBreaks(s: string) {
    forall k :: 0 <= k < |s| && s[k] == '<' ==> HasAt(s, k, Br) && k + 6 < |s| && IsBreakChar(s[k + 6])
  }

  /** Taking every "<br />" out again. */
  function RemoveBreaks(s: string): string
    decreases |s|
  {
    if s == [] then []
    else if HasAt(s, 0, Br) then RemoveBreaks(s[6..])
    else [s[0]] + RemoveBreaks(s[1..])
  }

  lemma TagsAreBreaksConcat(a: string, b: string)
    requires TagsAreBreaks(a) && TagsAreBreaks(b)
    ensures TagsAreBreaks(a + b)
  {
    var s := a + b;
    forall k | 0 <= k < |s| && s[k] == '<' ensures HasAt(s, k, Br) && k + 6 < |s| && IsBreakChar(s[k + 6]) {
      if k < |a| {
        assert a[k..k + 6] == s[k..k + 6];
        assert s[k + 6] == a[k + 6];
      } else {
        assert b[k - |a|] == '<';
        HasAtShift(a, b, k - |a|, Br);
        assert s[k + 6] == b[k - |a| + 6];
      }
    }
  }

  /** Text without '<' in front of `rest` passes through RemoveBreaks unchanged. */
  lemma {:induction false} RemoveBreaksPlainPrefix(u: string, rest: string)
    requires forall k :: 0 <= k < |u| ==> u[k] != '<'
    ensures RemoveBreaks(u + rest) == u + RemoveBreaks(rest)
    decreases |u|
  {
    if u != [] {
      var t := u + rest;
      assert t[0] == u[0] && !HasAt(t, 0, Br);
      assert t[1..] == u[1..] + rest;
      RemoveBreaksPlainPrefix(u[1..], rest);
      assert u == [u[0]] + u[1..];
    } else {
      assert u + rest == rest;
    }
  }

  /** Text without '<' in front of `rest` keeps every tag of `rest` a break tag. */
  lemma PlainPrefixKeepsTags(u: string, rest: string)
    requires forall k :: 0 <= k < |u| ==> u[k] != '<'
    requires TagsAreBreaks(rest)
    ensures TagsAreBreaks(u + rest)
  {
    TagsAreBreaksConcat(u, rest);
  }

  /** "<br />" in front of a line break `u` (one or two characters) and then `rest`. */
  lemma BreakTagInFront(u: string, rest: string)
    requires 1 <= |u| <= 2 && IsBreakChar(u[0])
    requires forall k :: 0 <= k < |u| ==> u[k] != '<'
    requires TagsAreBreaks(rest)
    ensures TagsAreBreaks(Br + u + rest)
    ensures RemoveBreaks(Br + u + rest) == u + RemoveBreaks(rest)
  {
    var head := Br + u;
    assert TagsAreBreaks(head) by {
      forall k | 0 <= k < |head| && head[k] == '<' ensures HasAt(head, k, Br) && k + 6 < |head| && IsBreakChar(head[k + 6]) {
        assert k == 0;
      }
    }
    TagsAreBreaksConcat(head, rest);
    var t := head + rest;
    assert HasAt(t, 0, Br);
    assert t[6..] == u + rest;
    RemoveBreaksPlainPrefix(u, rest);
  }

  /**
   * On text without '<' (which sanitizeInput guarantees) nl2br only inserts
   * "<br />" before line breaks: every '<' of the result starts one, and
   * removing them gives the text back.
   */
  lemma {:induction false} Nl2brInsertsOnlyBreaks(s: string)
    requires forall k :: 0 <= k < |s| ==> s[k] != '<'
    ensures TagsAreBreaks(Nl2br(s))
    ensures RemoveBreaks(Nl2br(s)) == s
    decreases |s|
  {
    if s == [] {
    } else if |s| >= 2 && ((s[0] == '\r' && s[1] == '\n') || (s[0] == '\n' && s[1] == '\r')) {
      Nl2brInsertsOnlyBreaks(s[2..]);
      BreakTagInFront(s[..2], Nl2br(s[2..]));
      assert s == s[..2] + s[2..];
    } else if IsBreakChar(s[0]) {
      Nl2brInsertsOnlyBreaks(s[1..]);
      BreakTagInFront([s[0]], Nl2br(s[1..]));
      assert s == [s[0]] + s[1..];
    } else {
      Nl2brInsertsOnlyBreaks(s[1..]);
      PlainPrefixKeepsTags([s[0]], Nl2br(s[1..]));
      RemoveBreaksPlainPrefix([s[0]], Nl2br(s[1..]));
      assert s == [s[0]] + s[1..];
    }
  }

  /**
   * PHP `formatJudicialSummary($text)`: the only markup in the result is
   * "<br />" in front of line breaks, and removing it gives sanitizeInput's
   * result back.
   */
  function FormatJudicialSummary(strip: string -> string, text: string): (r: string)
    ensures TagsAreBreaks(r)
    ensures RemoveBreaks(r) == SanitizeInput(strip, text)
  {
    var clean := SanitizeInput(strip, text);
    Nl2brInsertsOnlyBreaks(clean);
    Nl2br(clean)
  }
}
