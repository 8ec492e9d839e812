/**
 * The string transformations of the export utilities: stripping the
 * suggestion spans from HTML, the white-space clean-up applied to the
 * Markdown export, and the Word HTML wrapper.
 */
module Export {
  import opened Wrappers
  import opened JsStrings
  import opened SuggestionMarks
  import opened SpanPatterns

  // ---------------------------------------------------------------------
  // stripSuggestionSpans
  // ---------------------------------------------------------------------

  /**
   * `stripSuggestionSpans(html)`: `""` for the empty string; otherwise the
   * deletion spans are dropped with their content, then the insertion spans
   * are replaced by their content.
   */
  function StripSuggestionSpans(html: string): (r: string)
    ensures html == "" ==> r == ""
  {
    if html == "" then ""
    else ReplaceSpans(ReplaceSpans(html, SpanOpen(Deletion), false), SpanOpen(Insertion), true)
  }

  /** HTML without any suggestion opening tag comes back unchanged. */
  lemma StripWithoutSpans(html: string)
    requires forall i :: 0 <= i <= |html| ==> !(SpanOpen(Deletion) <= html[i..]) && !(SpanOpen(Insertion) <= html[i..])
    ensures StripSuggestionSpans(html) == html
  {
    NoOpenTagUnchanged(html, Deletion, false);
    NoOpenTagUnchanged(html, Insertion, true);
  }

  // ---------------------------------------------------------------------
  // normalizeWhitespace
  // ---------------------------------------------------------------------

  /** Starting at index 0, a white-space run reaches a `\n`. */
  predicate NewlineInRun(s: string) {
    exists k :: 0 <= k < |s| && s[k] == '\n' && forall j :: 0 <= j <= k ==> IsWhiteSpace(s[j])
  }

  lemma NewlineInRunStep(s: string)
    ensures s != [] && IsWhiteSpace(s[0]) ==> (NewlineInRun(s) <==> s[0] == '\n' || NewlineInRun(s[1..]))
    ensures s == [] || !IsWhiteSpace(s[0]) ==> !NewlineInRun(s)
  {
    if s != [] && IsWhiteSpace(s[0]) {
      if NewlineInRun(s) && s[0] != '\n' {
        var k :| 0 <= k < |s| && s[k] == '\n' && forall j :: 0 <= j <= k ==> IsWhiteSpace(s[j]);
        assert s[1..][k - 1] == s[k];
        assert forall j :: 0 <= j <= k - 1 ==> IsWhiteSpace(s[1..][j]) by {
          forall j | 0 <= j <= k - 1 ensures IsWhiteSpace(s[1..][j]) {
            assert s[1..][j] == s[j + 1];
          }
        }
      }
      if NewlineInRun(s[1..]) {
        var k :| 0 <= k < |s[1..]| && s[1..][k] == '\n' && forall j :: 0 <= j <= k ==> IsWhiteSpace(s[1..][j]);
        assert s[k + 1] == '\n';
        forall j | 0 <= j <= k + 1 ensures IsWhiteSpace(s[j]) {
          if j > 0 {
            assert s[j] == s[1..][j - 1];
          }
        }
      }
      if s[0] == '\n' {
        assert forall j :: 0 <= j <= 0 ==> IsWhiteSpace(s[j]);
      }
    }
  }

  lemma WhiteSpaceCons(s: string, k: nat, m: nat)
    requires k < m <= |s| && IsWhiteSpace(s[k]) && AllWhiteSpace(s[k + 1..m])
    ensures AllWhiteSpace(s[k..m])
  {
    assert s[k..m] == [s[k]] + s[k + 1..m];
  }

  /**
   * The greedy `\s+` of `\s+\n` extended up to index `k`, `best` being the
   * end of the longest match found so far: the run of white space is
   * followed to its end and the match ends after its last `\n`.
   */
  function GreedyEnd(s: string, k: nat, best: Option<nat>): (r: Option<nat>)
    requires k <= |s|
    requires best.Some? ==> 0 < best.value <= k && s[best.value - 1] == '\n'
    ensures r.Some? <==> best.Some? || NewlineInRun(s[k..])
    ensures !NewlineInRun(s[k..]) ==> r == best
    ensures r.Some? && NewlineInRun(s[k..]) ==>
      && k < r.value <= |s| && s[r.value - 1] == '\n'
      && AllWhiteSpace(s[k..r.value]) && !NewlineInRun(s[r.value..])
    decreases |s| - k
  {
    NewlineInRunStep(s[k..]);
    if k < |s| && IsWhiteSpace(s[k]) then
      assert s[k..][1..] == s[k + 1..];
      var r := GreedyEnd(s, k + 1, if s[k] == '\n' then Some(k + 1) else best);
      if r.Some? && NewlineInRun(s[k + 1..]) then
        WhiteSpaceCons(s, k, r.value);
        r
      else
        r
    else
      best
  }

  /** The end of the match of `\s+\n` at the start of `s`, if there is one. */
  function WsNewlineMatch(s: string): (r: Option<nat>)
    ensures r.Some? <==> s != [] && IsWhiteSpace(s[0]) && NewlineInRun(s[1..])
    ensures r.Some? ==> 2 <= r.value <= |s| && s[r.value - 1] == '\n' && AllWhiteSpace(s[..r.value]) && !NewlineInRun(s[r.value..])
  {
    if s != [] && IsWhiteSpace(s[0]) then
      var r := GreedyEnd(s, 1, None);
      assert r.Some? ==> s[..r.value] == [s[0]] + s[1..r.value];
      r
    else None
  }

  /** `s.replace(/\s+\n/g, '\n')`. */
  function ReplaceWsNewline(s: string): string
    decreases |s|
  {
    if s == [] then []
    else
      match WsNewlineMatch(s)
      case Some(m) => "\n" + ReplaceWsNewline(s[m..])
      case None => [s[0]] + ReplaceWsNewline(s[1..])
  }

  /** `s.replace(/\n{3,}/g, '\n\n')`: a run of three or more `\n` becomes two. */
  function CollapseNewlines(s: string): string
    decreases |s|
  {
    if |s| >= 3 && s[0] == '\n' && s[1] == '\n' && s[2] == '\n' then
      "\n\n" + CollapseNewlines(DropNewlines(s))
    else if s == [] then []
    else [s[0]] + CollapseNewlines(s[1..])
  }

  /** `s` without its leading `\n` characters. */
  function DropNewlines(s: string): (r: string)
    ensures |r| <= |s| && (s != [] && s[0] == '\n' ==> |r| < |s|)
  {
    if s != [] && s[0] == '\n' then DropNewlines(s[1..]) else s
  }

  /** `normalizeWhitespace(text)`. */
  function NormalizeWhitespace(text: string): string {
    CollapseNewlines(ReplaceWsNewline(text))
  }

  /** No `\n` follows a white-space character. */
  predicate NoWhiteSpaceBeforeNewline(s: string) {
    forall k :: 0 < k < |s| && s[k] == '\n' ==> !IsWhiteSpace(s[k - 1])
  }

  lemma {:induction false} ReplaceWsNewlineClean(s: string)
    ensures NoWhiteSpaceBeforeNewline(ReplaceWsNewline(s))
    ensures ReplaceWsNewline(s) != [] && ReplaceWsNewline(s)[0] == '\n' ==> NewlineInRun(s)
    decreases |s|
  {
    if s != [] {
      var r := ReplaceWsNewline(s);
      NewlineInRunStep(s);
      match WsNewlineMatch(s)
      case Some(m) =>
        var rest := ReplaceWsNewline(s[m..]);
        ReplaceWsNewlineClean(s[m..]);
        assert r == "\n" + rest;
        forall k | 0 < k < |r| && r[k] == '\n' ensures !IsWhiteSpace(r[k - 1]) {
          assert r[k] == rest[k - 1];
          if k > 1 {
            assert r[k - 1] == rest[k - 2];
          }
        }
      case None =>
        var rest := ReplaceWsNewline(s[1..]);
        ReplaceWsNewlineClean(s[1..]);
        assert r == [s[0]] + rest;
        forall k | 0 < k < |r| && r[k] == '\n' ensures !IsWhiteSpace(r[k - 1]) {
          assert r[k] == rest[k - 1];
          if k > 1 {
            assert r[k - 1] == rest[k - 2];
          }
        }
        if r[0] == '\n' {
          assert forall j :: 0 <= j <= 0 ==> IsWhiteSpace(s[j]);
        }
    }
  }

  /** Without two `\n` in a row, the second rewrite has nothing to do. */
  lemma {:induction false} CollapseWithoutDoubleNewline(s: string)
    requires forall k :: 0 < k < |s| && s[k] == '\n' ==> s[k - 1] != '\n'
    ensures CollapseNewlines(s) == s
    decreases |s|
  {
    if s != [] {
      CollapseWithoutDoubleNewline(s[1..]);
    }
  }

  /**
   * After `normalizeWhitespace` no `\n` is preceded by white space, hence
   * no blank line is left and the `\n{3,}` rewrite never fires.
   */
  lemma NormalizeWhitespaceClean(text: string)
    ensures NoWhiteSpaceBeforeNewline(NormalizeWhitespace(text))
    ensures NormalizeWhitespace(text) == ReplaceWsNewline(text)
  {
    ReplaceWsNewlineClean(text);
    CollapseWithoutDoubleNewline(ReplaceWsNewline(text));
  }

  /** Text with no white space before a `\n` is left as it is: normalizing twice is normalizing once. */
  lemma {:induction false} ReplaceWsNewlineOfClean(s: string)
    requires NoWhiteSpaceBeforeNewline(s)
    ensures ReplaceWsNewline(s) == s
    decreases |s|
  {
    if s != [] {
      assert NoWhiteSpaceBeforeNewline(s[1..]) by {
        forall k | 0 < k < |s[1..]| && s[1..][k] == '\n' ensures !IsWhiteSpace(s[1..][k - 1]) {
          assert s[1..][k] == s[k + 1];
        }
      }
      ReplaceWsNewlineOfClean(s[1..]);
    }
  }

  lemma NormalizeWhitespaceIdempotent(text: string)
    ensures NormalizeWhitespace(NormalizeWhitespace(text)) == NormalizeWhitespace(text)
  {
    NormalizeWhitespaceClean(text);
    var once := NormalizeWhitespace(text);
    ReplaceWsNewlineOfClean(once);
    NormalizeWhitespaceClean(once);
  }

  /** No two `\n` in a row: the blank lines of the input are gone. */
  lemma NormalizeWhitespaceMergesParagraphs(text: string)
    ensures forall k :: 0 < k < |NormalizeWhitespace(text)| && NormalizeWhitespace(text)[k] == '\n' ==> NormalizeWhitespace(text)[k - 1] != '\n'
  {
    NormalizeWhitespaceClean(text);
  }

  // The `\n{3,}` rewrite shows that paragraph breaks (`\n\n`) are meant to
  // survive, which only holds when the first rewrite drops white space
  // other than `\n` before a line break.

  /** White space that is not a `\n`. */
  predicate IsBlank(c: char) {
    IsWhiteSpace(c) && c != '\n'
  }

  /** `s` starts with blanks followed by a `\n`. */
  predicate BlanksThenNewline(s: string)
    decreases |s|
  {
    s != [] && (s[0] == '\n' || (IsBlank(s[0]) && BlanksThenNewline(s[1..])))
  }

  /** The first rewrite as intended: the blanks before each `\n` are dropped. */
  function DropBlanksBeforeNewline(s: string): string
    decreases |s|
  {
    if s == [] then []
    else if IsBlank(s[0]) && BlanksThenNewline(s[1..]) then DropBlanksBeforeNewline(s[1..])
    else [s[0]] + DropBlanksBeforeNewline(s[1..])
  }

  /** `normalizeWhitespace` with the first rewrite as intended. */
  function NormalizeWhitespaceIntended(text: string): string {
    CollapseNewlines(DropBlanksBeforeNewline(text))
  }

  /** No blank precedes a `\n`. */
  predicate NoBlankBeforeNewline(s: string) {
    forall k :: 0 < k < |s| && s[k] == '\n' ==> !IsBlank(s[k - 1])
  }

  /** No three `\n` in a row. */
  predicate NoTripleNewline(s: string) {
    forall k :: 0 <= k && k + 2 < |s| ==> !(s[k] == '\n' && s[k + 1] == '\n' && s[k + 2] == '\n')
  }

  function NewlineCount(s: string): nat {
    if s == [] then 0 else (if s[0] == '\n' then 1 else 0) + NewlineCount(s[1..])
  }

  lemma {:induction false} DropBlanksFacts(s: string)
    ensures NoBlankBeforeNewline(DropBlanksBeforeNewline(s))
    ensures NewlineCount(DropBlanksBeforeNewline(s)) == NewlineCount(s)
    ensures DropBlanksBeforeNewline(s) != [] && IsBlank(DropBlanksBeforeNewline(s)[0]) ==> !BlanksThenNewline(s)
    ensures BlanksThenNewline(s) ==> DropBlanksBeforeNewline(s) != [] && DropBlanksBeforeNewline(s)[0] == '\n'
    decreases |s|
  {
    if s != [] {
      DropBlanksFacts(s[1..]);
      var rest := DropBlanksBeforeNewline(s[1..]);
      if !(IsBlank(s[0]) && BlanksThenNewline(s[1..])) {
        var r := DropBlanksBeforeNewline(s);
        assert r == [s[0]] + rest;
        forall k | 0 < k < |r| && r[k] == '\n' ensures !IsBlank(r[k - 1]) {
          assert r[k] == rest[k - 1];
          if k > 1 {
            assert r[k - 1] == rest[k - 2];
          }
        }
        assert r[1..] == rest;
      }
    }
  }

  lemma {:induction false} DropBlanksOfClean(s: string)
    requires NoBlankBeforeNewline(s)
    ensures DropBlanksBeforeNewline(s) == s
    decreases |s|
  {
    if s != [] {
      assert NoBlankBeforeNewline(s[1..]) by {
        forall k | 0 < k < |s[1..]| && s[1..][k] == '\n' ensures !IsBlank(s[1..][k - 1]) {
          assert s[1..][k] == s[k + 1];
        }
      }
      if IsBlank(s[0]) {
        BlanksAfterBlank(s);
      }
      DropBlanksOfClean(s[1..]);
    }
  }

  lemma {:induction false} BlanksAfterBlank(s: string)
    requires NoBlankBeforeNewline(s) && s != [] && IsBlank(s[0])
    ensures !BlanksThenNewline(s[1..])
    decreases |s|
  {
    if |s| > 1 {
      assert s[1] != '\n';
      if IsBlank(s[1]) {
        assert NoBlankBeforeNewline(s[1..]) by {
          forall k | 0 < k < |s[1..]| && s[1..][k] == '\n' ensures !IsBlank(s[1..][k - 1]) {
            assert s[1..][k] == s[k + 1];
          }
        }
        BlanksAfterBlank(s[1..]);
      }
    }
  }

  lemma {:induction false} CollapseFacts(s: string)
    ensures NoTripleNewline(CollapseNewlines(s))
    ensures CollapseNewlines(s) != [] <==> s != []
    ensures s != [] ==> CollapseNewlines(s)[0] == s[0]
    decreases |s|
  {
    var r := CollapseNewlines(s);
    if |s| >= 3 && s[0] == '\n' && s[1] == '\n' && s[2] == '\n' {
      var d := DropNewlines(s);
      DropNewlinesFacts(s);
      CollapseFacts(d);
      var rest := CollapseNewlines(d);
      assert r == "\n\n" + rest;
      forall k | 0 <= k && k + 2 < |r| ensures !(r[k] == '\n' && r[k + 1] == '\n' && r[k + 2] == '\n') {
        if k >= 2 {
          assert r[k] == rest[k - 2] && r[k + 1] == rest[k - 1] && r[k + 2] == rest[k];
        } else {
          assert r[2] == rest[0];
        }
      }
    } else if s != [] {
      CollapseFacts(s[1..]);
      if |s| >= 3 {
        CollapseFacts(s[2..]);
      }
      var rest := CollapseNewlines(s[1..]);
      assert r == [s[0]] + rest;
      forall k | 0 <= k && k + 2 < |r| ensures !(r[k] == '\n' && r[k + 1] == '\n' && r[k + 2] == '\n') {
        if k >= 1 {
          assert r[k] == rest[k - 1] && r[k + 1] == rest[k] && r[k + 2] == rest[k + 1];
        } else if s[0] == '\n' && rest[0] == '\n' {
          assert s[1..][1..] == s[2..];
        }
      }
    }
  }

  lemma DropNewlinesFacts(s: string)
    ensures DropNewlines(s) == [] || DropNewlines(s)[0] != '\n'
  {
  }

  lemma {:induction false} CollapseOfTripleFree(s: string)
    requires NoTripleNewline(s)
    ensures CollapseNewlines(s) == s
    decreases |s|
  {
    if s != [] {
      assert NoTripleNewline(s[1..]) by {
        forall k | 0 <= k && k + 2 < |s[1..]| ensures !(s[1..][k] == '\n' && s[1..][k + 1] == '\n' && s[1..][k + 2] == '\n') {
          assert s[1..][k] == s[k + 1] && s[1..][k + 1] == s[k + 2] && s[1..][k + 2] == s[k + 3];
        }
      }
      CollapseOfTripleFree(s[1..]);
    }
  }

  /**
   * The intended normalization leaves no blank before a line break, no run
   * of three line breaks, and is the identity on text that already has both
   * properties, so a paragraph break `\n\n` is kept.
   */
  lemma NormalizeWhitespaceIntendedFacts(text: string)
    ensures NoTripleNewline(NormalizeWhitespaceIntended(text))
    ensures NoBlankBeforeNewline(text) && NoTripleNewline(text) ==> NormalizeWhitespaceIntended(text) == text
  {
    CollapseFacts(DropBlanksBeforeNewline(text));
    if NoBlankBeforeNewline(text) && NoTripleNewline(text) {
      DropBlanksOfClean(text);
      CollapseOfTripleFree(text);
    }
  }

  /** Two paragraphs as the Markdown walk emits them. */
  const TwoParagraphs: string := "a\n\nb"

  /** As written, the paragraph break of `a\n\nb` is lost. */
  lemma TwoParagraphsMerged()
    ensures NormalizeWhitespace(TwoParagraphs) != TwoParagraphs
  {
    NormalizeWhitespaceMergesParagraphs(TwoParagraphs);
    assert TwoParagraphs[2] == '\n' && TwoParagraphs[1] == '\n';
  }

  /** As intended, `a\n\nb` is kept. */
  lemma TwoParagraphsKept()
    ensures NormalizeWhitespaceIntended(TwoParagraphs) == TwoParagraphs
  {
    assert !IsBlank(TwoParagraphs[0]) && !IsBlank(TwoParagraphs[1]) && !IsBlank(TwoParagraphs[2]);
    NormalizeWhitespaceIntendedFacts(TwoParagraphs);
  }

  // ---------------------------------------------------------------------
  // wrapHtmlForWord
  // ---------------------------------------------------------------------

  const WordPrologue: string :=
    "<!DOCTYPE html>\n"
    + "<html xmlns:o=\"urn:schemas-microsoft-com:office:office\" xmlns:w=\"urn:schemas-microsoft-com:office:word\" xmlns=\"http://www.w3.org/TR/REC-html40\">\n"
    + "<head>\n"
    + "  <meta charset=\"utf-8\" />\n"
    + "  <title>Document</title>\n"
    + "</head>\n"
    + "<body>\n"

  const WordEpilogue: string := "\n</body>\n</html>"

  /** `wrapHtmlForWord(bodyHtml)`: the body inside a fixed Office HTML document. */
  function WrapHtmlForWord(bodyHtml: string): (r: string)
    ensures |r| == |WordPrologue| + |bodyHtml| + |WordEpilogue|
    ensures r[..|WordPrologue|] == WordPrologue
    ensures r[|r| - |WordEpilogue|..] == WordEpilogue
    ensures r[|WordPrologue|..|r| - |WordEpilogue|] == bodyHtml
  {
    WordPrologue + bodyHtml + WordEpilogue
  }

  /** Different bodies give different documents: the wrapper loses nothing. */
  lemma WrapHtmlForWordInjective(a: string, b: string)
    requires WrapHtmlForWord(a) == WrapHtmlForWord(b)
    ensures a == b
  {
  }
}
