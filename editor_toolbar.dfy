/**
 * The toolbar's Accept and Reject buttons: two regular-expression rewrites
 * of the editor's HTML, one dropping the spans of one kind with their
 * content, the other unwrapping the spans of the other kind.
 */
module EditorToolbar {
  import opened SuggestionMarks
  import opened SpanPatterns
  import opened Export

  /** Accept: deletions dropped, then insertions unwrapped. */
  function AcceptAllHtml(html: string): string {
    ReplaceSpans(ReplaceSpans(html, SpanOpen(Deletion), false), SpanOpen(Insertion), true)
  }

  /** Reject: insertions dropped, then deletions unwrapped. */
  function RejectAllHtml(html: string): string {
    ReplaceSpans(ReplaceSpans(html, SpanOpen(Insertion), false), SpanOpen(Deletion), true)
  }

  /** Accept rewrites exactly as the export's span stripping does, the empty string included. */
  lemma AcceptAllIsStrip(html: string)
    ensures AcceptAllHtml(html) == StripSuggestionSpans(html)
  {
  }

  /** HTML with no suggestion opening tag is left as it is by both buttons. */
  lemma NoSpansUnchanged(html: string)
    requires forall i :: 0 <= i <= |html| ==> !(SpanOpen(Deletion) <= html[i..]) && !(SpanOpen(Insertion) <= html[i..])
    ensures AcceptAllHtml(html) == html
    ensures RejectAllHtml(html) == html
  {
    NoOpenTagUnchanged(html, Deletion, false);
    NoOpenTagUnchanged(html, Insertion, true);
    NoOpenTagUnchanged(html, Insertion, false);
    NoOpenTagUnchanged(html, Deletion, true);
  }
}
