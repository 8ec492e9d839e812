/**
 * `computeDiff`: renders the part list of a word diff as HTML, inserted
 * parts and deleted parts wrapped in the suggestion spans. The word diff
 * itself is computed by the `diff` library and is an input here.
 */
module Diff {
  import opened Wrappers
  import opened SuggestionMarks

  /** One part of a word diff. */
  datatype Part = Part(value: string, added: bool, removed: bool)

  /** How a part is shown: `added` is looked at first, so a part flagged both ways is an insertion. */
  function PartKind(p: Part): (k: Option<SuggestionType>)
    ensures k == Some(Insertion) <==> p.added
    ensures k == Some(Deletion) <==> !p.added && p.removed
  {
    if p.added then Some(Insertion) else if p.removed then Some(Deletion) else None
  }

  /** The HTML of one part: its value, inside the span of its kind when it has one. */
  function RenderPart(p: Part): string {
    match PartKind(p)
    case None => p.value
    case Some(t) => SpanOpen(t) + p.value + SpanClose
  }

  /** The parts rendered one after another. */
  function RenderParts(ps: seq<Part>): string {
    if ps == [] then "" else RenderPart(ps[0]) + RenderParts(ps[1..])
  }

  /** Rendering distributes over concatenation of part lists. */
  lemma {:induction false} RenderPartsAppend(a: seq<Part>, b: seq<Part>)
    ensures RenderParts(a + b) == RenderParts(a) + RenderParts(b)
  {
    if a == [] {
      assert a + b == b;
    } else {
      assert (a + b)[1..] == a[1..] + b;
      RenderPartsAppend(a[1..], b);
    }
  }

  lemma PartsStep(ps: seq<Part>, k: nat)
    requires k < |ps|
    ensures RenderParts(ps[..k + 1]) == RenderParts(ps[..k]) + RenderPart(ps[k])
  {
    assert ps[..k + 1] == ps[..k] + [ps[k]];
    RenderPartsAppend(ps[..k], [ps[k]]);
    assert [ps[k]][1..] == [];
  }

  /** `computeDiff(oldText, newText)` given the parts `diffWords` returns: `html += ...` for each part in turn. */
  method ComputeDiff(diff: seq<Part>) returns (html: string)
    ensures html == RenderParts(diff)
    ensures diff == [] ==> html == ""
  {
    html := "";
    for k := 0 to |diff|
      invariant html == RenderParts(diff[..k])
    {
      var part := diff[k];
      var value := part.value;
      var piece: string;
      if part.added {
        piece := SpanOpen(Insertion) + value + SpanClose;
      } else if part.removed {
        piece := SpanOpen(Deletion) + value + SpanClose;
      } else {
        piece := value;
      }
      assert piece == RenderPart(part);
      PartsStep(diff, k);
      html := html + piece;
    }
    assert diff[..|diff|] == diff;
  }
}
