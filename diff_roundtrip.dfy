/**
 * What the bulk rewrites do to the HTML of a rendered word diff: Accept
 * leaves the unchanged and added text, Reject the unchanged and removed
 * text.
 */
module DiffRoundTrip {
  import opened Wrappers
  import opened JsStrings
  import opened SuggestionMarks
  import opened SpanPatterns
  import opened Export
  import opened Diff
  import opened EditorToolbar

  /** Part values without `<` or a line break, which the span patterns then read back exactly. */
  predicate PlainValues(ps: seq<Part>) {
    forall i :: 0 <= i < |ps| ==> NoAngle(ps[i].value) && NoLineTerminator(ps[i].value)
  }

  /** The values of the parts not shown as kind `t`, concatenated in order. */
  function TextWithout(ps: seq<Part>, t: SuggestionType): string {
    if ps == [] then ""
    else (if PartKind(ps[0]) == Some(t) then "" else ps[0].value) + TextWithout(ps[1..], t)
  }

  /** What one replace of the spans of kind `t` does to one part: a span of kind `t` is dropped or turned into an unchanged part. */
  function PassPart(p: Part, t: SuggestionType, unwrap: bool): (r: seq<Part>)
    ensures |r| <= 1 && (r != [] ==> r[0].value == p.value)
  {
    if PartKind(p) != Some(t) then [p] else if unwrap then [Part(p.value, false, false)] else []
  }

  /** One replace of the spans of kind `t`, on the part list: dropped, or turned into unchanged parts. */
  function Pass(ps: seq<Part>, t: SuggestionType, unwrap: bool): (r: seq<Part>)
    ensures PlainValues(ps) ==> PlainValues(r)
  {
    if ps == [] then []
    else
      var rest := Pass(ps[1..], t, unwrap);
      var head := PassPart(ps[0], t, unwrap);
      PassStepPlain(ps, head, rest);
      head + rest
  }

  /** A part carrying the first value, if any, put in front of a pass over the plain rest stays plain. */
  lemma PassStepPlain(ps: seq<Part>, head: seq<Part>, rest: seq<Part>)
    requires ps != []
    requires PlainValues(ps[1..]) ==> PlainValues(rest)
    requires head == [] || (|head| == 1 && head[0].value == ps[0].value)
    ensures PlainValues(ps) ==> PlainValues(head + rest)
  {
    if !PlainValues(ps) {
      return;
    }
    assert PlainValues(ps[1..]) by {
      forall i | 0 <= i < |ps[1..]| ensures NoAngle(ps[1..][i].value) && NoLineTerminator(ps[1..][i].value) {
        assert ps[1..][i] == ps[i + 1];
      }
    }
    var r := head + rest;
    forall i | 0 <= i < |r| ensures NoAngle(r[i].value) && NoLineTerminator(r[i].value) {
      if i >= |head| {
        assert r[i] == rest[i - |head|];
      }
    }
  }

  lemma {:induction false} PassAppend(a: seq<Part>, b: seq<Part>, t: SuggestionType, unwrap: bool)
    ensures Pass(a + b, t, unwrap) == Pass(a, t, unwrap) + Pass(b, t, unwrap)
  {
    if a == [] {
      assert a + b == b;
    } else {
      assert (a + b)[1..] == a[1..] + b;
      PassAppend(a[1..], b, t, unwrap);
    }
  }

  /** On plain values, the string replace renders the part-list pass. */
  lemma {:induction false} PassRenders(ps: seq<Part>, t: SuggestionType, unwrap: bool)
    requires PlainValues(ps)
    ensures ReplaceSpans(RenderParts(ps), SpanOpen(t), unwrap) == RenderParts(Pass(ps, t, unwrap))
  {
    if ps != [] {
      var p := ps[0];
      var rest := RenderParts(ps[1..]);
      assert PlainValues(ps[1..]) by {
        forall i | 0 <= i < |ps[1..]| ensures NoAngle(ps[1..][i].value) && NoLineTerminator(ps[1..][i].value) {
          assert ps[1..][i] == ps[i + 1];
        }
      }
      PassRenders(ps[1..], t, unwrap);
      assert NoAngle(p.value) && NoLineTerminator(p.value);
      var head := PassPart(p, t, unwrap);
      RenderPartsAppend(head, Pass(ps[1..], t, unwrap));
      match PartKind(p)
      case None =>
        CopyPlain(p.value, rest, t, unwrap);
      case Some(k) =>
        if k == t {
          ReplaceSpanAtFront(t, p.value, rest, unwrap);
        } else {
          CopyOtherSpan(t, k, p.value, rest, unwrap);
        }
    }
  }

  /** After dropping the parts of one kind and unwrapping the other, only the kept values remain. */
  lemma {:induction false} TwoPasses(ps: seq<Part>, dropped: SuggestionType, unwrapped: SuggestionType)
    requires dropped != unwrapped
    ensures RenderParts(Pass(Pass(ps, dropped, false), unwrapped, true)) == TextWithout(ps, dropped)
  {
    if ps != [] {
      TwoPasses(ps[1..], dropped, unwrapped);
      var once := Pass(ps, dropped, false);
      var head := if PartKind(ps[0]) != Some(dropped) then [ps[0]] else [];
      assert once == head + Pass(ps[1..], dropped, false);
      PassAppend(head, Pass(ps[1..], dropped, false), unwrapped, true);
      var twice := Pass(head, unwrapped, true);
      RenderPartsAppend(twice, Pass(Pass(ps[1..], dropped, false), unwrapped, true));
      if head != [] {
        assert head[1..] == [];
        if PartKind(ps[0]) == Some(unwrapped) {
          assert twice == [Part(ps[0].value, false, false)];
        } else {
          assert twice == [ps[0]];
        }
        assert RenderParts(twice) == ps[0].value;
      }
    }
  }

  /**
   * Accepting all on the HTML of a word diff, whose values hold no `<` and
   * no line break, leaves the new text: the unchanged and added values.
   */
  lemma AcceptAllOfDiff(ps: seq<Part>)
    requires PlainValues(ps)
    ensures AcceptAllHtml(RenderParts(ps)) == TextWithout(ps, Deletion)
    ensures StripSuggestionSpans(RenderParts(ps)) == TextWithout(ps, Deletion)
  {
    PassRenders(ps, Deletion, false);
    PassRenders(Pass(ps, Deletion, false), Insertion, true);
    TwoPasses(ps, Deletion, Insertion);
    AcceptAllIsStrip(RenderParts(ps));
  }

  /** Rejecting all leaves the old text: the unchanged and removed values. */
  lemma RejectAllOfDiff(ps: seq<Part>)
    requires PlainValues(ps)
    ensures RejectAllHtml(RenderParts(ps)) == TextWithout(ps, Insertion)
  {
    PassRenders(ps, Insertion, false);
    PassRenders(Pass(ps, Insertion, false), Deletion, true);
    TwoPasses(ps, Insertion, Deletion);
  }

  /** The word diff of "The cat sat." and "The dog sat.": `The `, removed `cat`, added `dog`, ` sat.`. */
  const CatDog: seq<Part> := [Part("The ", false, false), Part("cat", false, true), Part("dog", true, false), Part(" sat.", false, false)]

  lemma CatDogText()
    ensures TextWithout(CatDog, Deletion) == "The dog sat."
    ensures TextWithout(CatDog, Insertion) == "The cat sat."
  {
    assert CatDog[1..][1..][1..][1..] == [];
  }

  /** Accept yields `The dog sat.` and Reject `The cat sat.`. */
  lemma CatDogButtons()
    ensures AcceptAllHtml(RenderParts(CatDog)) == "The dog sat."
    ensures RejectAllHtml(RenderParts(CatDog)) == "The cat sat."
  {
    assert PlainValues(CatDog) by {
      forall i | 0 <= i < |CatDog| ensures NoAngle(CatDog[i].value) && NoLineTerminator(CatDog[i].value) {
        assert CatDog[i].value in ["The ", "cat", "dog", " sat."];
      }
    }
    AcceptAllOfDiff(CatDog);
    RejectAllOfDiff(CatDog);
    CatDogText();
  }
}
