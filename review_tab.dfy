/**
 * The review sidebar's scan of the document: one pass over the nodes in
 * document order, coalescing consecutive text nodes that carry the same
 * suggestion mark into one suggestion.
 */
module ReviewTab {
  import opened Wrappers
  import opened JsStrings
  import opened SuggestionMarks

  /** A node as `doc.descendants` reports it: a text node with its text and mark names, or any other node. */
  datatype Node = TextNode(text: string, marks: seq<string>) | OtherNode(nodeSize: nat)

  /** A node together with the document offset at which `descendants` visits it. */
  datatype Visit = Visit(node: Node, pos: nat)

  /** The `Suggestion` record; `from` and `to` are document offsets. */
  datatype Suggestion = Suggestion(id: string, kind: SuggestionType, text: string, from: nat, to: nat)

  /** `${type}-${pos}`. */
  function SuggestionId(t: SuggestionType, pos: nat): string {
    Name(t) + "-" + DecimalString(pos)
  }

  /** `to - from` is the length of the text and the id names the type and the start. */
  predicate WellFormed(s: Suggestion) {
    s.to - s.from == |s.text| && s.id == SuggestionId(s.kind, s.from)
  }

  /**
   * Recording a text node at `pos` that carries suggestion type `t`: when
   * the last suggestion has type `t` and ends at `pos`, it is extended by
   * the node; otherwise a suggestion covering the node is pushed.
   */
  function Record(found: seq<Suggestion>, t: SuggestionType, text: string, pos: nat): (r: seq<Suggestion>)
    ensures
      if |found| > 0 && found[|found| - 1].kind == t && found[|found| - 1].to == pos then
        var last := found[|found| - 1];
        && |r| == |found| && r[..|found| - 1] == found[..|found| - 1]
        && r[|found| - 1] == last.(text := last.text + text, to := last.to + |text|)
      else
        r == found + [Suggestion(SuggestionId(t, pos), t, text, pos, pos + |text|)]
  {
    if |found| > 0 && found[|found| - 1].kind == t && found[|found| - 1].to == pos then
      var last := found[|found| - 1];
      found[..|found| - 1] + [last.(text := last.text + text, to := last.to + |text|)]
    else
      found + [Suggestion(SuggestionId(t, pos), t, text, pos, pos + |text|)]
  }

  /** What one mark of a text node at `pos` does: a mark that is not a suggestion does nothing. */
  function Step(found: seq<Suggestion>, name: string, text: string, pos: nat): (r: seq<Suggestion>)
    ensures TypeOfName(name).None? ==> r == found
    ensures TypeOfName(name).Some? ==> r == Record(found, TypeOfName(name).value, text, pos)
  {
    match TypeOfName(name)
    case None => found
    case Some(t) => Record(found, t, text, pos)
  }

  /** `marks.forEach(...)` over the marks of one text node. */
  function ScanMarks(found: seq<Suggestion>, marks: seq<string>, text: string, pos: nat): seq<Suggestion> {
    if marks == [] then found
    else Step(ScanMarks(found, marks[..|marks| - 1], text, pos), marks[|marks| - 1], text, pos)
  }

  /** The callback of `doc.descendants` for one node: only text nodes contribute. */
  function ScanNode(found: seq<Suggestion>, v: Visit): seq<Suggestion> {
    match v.node
    case OtherNode(_) => found
    case TextNode(text, marks) => ScanMarks(found, marks, text, v.pos)
  }

  /** The suggestions `scanSuggestions` collects from the visits `vs`, in order. */
  function Scan(vs: seq<Visit>): seq<Suggestion> {
    if vs == [] then [] else ScanNode(Scan(vs[..|vs| - 1]), vs[|vs| - 1])
  }

  /** The `marks.forEach` loop over the marks of one text node, updating `found` in place. */
  method ScanTextNode(found0: seq<Suggestion>, marks: seq<string>, text: string, pos: nat) returns (found: seq<Suggestion>)
    ensures found == ScanMarks(found0, marks, text, pos)
  {
    found := found0;
    for k := 0 to |marks|
      invariant found == ScanMarks(found0, marks[..k], text, pos)
    {
      assert marks[..k + 1][..k] == marks[..k];
      var markType := TypeOfName(marks[k]);
      if markType.Some? {
        var t := markType.value;
        var isContinuation := |found| > 0 && found[|found| - 1].kind == t && found[|found| - 1].to == pos;
        if isContinuation {
          var last := found[|found| - 1];
          found := found[..|found| - 1] + [last.(text := last.text + text, to := last.to + |text|)];
        } else {
          found := found + [Suggestion(SuggestionId(t, pos), t, text, pos, pos + |text|)];
        }
      }
    }
    assert marks[..|marks|] == marks;
  }

  /** The review tab's state: the suggestions it lists. */
  class ReviewPanel {
    var suggestions: seq<Suggestion>

    constructor ()
      ensures suggestions == []
    {
      suggestions := [];
    }

    /**
     * `scanSuggestions()`: without an editor nothing changes; otherwise the
     * list becomes the suggestions found in the editor's document, given as
     * the visits its `descendants` traversal makes.
     */
    method ScanSuggestions(doc: Option<seq<Visit>>)
      modifies this
      ensures doc.None? ==> suggestions == old(suggestions)
      ensures doc.Some? ==> suggestions == Scan(doc.value)
    {
      if doc.None? {
        return;
      }
      var vs := doc.value;
      var found: seq<Suggestion> := [];
      for n := 0 to |vs|
        invariant found == Scan(vs[..n])
      {
        assert vs[..n + 1][..n] == vs[..n];
        var v := vs[n];
        if !v.node.TextNode? {
          continue;
        }
        found := ScanTextNode(found, v.node.marks, v.node.text, v.pos);
      }
      assert vs[..|vs|] == vs;
      suggestions := found;
    }
  }

  // ---------------------------------------------------------------------
  // Properties of the scan
  // ---------------------------------------------------------------------

  /** Every suggestion's `to - from` is the length of its text, and its id is its type and start. */
  lemma {:induction false} ScanWellFormed(vs: seq<Visit>)
    ensures forall s :: s in Scan(vs) ==> WellFormed(s)
  {
    if vs != [] {
      ScanWellFormed(vs[..|vs| - 1]);
      var v := vs[|vs| - 1];
      if v.node.TextNode? {
        ScanMarksWellFormed(Scan(vs[..|vs| - 1]), v.node.marks, v.node.text, v.pos);
      }
    }
  }

  lemma {:induction false} ScanMarksWellFormed(found: seq<Suggestion>, marks: seq<string>, text: string, pos: nat)
    requires forall s :: s in found ==> WellFormed(s)
    ensures forall s :: s in ScanMarks(found, marks, text, pos) ==> WellFormed(s)
  {
    if marks != [] {
      var f := ScanMarks(found, marks[..|marks| - 1], text, pos);
      ScanMarksWellFormed(found, marks[..|marks| - 1], text, pos);
      var r := Step(f, marks[|marks| - 1], text, pos);
      match TypeOfName(marks[|marks| - 1])
      case None =>
      case Some(t) =>
        if |f| > 0 && f[|f| - 1].kind == t && f[|f| - 1].to == pos {
          var last := f[|f| - 1];
          assert last in f;
          forall i | 0 <= i < |r| ensures WellFormed(r[i]) {
            if i < |f| - 1 {
              assert r[i] == r[..|f| - 1][i] == f[i];
              assert f[i] in f;
            }
          }
        } else {
          forall i | 0 <= i < |r| ensures WellFormed(r[i]) {
            if i < |f| {
              assert r[i] == f[i];
              assert f[i] in f;
            }
          }
        }
    }
  }

  /** Nodes that are not text, and text nodes without a suggestion mark, contribute nothing. */
  lemma {:induction false} UnmarkedContributesNothing(found: seq<Suggestion>, v: Visit)
    requires v.node.TextNode? ==> forall k :: 0 <= k < |v.node.marks| ==> TypeOfName(v.node.marks[k]).None?
    ensures ScanNode(found, v) == found
  {
    if v.node.TextNode? {
      ScanMarksNoSuggestion(found, v.node.marks, v.node.text, v.pos);
    }
  }

  lemma {:induction false} ScanMarksNoSuggestion(found: seq<Suggestion>, marks: seq<string>, text: string, pos: nat)
    requires forall k :: 0 <= k < |marks| ==> TypeOfName(marks[k]).None?
    ensures ScanMarks(found, marks, text, pos) == found
  {
    if marks != [] {
      ScanMarksNoSuggestion(found, marks[..|marks| - 1], text, pos);
    }
  }

  /** The texts of the suggestions of type `k`, concatenated in list order. */
  function TextOfKind(found: seq<Suggestion>, k: SuggestionType): string {
    if found == [] then ""
    else TextOfKind(found[..|found| - 1], k) + (if found[|found| - 1].kind == k then found[|found| - 1].text else "")
  }

  /** Reference definition: the text of every text node, once per mark named after `k` that it carries, in document order. */
  function MarkedText(vs: seq<Visit>, k: SuggestionType): string {
    if vs == [] then ""
    else
      var v := vs[|vs| - 1];
      MarkedText(vs[..|vs| - 1], k) + (if v.node.TextNode? then TextPerMark(v.node.marks, v.node.text, k) else "")
  }

  function TextPerMark(marks: seq<string>, text: string, k: SuggestionType): string {
    if marks == [] then ""
    else TextPerMark(marks[..|marks| - 1], text, k) + (if marks[|marks| - 1] == Name(k) then text else "")
  }

  lemma TextOfKindAppend(found: seq<Suggestion>, x: Suggestion, k: SuggestionType)
    ensures TextOfKind(found + [x], k) == TextOfKind(found, k) + (if x.kind == k then x.text else "")
  {
    assert (found + [x])[..|found|] == found;
  }

  /** A mark name denotes type `k` exactly when it is `k`'s name. */
  lemma NameDenotes(name: string, k: SuggestionType)
    ensures TypeOfName(name) == Some(k) <==> name == Name(k)
  {
    NamesDistinct();
    assert Name(Insertion)[0] != Name(Deletion)[0];
  }

  lemma RecordText(found: seq<Suggestion>, t: SuggestionType, text: string, pos: nat, k: SuggestionType)
    ensures TextOfKind(Record(found, t, text, pos), k) == TextOfKind(found, k) + (if t == k then text else "")
  {
    var r := Record(found, t, text, pos);
    if |found| > 0 && found[|found| - 1].kind == t && found[|found| - 1].to == pos {
      var init := found[..|found| - 1];
      assert found == init + [found[|found| - 1]];
      assert r == init + [r[|found| - 1]];
      TextOfKindAppend(init, found[|found| - 1], k);
      TextOfKindAppend(init, r[|found| - 1], k);
    } else {
      TextOfKindAppend(found, r[|found|], k);
    }
  }

  lemma StepText(found: seq<Suggestion>, name: string, text: string, pos: nat, k: SuggestionType)
    ensures TextOfKind(Step(found, name, text, pos), k) == TextOfKind(found, k) + (if name == Name(k) then text else "")
  {
    NameDenotes(name, k);
    if TypeOfName(name).Some? {
      RecordText(found, TypeOfName(name).value, text, pos, k);
    }
  }

  lemma {:induction false} ScanMarksText(found: seq<Suggestion>, marks: seq<string>, text: string, pos: nat, k: SuggestionType)
    ensures TextOfKind(ScanMarks(found, marks, text, pos), k) == TextOfKind(found, k) + TextPerMark(marks, text, k)
  {
    if marks != [] {
      ScanMarksText(found, marks[..|marks| - 1], text, pos, k);
      StepText(ScanMarks(found, marks[..|marks| - 1], text, pos), marks[|marks| - 1], text, pos, k);
    }
  }

  /**
   * Coalescing loses and duplicates nothing: the suggestions of each type
   * hold, in order, exactly the text of the nodes marked with that type.
   */
  lemma {:induction false} ScanKeepsMarkedText(vs: seq<Visit>, k: SuggestionType)
    ensures TextOfKind(Scan(vs), k) == MarkedText(vs, k)
  {
    if vs != [] {
      ScanKeepsMarkedText(vs[..|vs| - 1], k);
      var v := vs[|vs| - 1];
      if v.node.TextNode? {
        ScanMarksText(Scan(vs[..|vs| - 1]), v.node.marks, v.node.text, v.pos, k);
      }
    }
  }

  // ---------------------------------------------------------------------
  // Order of the suggestions
  // ---------------------------------------------------------------------

  /**
   * What ProseMirror guarantees of the traversal: text nodes are non-empty,
   * carry each mark at most once, and come in document order without
   * overlapping.
   */
  predicate TraversalOrdered(vs: seq<Visit>) {
    && (forall i :: 0 <= i < |vs| && vs[i].node.TextNode? ==>
          |vs[i].node.text| > 0 && DistinctNames(vs[i].node.marks))
    && (forall i, j :: 0 <= i < j < |vs| && vs[i].node.TextNode? && vs[j].node.TextNode? ==>
          vs[i].pos + |vs[i].node.text| <= vs[j].pos)
  }

  predicate DistinctNames(marks: seq<string>) {
    forall i, j :: 0 <= i < j < |marks| ==> marks[i] != marks[j]
  }

  /**
   * Suggestions inside [0, bound), in non-decreasing order of `from`, where
   * two neighbours of the same type never touch: a gap separates them.
   */
  predicate Ordered(found: seq<Suggestion>, bound: int) {
    && (forall i :: 0 <= i < |found| ==> found[i].from < found[i].to <= bound)
    && (forall i, j :: 0 <= i < j < |found| ==> found[i].from <= found[j].from)
    && (forall i :: 0 <= i < |found| - 1 && found[i].kind == found[i + 1].kind ==> found[i].to < found[i + 1].from)
  }

  /** Where the last text node visited ends (0 before any). */
  function Frontier(vs: seq<Visit>): nat {
    if vs == [] then 0
    else if vs[|vs| - 1].node.TextNode? then vs[|vs| - 1].pos + |vs[|vs| - 1].node.text|
    else Frontier(vs[..|vs| - 1])
  }

  lemma {:induction false} FrontierBefore(vs: seq<Visit>, v: Visit)
    requires TraversalOrdered(vs + [v]) && v.node.TextNode?
    ensures Frontier(vs) <= v.pos
  {
    if vs != [] {
      var init := vs[..|vs| - 1];
      assert (vs + [v])[|vs|] == v;
      if vs[|vs| - 1].node.TextNode? {
        assert (vs + [v])[|vs| - 1] == vs[|vs| - 1];
      } else {
        assert init + [v] == (vs + [v])[..|vs| - 1] + [v];
        assert TraversalOrdered(init + [v]) by {
          var w := vs + [v];
          var u := init + [v];
          forall i | 0 <= i < |u| ensures u[i] == if i < |init| then w[i] else w[|vs|] {
          }
        }
        FrontierBefore(init, v);
      }
    }
  }

  /** The suggestion types among a node's marks. */
  function SeenKinds(marks: seq<string>): set<SuggestionType> {
    (if Name(Insertion) in marks then {Insertion} else {}) + (if Name(Deletion) in marks then {Deletion} else {})
  }

  /** While the marks of the node at `pos` are processed: what is known about `found`. */
  predicate Within(found: seq<Suggestion>, seen: set<SuggestionType>, pos: nat, end: nat) {
    && Ordered(found, end)
    && (forall i :: 0 <= i < |found| ==> found[i].from <= pos)
    && (seen == {} ==> forall i :: 0 <= i < |found| ==> found[i].to <= pos)
    && (seen != {} ==> |found| > 0 && found[|found| - 1].kind in seen && found[|found| - 1].to == end)
  }

  /** Extending the last suggestion, which ends where the node starts: no mark of the node was recorded yet. */
  lemma ExtendWithin(found: seq<Suggestion>, seen: set<SuggestionType>, t: SuggestionType, text: string, pos: nat)
    requires |text| > 0 && Within(found, seen, pos, pos + |text|)
    requires |found| > 0 && found[|found| - 1].kind == t && found[|found| - 1].to == pos
    ensures Within(Record(found, t, text, pos), seen + {t}, pos, pos + |text|)
  {
    assert seen == {};
    var r := Record(found, t, text, pos);
    var n := |found|;
    assert |r| == n && r[n - 1].from == found[n - 1].from && r[n - 1].to == pos + |text| && r[n - 1].kind == t;
    forall i | 0 <= i < n - 1 ensures r[i] == found[i] {
      assert r[i] == r[..n - 1][i];
    }
  }

  /** Appending a suggestion that starts after all others and does not touch a last one of its type. */
  lemma OrderedSnoc(found: seq<Suggestion>, x: Suggestion, bound: int)
    requires Ordered(found, bound) && x.from < x.to <= bound
    requires forall i :: 0 <= i < |found| ==> found[i].from <= x.from
    requires |found| > 0 && found[|found| - 1].kind == x.kind ==> found[|found| - 1].to < x.from
    ensures Ordered(found + [x], bound)
  {
    var r := found + [x];
    assert forall i :: 0 <= i < |found| ==> r[i] == found[i];
    assert r[|found|] == x;
  }

  /** Pushing a new suggestion `x` for the node at `pos`. */
  lemma PushWithin(found: seq<Suggestion>, seen: set<SuggestionType>, x: Suggestion, pos: nat, end: nat)
    requires Within(found, seen, pos, end) && x.from == pos < x.to == end && x.kind !in seen
    requires !(|found| > 0 && found[|found| - 1].kind == x.kind && found[|found| - 1].to == pos)
    ensures Within(found + [x], seen + {x.kind}, pos, end)
  {
    var n := |found|;
    if n > 0 && found[n - 1].kind == x.kind {
      assert found[n - 1].to < pos;
    }
    OrderedSnoc(found, x, end);
    var r := found + [x];
    assert forall i :: 0 <= i < n ==> r[i] == found[i];
    assert r[n] == x;
  }

  /** Recording a node's text under a new type `t` pushes a suggestion for it. */
  lemma RecordPushes(found: seq<Suggestion>, seen: set<SuggestionType>, t: SuggestionType, text: string, pos: nat)
    requires |text| > 0 && Within(found, seen, pos, pos + |text|) && t !in seen
    requires !(|found| > 0 && found[|found| - 1].kind == t && found[|found| - 1].to == pos)
    ensures Within(Record(found, t, text, pos), seen + {t}, pos, pos + |text|)
  {
    var x := Suggestion(SuggestionId(t, pos), t, text, pos, pos + |text|);
    PushWithin(found, seen, x, pos, pos + |text|);
  }

  lemma RecordWithin(found: seq<Suggestion>, seen: set<SuggestionType>, t: SuggestionType, text: string, pos: nat)
    requires |text| > 0 && Within(found, seen, pos, pos + |text|) && t !in seen
    ensures Within(Record(found, t, text, pos), seen + {t}, pos, pos + |text|)
  {
    if |found| > 0 && found[|found| - 1].kind == t && found[|found| - 1].to == pos {
      ExtendWithin(found, seen, t, text, pos);
    } else {
      RecordPushes(found, seen, t, text, pos);
    }
  }

  /** The last of distinct mark names adds its type, if it names one, as a type not seen before. */
  lemma SeenKindsStep(marks: seq<string>)
    requires marks != [] && DistinctNames(marks)
    ensures var init, m := marks[..|marks| - 1], marks[|marks| - 1];
      && DistinctNames(init)
      && (TypeOfName(m).None? ==> SeenKinds(marks) == SeenKinds(init))
      && (TypeOfName(m).Some? ==>
            TypeOfName(m).value !in SeenKinds(init) && SeenKinds(marks) == SeenKinds(init) + {TypeOfName(m).value})
  {
    var init := marks[..|marks| - 1];
    var m := marks[|marks| - 1];
    assert marks == init + [m];
    NamesDistinct();
    assert Name(Insertion)[0] != Name(Deletion)[0];
    if TypeOfName(m).Some? {
      assert m !in init;
    }
  }

  lemma {:induction false} ScanMarksWithin(found: seq<Suggestion>, marks: seq<string>, text: string, pos: nat, bound: int)
    requires Ordered(found, bound) && bound <= pos && |text| > 0 && DistinctNames(marks)
    ensures Within(ScanMarks(found, marks, text, pos), SeenKinds(marks), pos, pos + |text|)
  {
    if marks != [] {
      var init := marks[..|marks| - 1];
      var m := marks[|marks| - 1];
      SeenKindsStep(marks);
      ScanMarksWithin(found, init, text, pos, bound);
      var f := ScanMarks(found, init, text, pos);
      if TypeOfName(m).Some? {
        RecordWithin(f, SeenKinds(init), TypeOfName(m).value, text, pos);
      }
    }
  }

  lemma {:induction false} ScanOrderedUpTo(vs: seq<Visit>)
    requires TraversalOrdered(vs)
    ensures Ordered(Scan(vs), Frontier(vs))
  {
    if vs != [] {
      var init := vs[..|vs| - 1];
      var v := vs[|vs| - 1];
      assert vs == init + [v];
      assert TraversalOrdered(init);
      ScanOrderedUpTo(init);
      if v.node.TextNode? {
        FrontierBefore(init, v);
        assert |v.node.text| > 0 && DistinctNames(v.node.marks);
        ScanMarksWithin(Scan(init), v.node.marks, v.node.text, v.pos, Frontier(init));
      }
    }
  }

  /**
   * The suggestions come out in document order (non-decreasing `from`), and
   * two consecutive suggestions of the same type never touch: a run of one
   * mark is never split.
   */
  lemma ScanOrdered(vs: seq<Visit>)
    requires TraversalOrdered(vs)
    ensures var found := Scan(vs);
      && (forall i, j :: 0 <= i < j < |found| ==> found[i].from <= found[j].from)
      && (forall i :: 0 <= i < |found| - 1 && found[i].kind == found[i + 1].kind ==> found[i].to < found[i + 1].from)
  {
    ScanOrderedUpTo(vs);
  }

  // ---------------------------------------------------------------------
  // Coalescing
  // ---------------------------------------------------------------------

  /** Text nodes that each carry only mark `t` and follow one another without a gap. */
  predicate Chain(vs: seq<Visit>, t: SuggestionType) {
    && |vs| > 0
    && vs[|vs| - 1].node.TextNode? && vs[|vs| - 1].node.marks == [Name(t)]
    && (|vs| > 1 ==>
          && Chain(vs[..|vs| - 1], t)
          && vs[|vs| - 2].pos + |vs[|vs| - 2].node.text| == vs[|vs| - 1].pos)
  }

  /** The texts of the text nodes visited, concatenated. */
  function ChainText(vs: seq<Visit>): string {
    if vs == [] then ""
    else ChainText(vs[..|vs| - 1]) + (if vs[|vs| - 1].node.TextNode? then vs[|vs| - 1].node.text else "")
  }

  /** A text node with the single mark `t` is recorded as type `t`. */
  lemma SingleMarkRecords(found: seq<Suggestion>, v: Visit, t: SuggestionType)
    requires v.node.TextNode? && v.node.marks == [Name(t)]
    ensures ScanNode(found, v) == Record(found, t, v.node.text, v.pos)
  {
    NamesDistinct();
    assert TypeOfName(Name(t)) == Some(t);
    var marks := v.node.marks;
    assert marks[..|marks| - 1] == [];
    assert ScanMarks(found, marks, v.node.text, v.pos) == Step(found, Name(t), v.node.text, v.pos);
  }

  /** Recording two touching pieces of text of the same type, one after the other, is recording their concatenation. */
  lemma RecordTwice(found: seq<Suggestion>, t: SuggestionType, a: string, b: string, pos: nat)
    ensures Record(Record(found, t, a, pos), t, b, pos + |a|) == Record(found, t, a + b, pos)
  {
    var n := |found|;
    if n > 0 && found[n - 1].kind == t && found[n - 1].to == pos {
      RecordTwiceExtends(found, t, a, b, pos);
    } else {
      RecordTwicePushes(found, t, a, b, pos);
    }
  }

  lemma RecordTwiceExtends(found: seq<Suggestion>, t: SuggestionType, a: string, b: string, pos: nat)
    requires |found| > 0 && found[|found| - 1].kind == t && found[|found| - 1].to == pos
    ensures Record(Record(found, t, a, pos), t, b, pos + |a|) == Record(found, t, a + b, pos)
  {
    var n := |found|;
    var init := found[..n - 1];
    var last := found[n - 1];
    var mid := last.(text := last.text + a, to := last.to + |a|);
    var r1 := init + [mid];
    assert Record(found, t, a, pos) == r1;
    assert r1[..n - 1] == init && r1[n - 1] == mid;
    assert Record(r1, t, b, pos + |a|) == init + [mid.(text := mid.text + b, to := mid.to + |b|)];
    assert last.text + a + b == last.text + (a + b);
  }

  lemma RecordTwicePushes(found: seq<Suggestion>, t: SuggestionType, a: string, b: string, pos: nat)
    requires !(|found| > 0 && found[|found| - 1].kind == t && found[|found| - 1].to == pos)
    ensures Record(Record(found, t, a, pos), t, b, pos + |a|) == Record(found, t, a + b, pos)
  {
    var n := |found|;
    var x := Suggestion(SuggestionId(t, pos), t, a, pos, pos + |a|);
    var r1 := found + [x];
    assert Record(found, t, a, pos) == r1;
    assert r1[..n] == found && r1[n] == x;
    assert Record(r1, t, b, pos + |a|) == found + [x.(text := a + b, to := pos + |a| + |b|)];
  }

  /**
   * A chain of contiguous nodes with the same single mark, wherever it comes
   * in the traversal, is recorded as one text node holding all their text
   * would be: it extends the suggestion before it when that one has the same
   * type and ends where the chain starts, and otherwise adds one suggestion.
   */
  lemma {:induction false} ChainCoalesces(pre: seq<Visit>, vs: seq<Visit>, t: SuggestionType)
    requires Chain(vs, t)
    ensures Scan(pre + vs) == Record(Scan(pre), t, ChainText(vs), vs[0].pos)
    ensures vs[0].pos + |ChainText(vs)| == vs[|vs| - 1].pos + |vs[|vs| - 1].node.text|
  {
    var init := vs[..|vs| - 1];
    var v := vs[|vs| - 1];
    var all := pre + vs;
    assert all[..|all| - 1] == pre + init;
    assert all[|all| - 1] == v;
    SingleMarkRecords(Scan(pre + init), v, t);
    if init == [] {
      assert pre + init == pre && vs[0] == v;
      assert ChainText(vs) == "" + v.node.text == v.node.text;
    } else {
      assert Chain(init, t);
      ChainCoalesces(pre, init, t);
      assert init[0] == vs[0] && init[|init| - 1] == vs[|vs| - 2];
      assert ChainText(vs) == ChainText(init) + v.node.text;
      RecordTwice(Scan(pre), t, ChainText(init), v.node.text, vs[0].pos);
    }
  }

  /** A traversal that is a single chain yields one suggestion holding all its text, from the first node's start. */
  lemma ChainAlone(vs: seq<Visit>, t: SuggestionType)
    requires Chain(vs, t)
    ensures var p := vs[0].pos; var text := ChainText(vs);
      Scan(vs) == [Suggestion(SuggestionId(t, p), t, text, p, p + |text|)]
  {
    ChainCoalesces([], vs, t);
    assert [] + vs == vs;
  }
}
