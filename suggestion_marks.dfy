/**
 * The two suggestion marks, `insertion` and `deletion`, as the editor
 * extension defines them: their names, the CSS class that identifies each in
 * HTML, the parse rule that recognises a `span` carrying that class, and the
 * DOM output spec each renders to.
 */
module SuggestionMarks {
  import opened Wrappers

  datatype SuggestionType = Insertion | Deletion

  /** The mark's registered name. */
  function Name(t: SuggestionType): string {
    match t
    case Insertion => "insertion"
    case Deletion => "deletion"
  }

  /** The CSS class a span carries when it holds text with this mark. */
  function ClassName(t: SuggestionType): string {
    match t
    case Insertion => "suggestion-insertion"
    case Deletion => "suggestion-deletion"
  }

  /** The suggestion type a mark name stands for, if it names one. */
  function TypeOfName(name: string): (r: Option<SuggestionType>)
    ensures r.Some? ==> Name(r.value) == name
    ensures r.None? ==> name != Name(Insertion) && name != Name(Deletion)
  {
    if name == "insertion" then Some(Insertion)
    else if name == "deletion" then Some(Deletion)
    else None
  }

  /** The two marks have different names and different classes. */
  lemma NamesDistinct()
    ensures Name(Insertion) != Name(Deletion)
    ensures ClassName(Insertion) != ClassName(Deletion)
    ensures forall t :: TypeOfName(Name(t)) == Some(t)
  {
    assert Name(Insertion)[0] != Name(Deletion)[0];
    assert ClassName(Insertion)[11] != ClassName(Deletion)[11];
  }

  /** What ProseMirror hands to a parse rule's `getAttrs`: a string (for style rules) or a DOM element. */
  datatype ParseInput = StringInput(s: string) | ElementInput(tag: string, classList: seq<string>)

  /** What `getAttrs` returns: `false` (the rule does not match) or `null` (it matches, with no attributes). */
  datatype GetAttrsResult = NoMatch | MatchWithoutAttrs

  /** `getAttrs` of the mark's parse rule. */
  function GetAttrs(t: SuggestionType, input: ParseInput): (r: GetAttrsResult)
    ensures r == MatchWithoutAttrs <==> input.ElementInput? && ClassName(t) in input.classList
  {
    match input
    case StringInput(_) => NoMatch
    case ElementInput(_, classList) => if ClassName(t) in classList then MatchWithoutAttrs else NoMatch
  }

  /** The `span` rule of mark `t` applies: the element is a `span` and `getAttrs` does not return `false`. */
  predicate RuleMatches(t: SuggestionType, input: ParseInput) {
    input.ElementInput? && input.tag == "span" && GetAttrs(t, input) == MatchWithoutAttrs
  }

  /**
   * The order in which the parser tries the two `span` rules: both have the
   * default priority, so the order the extensions are registered in decides,
   * and the editor registers `Insertion` before `Deletion`.
   */
  const RuleOrder: seq<SuggestionType> := [Insertion, Deletion]

  /**
   * The index of the rule the parser applies: the first that matches. Neither
   * rule is declared non-consuming, so no rule after it is tried.
   */
  function FirstMatch(rules: seq<SuggestionType>, input: ParseInput): (r: Option<nat>)
    ensures r.Some? ==> r.value < |rules| && RuleMatches(rules[r.value], input)
    ensures r.Some? ==> forall j :: 0 <= j < r.value ==> !RuleMatches(rules[j], input)
    ensures r.None? ==> forall j :: 0 <= j < |rules| ==> !RuleMatches(rules[j], input)
  {
    if rules == [] then None
    else if RuleMatches(rules[0], input) then Some(0)
    else
      match FirstMatch(rules[1..], input)
      case None => None
      case Some(k) => Some(k + 1)
  }

  /**
   * The suggestion mark a parsed node gets: that of the first matching rule,
   * so the insertion mark wins when the element carries both classes.
   */
  function ParsedMarks(input: ParseInput): (r: set<SuggestionType>)
    ensures Insertion in r <==> input.ElementInput? && input.tag == "span" && ClassName(Insertion) in input.classList
    ensures Deletion in r <==>
      input.ElementInput? && input.tag == "span" && ClassName(Deletion) in input.classList && ClassName(Insertion) !in input.classList
  {
    var m := FirstMatch(RuleOrder, input);
    assert RuleOrder[0] == Insertion && RuleOrder[1] == Deletion;
    if m.Some? then {RuleOrder[m.value]} else {}
  }

  /** A DOM output spec `[tag, {class: ...}, hole]`, with the class attribute as its list of classes. */
  datatype DomOutputSpec = DomOutputSpec(tag: string, classList: seq<string>, hole: nat)

  /**
   * `renderHTML`: a `span` whose classes are the mark's HTML attributes'
   * classes merged with the mark's own class (added when absent), with the
   * content hole `0`.
   */
  function RenderHtml(t: SuggestionType, attributeClasses: seq<string>): (r: DomOutputSpec)
    ensures r.tag == "span" && r.hole == 0
    ensures ClassName(t) in r.classList
    ensures forall c :: c in r.classList <==> c in attributeClasses || c == ClassName(t)
  {
    DomOutputSpec("span", attributeClasses + (if ClassName(t) in attributeClasses then [] else [ClassName(t)]), 0)
  }

  /**
   * Rendering a mark and parsing the element back gives the same mark, unless
   * the attributes smuggle in the insertion class, which then wins; with no
   * suggestion class among the attributes, exactly that mark.
   */
  lemma RenderThenParse(t: SuggestionType, attributeClasses: seq<string>)
    ensures var spec := RenderHtml(t, attributeClasses);
      ParsedMarks(ElementInput(spec.tag, spec.classList)) == if ClassName(Insertion) in attributeClasses then {Insertion} else {t}
    ensures ClassName(Insertion) !in attributeClasses && ClassName(Deletion) !in attributeClasses ==>
      var spec := RenderHtml(t, attributeClasses);
      ParsedMarks(ElementInput(spec.tag, spec.classList)) == {t}
  {
    NamesDistinct();
    var spec := RenderHtml(t, attributeClasses);
    var parsed := ParsedMarks(ElementInput(spec.tag, spec.classList));
    forall u ensures u in parsed <==> u == (if ClassName(Insertion) in attributeClasses then Insertion else t) {
      if u != t {
        assert ClassName(u) != ClassName(t);
      }
    }
  }

  /** An element carrying both classes is parsed by the insertion rule alone: the first match consumes it. */
  lemma BothClassesParseAsInsertion(classList: seq<string>)
    requires ClassName(Insertion) in classList && ClassName(Deletion) in classList
    ensures ParsedMarks(ElementInput("span", classList)) == {Insertion}
  {
    var parsed := ParsedMarks(ElementInput("span", classList));
    forall u ensures u in parsed <==> u == Insertion {
      assert u == Insertion || u == Deletion;
    }
  }

  /** The opening tag a suggestion span is written with in HTML. */
  function SpanOpen(t: SuggestionType): string {
    "<span class=\"" + ClassName(t) + "\">"
  }

  const SpanClose: string := "</span>"

  /** Serialising a DOM output spec with no content: its opening tag. */
  function SerializeOpen(spec: DomOutputSpec): string {
    "<" + spec.tag + " class=\"" + JoinClasses(spec.classList) + "\">"
  }

  function JoinClasses(classList: seq<string>): string {
    if classList == [] then ""
    else if |classList| == 1 then classList[0]
    else JoinClasses(classList[..|classList| - 1]) + " " + classList[|classList| - 1]
  }

  /** A mark rendered with no other attributes serialises to exactly the opening tag the HTML rewrites look for. */
  lemma RenderedOpenTag(t: SuggestionType)
    ensures SerializeOpen(RenderHtml(t, [])) == SpanOpen(t)
  {
    var c := ClassName(t);
    assert RenderHtml(t, []).classList == [c];
    assert JoinClasses([c]) == c;
    calc {
      SerializeOpen(RenderHtml(t, []));
      "<" + "span" + " class=\"" + c + "\">";
      { assert "<" + "span" + " class=\"" == "<span class=\""; }
      "<span class=\"" + c + "\">";
    }
  }

  /** Neither opening tag is a prefix of the other (they part at the class name's first letter). */
  lemma OpenTagsDiffer()
    ensures !(SpanOpen(Insertion) <= SpanOpen(Deletion))
    ensures !(SpanOpen(Deletion) <= SpanOpen(Insertion))
    ensures SpanOpen(Insertion)[24] != SpanOpen(Deletion)[24]
  {
    assert SpanOpen(Insertion)[24] == 'i';
    assert SpanOpen(Deletion)[24] == 'd';
  }
}
