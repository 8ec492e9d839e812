/**
 * The Markdown export: a walk over the parsed HTML tree that keeps a stack
 * of the enclosing list kinds, followed by the white-space clean-up.
 */
module Markdown {
  import opened Wrappers
  import opened JsStrings
  import opened Export

  /**
   * A node of the parsed document: a text node, an element with its
   * lower-cased tag name, its `href` attribute and its children, or any
   * other kind of node (comments and the like).
   */
  datatype DomNode =
    | Text(content: string)
    | Element(tag: string, href: Option<string>, children: seq<DomNode>)
    | Other

  /** The entries of `listDepthStack`. */
  datatype ListKind = Ul | Ol

  /** `textContent`: the text of all descendant text nodes, in order. */
  function TextContent(n: DomNode): string
    decreases n
  {
    match n
    case Text(s) => s
    case Other => ""
    case Element(_, _, cs) => TextContents(cs)
  }

  function TextContents(cs: seq<DomNode>): string
    decreases cs
  {
    if cs == [] then "" else TextContents(cs[..|cs| - 1]) + TextContent(cs[|cs| - 1])
  }

  // ---------------------------------------------------------------------
  // Lines
  // ---------------------------------------------------------------------

  /** `s.split(sep)`: the pieces between the separators, at least one. */
  function Split(s: string, sep: char): (r: seq<string>)
    ensures |r| >= 1
    ensures forall i :: 0 <= i < |r| ==> sep !in r[i]
    decreases |s|
  {
    if s == [] then [""]
    else if s[0] == sep then [""] + Split(s[1..], sep)
    else
      var t := Split(s[1..], sep);
      [[s[0]] + t[0]] + t[1..]
  }

  /** `pieces.join(sep)`. */
  function Join(pieces: seq<string>, sep: char): string
    decreases |pieces|
  {
    if pieces == [] then ""
    else if |pieces| == 1 then pieces[0]
    else pieces[0] + [sep] + Join(pieces[1..], sep)
  }

  /** Joining the pieces of a split gives back the string. */
  lemma {:induction false} JoinSplit(s: string, sep: char)
    ensures Join(Split(s, sep), sep) == s
    decreases |s|
  {
    if s != [] {
      JoinSplit(s[1..], sep);
      var t := Split(s[1..], sep);
      if s[0] != sep {
        var r := Split(s, sep);
        assert r[1..] == t[1..];
        if |t| > 1 {
          assert Join(t, sep) == t[0] + [sep] + Join(t[1..], sep);
        }
      }
    }
  }

  lemma {:induction false} SplitPrefix(p: string, rest: string, sep: char)
    requires sep !in p
    ensures Split(p + [sep] + rest, sep) == [p] + Split(rest, sep)
    ensures Split(p, sep) == [p]
    decreases |p|
  {
    if p != [] {
      SplitPrefix(p[1..], rest, sep);
      assert (p + [sep] + rest)[1..] == p[1..] + [sep] + rest;
      assert [p[0]] + p[1..] == p;
    }
  }

  /** Splitting a join of separator-free pieces gives back the pieces. */
  lemma {:induction false} SplitJoin(pieces: seq<string>, sep: char)
    requires |pieces| >= 1 && forall i :: 0 <= i < |pieces| ==> sep !in pieces[i]
    ensures Split(Join(pieces, sep), sep) == pieces
    decreases |pieces|
  {
    SplitPrefix(pieces[0], [], sep);
    if |pieces| > 1 {
      SplitJoin(pieces[1..], sep);
      SplitPrefix(pieces[0], Join(pieces[1..], sep), sep);
    }
  }

  /** Each line prefixed with `> `. */
  function QuoteLines(lines: seq<string>): (r: seq<string>)
    ensures |r| == |lines|
    ensures forall i :: 0 <= i < |r| ==> r[i] == "> " + lines[i]
  {
    if lines == [] then [] else QuoteLines(lines[..|lines| - 1]) + ["> " + lines[|lines| - 1]]
  }

  /** The `blockquote` rule: every line of the trimmed content behind `> `. */
  function Blockquote(children: string): string {
    Join(QuoteLines(Split(Trim(children), '\n')), '\n') + "\n\n"
  }

  /**
   * The lines of a quote are exactly the lines of the trimmed content, each
   * behind `> `, so stripping the prefixes gives back the content.
   */
  lemma BlockquoteLines(children: string)
    ensures var body := Blockquote(children)[..|Blockquote(children)| - 2];
      var lines := Split(body, '\n');
      && |lines| == |Split(Trim(children), '\n')|
      && (forall i :: 0 <= i < |lines| ==> lines[i] == "> " + Split(Trim(children), '\n')[i])
      && Join(Split(Trim(children), '\n'), '\n') == Trim(children)
  {
    var q := QuoteLines(Split(Trim(children), '\n'));
    assert Blockquote(children)[..|Blockquote(children)| - 2] == Join(q, '\n');
    SplitJoin(q, '\n');
    JoinSplit(Trim(children), '\n');
  }

  // ---------------------------------------------------------------------
  // Lists
  // ---------------------------------------------------------------------

  predicate IsListItem(n: DomNode) {
    n.Element? && n.tag == "li"
  }

  /** `'  '.repeat(depth) + marker + content`, the marker counting from 1 for `ol`. */
  function ListLine(depth: nat, ordered: bool, idx: nat, content: string): string {
    Repeat("  ", depth) + (if ordered then DecimalString(idx + 1) + ". " else "- ") + content
  }

  function ListLines(items: seq<string>, depth: nat, ordered: bool): (r: seq<string>)
    ensures |r| == |items|
    ensures forall i :: 0 <= i < |r| ==> r[i] == ListLine(depth, ordered, i, items[i])
  {
    if items == [] then []
    else ListLines(items[..|items| - 1], depth, ordered) + [ListLine(depth, ordered, |items| - 1, items[|items| - 1])]
  }

  /** The list rule, given the item contents. */
  function ListMd(items: seq<string>, depth: nat, ordered: bool): string {
    Join(ListLines(items, depth, ordered), '\n') + "\n\n"
  }

  /**
   * How a line of a list begins: `2 * depth` spaces, then for `ol` the
   * decimal number `idx + 1` and `. `, for `ul` the marker `- `.
   */
  lemma ListLineShape(depth: nat, ordered: bool, idx: nat, content: string)
    ensures var line := ListLine(depth, ordered, idx, content);
      && |line| >= 2 * depth
      && (forall i :: 0 <= i < 2 * depth ==> line[i] == ' ')
      && (ordered ==> exists num ::
            && num != [] && (forall i :: 0 <= i < |num| ==> IsDigit(num[i])) && DecimalValue(num) == idx + 1
            && line == Repeat("  ", depth) + num + ". " + content)
      && (!ordered ==> line[2 * depth..] == "- " + content)
  {
    if ordered {
      var num := DecimalString(idx + 1);
      assert ListLine(depth, ordered, idx, content) == Repeat("  ", depth) + (num + ". ") + content;
      NumberedLine(depth, num, content);
    } else {
      assert ListLine(depth, ordered, idx, content) == Repeat("  ", depth) + ("- " + content);
      IndentedLine(depth, "- " + content);
    }
  }

  /** An indented line that starts with the numeral `num`. */
  lemma NumberedLine(depth: nat, num: string, content: string)
    ensures var line := Repeat("  ", depth) + (num + ". ") + content;
      && |line| >= 2 * depth
      && (forall i :: 0 <= i < 2 * depth ==> line[i] == ' ')
      && line == Repeat("  ", depth) + num + ". " + content
  {
    var indent := Repeat("  ", depth);
    assert indent + (num + ". ") + content == indent + ((num + ". ") + content);
    IndentedLine(depth, (num + ". ") + content);
  }

  /** Two spaces per level, then the rest of the line. */
  lemma IndentedLine(depth: nat, rest: string)
    ensures var line := Repeat("  ", depth) + rest;
      && |line| >= 2 * depth
      && (forall i :: 0 <= i < 2 * depth ==> line[i] == ' ')
      && line[2 * depth..] == rest
  {
    RepeatTwoSpaces(depth);
    var indent := Repeat("  ", depth);
    var line := indent + rest;
    forall i | 0 <= i < 2 * depth ensures line[i] == ' ' {
      assert line[i] == indent[i];
    }
  }

  // ---------------------------------------------------------------------
  // The tree walk
  // ---------------------------------------------------------------------

  /** What `nodeToMarkdown` returns for a node, `depth` being the length of `listDepthStack`. */
  function NodeMd(n: DomNode, depth: nat, parentTag: string): string
    decreases n
  {
    match n
    case Text(s) => s
    case Other => ""
    case Element(tag, href, cs) =>
      if tag == "ul" || tag == "ol" then ListMd(ItemContents(cs, depth + 1, tag), depth, tag == "ol")
      else ElementMd(tag, href, ChildrenMd(cs, depth, tag), TextContents(cs), parentTag)
  }

  /** The children converted and concatenated in order. */
  function ChildrenMd(cs: seq<DomNode>, depth: nat, parentTag: string): string
    decreases cs
  {
    if cs == [] then "" else ChildrenMd(cs[..|cs| - 1], depth, parentTag) + NodeMd(cs[|cs| - 1], depth, parentTag)
  }

  /** The trimmed conversions of the `li` children, dropping the empty ones. */
  function ItemContents(cs: seq<DomNode>, depth: nat, listTag: string): (r: seq<string>)
    ensures |r| <= |cs|
    decreases cs
  {
    if cs == [] then []
    else
      var init := ItemContents(cs[..|cs| - 1], depth, listTag);
      var last := cs[|cs| - 1];
      if IsListItem(last) && Trim(NodeMd(last, depth, listTag)) != "" then init + [Trim(NodeMd(last, depth, listTag))]
      else init
  }

  /** The rule for every tag except the list tags. */
  function ElementMd(tag: string, href: Option<string>, children: string, text: string, parentTag: string): string {
    if tag == "h1" then "# " + Trim(children) + "\n\n"
    else if tag == "h2" then "## " + Trim(children) + "\n\n"
    else if tag == "h3" then "### " + Trim(children) + "\n\n"
    else if tag == "p" then Trim(children) + "\n\n"
    else if tag == "strong" || tag == "b" then "**" + children + "**"
    else if tag == "em" || tag == "i" then "_" + children + "_"
    else if tag == "s" || tag == "strike" || tag == "del" then "~~" + children + "~~"
    else if tag == "code" then (if parentTag == "pre" then text else "`" + text + "`")
    else if tag == "pre" then "```\n" + DropFinalNewline(text) + "\n```\n\n"
    else if tag == "blockquote" then Blockquote(children)
    else if tag == "br" then "  \n"
    else if tag == "a" then LinkMd(children, href)
    else if tag == "li" then Trim(children)
    else children
  }

  /** `s.replace(/\n$/, '')`. */
  function DropFinalNewline(s: string): string {
    if s != [] && s[|s| - 1] == '\n' then s[..|s| - 1] else s
  }

  /** The `a` rule; a missing `href` reads as `""`. */
  function LinkMd(children: string, href: Option<string>): string {
    var h := if href.Some? then href.value else "";
    var text := if Trim(children) != "" then Trim(children) else h;
    if h != "" then "[" + text + "](" + h + ")" else text
  }

  /**
   * A link without `href` is its trimmed label; one with an `href` is
   * `[label](href)` with a label that is never empty, the `href` standing in
   * for empty content.
   */
  lemma LinkRule(href: Option<string>, cs: seq<DomNode>, depth: nat, parentTag: string)
    ensures var md := NodeMd(Element("a", href, cs), depth, parentTag);
      var content := Trim(ChildrenMd(cs, depth, "a"));
      && (href.None? || href.value == "" ==> md == content)
      && (href.Some? && href.value != "" ==>
            exists l :: l != [] && (l == content || (content == [] && l == href.value)) && md == "[" + l + "](" + href.value + ")")
  {
    var children := ChildrenMd(cs, depth, "a");
    assert NodeMd(Element("a", href, cs), depth, parentTag) == ElementMd("a", href, children, TextContents(cs), parentTag);
    AnchorMd(href, children, TextContents(cs), parentTag);
  }

  /** The anchor rule on the converted children. */
  lemma AnchorMd(href: Option<string>, children: string, text: string, parentTag: string)
    ensures var md := ElementMd("a", href, children, text, parentTag);
      var content := Trim(children);
      && (href.None? || href.value == "" ==> md == content)
      && (href.Some? && href.value != "" ==>
            exists l :: l != [] && (l == content || (content == [] && l == href.value)) && md == "[" + l + "](" + href.value + ")")
  {
    var content := Trim(children);
    if href.Some? && href.value != "" {
      var l := if content != "" then content else href.value;
      assert ElementMd("a", href, children, text, parentTag) == "[" + l + "](" + href.value + ")";
    }
  }

  /** The trimmed conversion of every child. */
  function Conversions(cs: seq<DomNode>, depth: nat, listTag: string): (r: seq<string>)
    ensures |r| == |cs|
    decreases cs
  {
    if cs == [] then [] else Conversions(cs[..|cs| - 1], depth, listTag) + [Trim(NodeMd(cs[|cs| - 1], depth, listTag))]
  }

  /** For every child: it is an `li` element whose trimmed conversion is not empty. */
  function KeptFlags(cs: seq<DomNode>, depth: nat, listTag: string): (r: seq<bool>)
    ensures |r| == |cs|
    decreases cs
  {
    if cs == [] then []
    else
      var last := cs[|cs| - 1];
      KeptFlags(cs[..|cs| - 1], depth, listTag) + [IsListItem(last) && Trim(NodeMd(last, depth, listTag)) != ""]
  }

  /** Entry `j` of the conversions is child `j` converted and trimmed; its flag says whether it is a non-empty `li` item. */
  lemma {:induction false} ConversionAt(cs: seq<DomNode>, depth: nat, listTag: string, j: nat)
    requires j < |cs|
    ensures Conversions(cs, depth, listTag)[j] == Trim(NodeMd(cs[j], depth, listTag))
    ensures KeptFlags(cs, depth, listTag)[j] == (IsListItem(cs[j]) && Conversions(cs, depth, listTag)[j] != "")
    decreases |cs|
  {
    var n := |cs|;
    if j == n - 1 {
      LastFlag(cs, depth, listTag);
    } else {
      var init := cs[..n - 1];
      ConversionAt(init, depth, listTag, j);
      FlagsPrefix(cs, depth, listTag);
      SameEntry(Conversions(cs, depth, listTag), Conversions(init, depth, listTag), j);
      SameEntry(KeptFlags(cs, depth, listTag), KeptFlags(init, depth, listTag), j);
      SameEntry(cs, init, j);
    }
  }

  /** An entry below the length of a prefix is the prefix's entry. */
  lemma SameEntry<T>(xs: seq<T>, ys: seq<T>, j: nat)
    requires j < |ys| <= |xs| && ys == xs[..|ys|]
    ensures xs[j] == ys[j]
  {
  }

  /** The indices whose flag is set, in increasing order. */
  function TrueIndices(keep: seq<bool>): seq<nat> {
    if keep == [] then [] else TrueIndices(keep[..|keep| - 1]) + (if keep[|keep| - 1] then [|keep| - 1] else [])
  }

  /** The entries of `conv` whose flag is set, in order. */
  function Pick(keep: seq<bool>, conv: seq<string>): seq<string>
    requires |keep| == |conv|
  {
    if keep == [] then [] else Pick(keep[..|keep| - 1], conv[..|conv| - 1]) + (if keep[|keep| - 1] then [conv[|conv| - 1]] else [])
  }

  /** The indices of the kept `li` children, in increasing order. */
  function ItemIndices(cs: seq<DomNode>, depth: nat, listTag: string): seq<nat> {
    TrueIndices(KeptFlags(cs, depth, listTag))
  }

  /**
   * `items` are the entries of `conv` at the indices `js`, in that order, and
   * `js` lists, in increasing order, exactly the indices whose flag in `keep`
   * is set.
   */
  predicate Selects(keep: seq<bool>, conv: seq<string>, items: seq<string>, js: seq<nat>)
    requires |keep| == |conv|
  {
    && |js| == |items|
    && (forall k :: 0 <= k < |js| ==> js[k] < |conv| && items[k] == conv[js[k]])
    && (forall k, l :: 0 <= k < l < |js| ==> js[k] < js[l])
    && (forall j :: 0 <= j < |conv| ==> (j in js <==> keep[j]))
  }

  /** The items of a list are the trimmed conversions of its kept `li` children `js`, in document order. */
  predicate SelectsKeptItems(cs: seq<DomNode>, depth: nat, listTag: string, items: seq<string>, js: seq<nat>) {
    Selects(KeptFlags(cs, depth, listTag), Conversions(cs, depth, listTag), items, js)
  }

  /**
   * A list is one line per non-empty `li` child, in order: the `i`-th line
   * is indented by two spaces per enclosing list and numbered `i + 1` in an
   * `ol`; other children are skipped.
   */
  lemma ListRule(tag: string, cs: seq<DomNode>, depth: nat, parentTag: string)
    requires tag == "ul" || tag == "ol"
    ensures var items := ItemContents(cs, depth + 1, tag);
      && NodeMd(Element(tag, None, cs), depth, parentTag) == Join(ListLines(items, depth, tag == "ol"), '\n') + "\n\n"
      && SelectsKeptItems(cs, depth + 1, tag, items, ItemIndices(cs, depth + 1, tag))
  {
    ItemContentsSelected(cs, depth + 1, tag);
  }

  /** The item contents are the kept `li` children's trimmed conversions, each once and in document order. */
  lemma ItemContentsSelected(cs: seq<DomNode>, depth: nat, listTag: string)
    ensures SelectsKeptItems(cs, depth, listTag, ItemContents(cs, depth, listTag), ItemIndices(cs, depth, listTag))
  {
    ItemContentsPick(cs, depth, listTag);
    PickSelects(KeptFlags(cs, depth, listTag), Conversions(cs, depth, listTag));
  }

  /** The filter of the `li` children is `Pick` over their flags and conversions. */
  lemma {:induction false} ItemContentsPick(cs: seq<DomNode>, depth: nat, listTag: string)
    ensures ItemContents(cs, depth, listTag) == Pick(KeptFlags(cs, depth, listTag), Conversions(cs, depth, listTag))
  {
    if cs != [] {
      var n := |cs|;
      ItemContentsPick(cs[..n - 1], depth, listTag);
      FlagsPrefix(cs, depth, listTag);
      ItemContentsLast(cs, depth, listTag);
      LastFlag(cs, depth, listTag);
    }
  }

  /** Picking the flagged entries gives them at the flagged indices, in order. */
  lemma {:induction false} PickSelects(keep: seq<bool>, conv: seq<string>)
    requires |keep| == |conv|
    ensures Selects(keep, conv, Pick(keep, conv), TrueIndices(keep))
  {
    if keep != [] {
      var n := |keep|;
      PickSelects(keep[..n - 1], conv[..n - 1]);
      if keep[n - 1] {
        SelectsExtended(keep, conv, Pick(keep[..n - 1], conv[..n - 1]), TrueIndices(keep[..n - 1]));
      } else {
        SelectsSkipped(keep, conv, Pick(keep[..n - 1], conv[..n - 1]), TrueIndices(keep[..n - 1]));
      }
    }
  }

  /** One step of the filter: the last child adds its conversion exactly when it is kept. */
  lemma ItemContentsLast(cs: seq<DomNode>, depth: nat, listTag: string)
    requires cs != []
    ensures var init := cs[..|cs| - 1]; var last := cs[|cs| - 1]; var c := Trim(NodeMd(last, depth, listTag));
      ItemContents(cs, depth, listTag) == if IsListItem(last) && c != "" then ItemContents(init, depth, listTag) + [c] else ItemContents(init, depth, listTag)
  {
  }

  /** The flag of the last child. */
  lemma LastFlag(cs: seq<DomNode>, depth: nat, listTag: string)
    requires cs != []
    ensures var n := |cs|;
      && Conversions(cs, depth, listTag)[n - 1] == Trim(NodeMd(cs[n - 1], depth, listTag))
      && KeptFlags(cs, depth, listTag)[n - 1] == (IsListItem(cs[n - 1]) && Trim(NodeMd(cs[n - 1], depth, listTag)) != "")
  {
  }

  /** The conversions and flags of the children but the last are a prefix of those of all children. */
  lemma FlagsPrefix(cs: seq<DomNode>, depth: nat, listTag: string)
    requires cs != []
    ensures Conversions(cs[..|cs| - 1], depth, listTag) == Conversions(cs, depth, listTag)[..|cs| - 1]
    ensures KeptFlags(cs[..|cs| - 1], depth, listTag) == KeptFlags(cs, depth, listTag)[..|cs| - 1]
  {
    var init := cs[..|cs| - 1];
    var conv := Conversions(init, depth, listTag);
    var keep := KeptFlags(init, depth, listTag);
    assert (conv + [Trim(NodeMd(cs[|cs| - 1], depth, listTag))])[..|init|] == conv;
    assert (keep + [IsListItem(cs[|cs| - 1]) && Trim(NodeMd(cs[|cs| - 1], depth, listTag)) != ""])[..|init|] == keep;
  }

  /** A kept last entry adds its conversion and its index at the end. */
  lemma SelectsExtended(keep: seq<bool>, conv: seq<string>, items0: seq<string>, js0: seq<nat>)
    requires |keep| == |conv| > 0 && keep[|keep| - 1]
    requires Selects(keep[..|keep| - 1], conv[..|conv| - 1], items0, js0)
    ensures Selects(keep, conv, items0 + [conv[|conv| - 1]], js0 + [|conv| - 1])
  {
    var n := |conv|;
    var items := items0 + [conv[n - 1]];
    var js := js0 + [n - 1];
    forall k | 0 <= k < |js| ensures js[k] < n && items[k] == conv[js[k]] {
      if k < |js0| {
        assert js[k] == js0[k] && items[k] == items0[k] && conv[..n - 1][js0[k]] == conv[js0[k]];
      }
    }
    forall j | 0 <= j < n ensures j in js <==> keep[j] {
      if j < n - 1 {
        assert keep[..n - 1][j] == keep[j];
      } else {
        assert js[|js0|] == j;
      }
    }
  }

  /** A last entry that is not kept changes neither the items nor the indices. */
  lemma SelectsSkipped(keep: seq<bool>, conv: seq<string>, items0: seq<string>, js0: seq<nat>)
    requires |keep| == |conv| > 0 && !keep[|keep| - 1]
    requires Selects(keep[..|keep| - 1], conv[..|conv| - 1], items0, js0)
    ensures Selects(keep, conv, items0, js0)
  {
    var n := |conv|;
    forall k | 0 <= k < |js0| ensures js0[k] < n && items0[k] == conv[js0[k]] {
      assert conv[..n - 1][js0[k]] == conv[js0[k]];
    }
    forall j | 0 <= j < n ensures j in js0 <==> keep[j] {
      if j < n - 1 {
        assert keep[..n - 1][j] == keep[j];
      }
    }
  }

  /** Every string is non-empty and has no white space at either end. */
  predicate AllTrimmed(lines: seq<string>) {
    forall i :: 0 <= i < |lines| ==> lines[i] != [] && !IsWhiteSpace(lines[i][0]) && !IsWhiteSpace(lines[i][|lines[i]| - 1])
  }

  /** Every item is non-empty and has no white space at either end. */
  lemma {:induction false} ItemContentsTrimmed(cs: seq<DomNode>, depth: nat, listTag: string)
    ensures AllTrimmed(ItemContents(cs, depth, listTag))
    decreases |cs|
  {
    if cs != [] {
      var init := cs[..|cs| - 1];
      ItemContentsTrimmed(init, depth, listTag);
      ItemContentsLast(cs, depth, listTag);
      TrimmedExtended(ItemContents(init, depth, listTag), Trim(NodeMd(cs[|cs| - 1], depth, listTag)));
    }
  }

  /** Appending a non-empty trimmed string keeps every line trimmed. */
  lemma TrimmedExtended(lines: seq<string>, c: string)
    requires AllTrimmed(lines)
    ensures c != [] && !IsWhiteSpace(c[0]) && !IsWhiteSpace(c[|c| - 1]) ==> AllTrimmed(lines + [c])
  {
    if c != [] && !IsWhiteSpace(c[0]) && !IsWhiteSpace(c[|c| - 1]) {
      var e := lines + [c];
      forall i | 0 <= i < |e| ensures e[i] != [] && !IsWhiteSpace(e[i][0]) && !IsWhiteSpace(e[i][|e[i]| - 1]) {
        if i < |lines| {
          assert e[i] == lines[i];
        }
      }
    }
  }

  /** The document: the body's children converted, normalized, trimmed, with one final `\n`. */
  function MarkdownDocument(body: seq<DomNode>): string {
    Trim(NormalizeWhitespace(ChildrenMd(body, 0, "body"))) + "\n"
  }

  /**
   * The document ends in exactly one `\n`, neither starts nor ends its text
   * with white space, and has no white space before any line break.
   */
  lemma MarkdownDocumentShape(body: seq<DomNode>)
    ensures var md := MarkdownDocument(body);
      && |md| >= 1 && md[|md| - 1] == '\n'
      && (|md| >= 2 ==> !IsWhiteSpace(md[0]) && !IsWhiteSpace(md[|md| - 2]))
      && NoWhiteSpaceBeforeNewline(md)
  {
    var c := ChildrenMd(body, 0, "body");
    var n := NormalizeWhitespace(c);
    NormalizeWhitespaceClean(c);
    TrimIsSlice(n);
    CleanSliceLine(n, |n| - |TrimStart(n)|, Trim(n));
  }

  /** A slice of a text with no white space before a line break, ended by a line break after a non-blank, still has none. */
  lemma CleanSliceLine(n: string, a: nat, t: string)
    requires NoWhiteSpaceBeforeNewline(n)
    requires a <= |n| && |t| <= |n| - a && t == n[a..][..|t|]
    requires t == [] || !IsWhiteSpace(t[|t| - 1])
    ensures NoWhiteSpaceBeforeNewline(t + "\n")
  {
    var md := t + "\n";
    forall k | 0 < k < |md| && md[k] == '\n' ensures !IsWhiteSpace(md[k - 1]) {
      if k < |t| {
        assert t[k] == n[a + k] && t[k - 1] == n[a + k - 1];
      }
    }
  }

  // ---------------------------------------------------------------------
  // The converter
  // ---------------------------------------------------------------------

  /** The state shared by the recursive `nodeToMarkdown`. */
  class MarkdownConverter {
    var listDepthStack: seq<ListKind>

    constructor()
      ensures listDepthStack == []
    {
      listDepthStack := [];
    }

    /** `nodeToMarkdown(node)`: pushes around each list it converts, so the stack comes back as it was. */
    method NodeToMarkdown(node: DomNode, parentTag: string) returns (md: string)
      modifies this
      ensures listDepthStack == old(listDepthStack)
      ensures md == NodeMd(node, |listDepthStack|, parentTag)
      decreases node
    {
      match node {
        case Text(s) =>
          md := s;
        case Other =>
          md := "";
        case Element(tag, href, cs) =>
          var children := ChildrenToMarkdown(cs, tag);
          if tag == "ul" || tag == "ol" {
            md := ListToMarkdown(cs, tag);
          } else {
            md := ElementMd(tag, href, children, TextContents(cs), parentTag);
          }
      }
    }

    /** A `ul` or `ol` element: its kind is pushed while its items are converted and popped after. */
    method ListToMarkdown(cs: seq<DomNode>, tag: string) returns (md: string)
      modifies this
      ensures listDepthStack == old(listDepthStack)
      ensures md == ListMd(ItemContents(cs, |listDepthStack| + 1, tag), |listDepthStack|, tag == "ol")
      decreases cs, 1
    {
      listDepthStack := listDepthStack + [if tag == "ol" then Ol else Ul];
      var items := ListItemsToMarkdown(cs, tag);
      var depth := |listDepthStack| - 1;
      var lines := ListLines(items, depth, tag == "ol");
      listDepthStack := listDepthStack[..|listDepthStack| - 1];
      md := Join(lines, '\n') + "\n\n";
    }

    /** The `li` children of a list, each converted and trimmed, the empty ones dropped. */
    method ListItemsToMarkdown(cs: seq<DomNode>, tag: string) returns (items: seq<string>)
      modifies this
      ensures listDepthStack == old(listDepthStack)
      ensures items == ItemContents(cs, |listDepthStack|, tag)
      decreases cs, 0
    {
      items := [];
      for i := 0 to |cs|
        invariant listDepthStack == old(listDepthStack)
        invariant items == ItemContents(cs[..i], |listDepthStack|, tag)
      {
        assert cs[..i + 1][..i] == cs[..i];
        if IsListItem(cs[i]) {
          var content := NodeToMarkdown(cs[i], tag);
          content := Trim(content);
          if content != "" {
            items := items + [content];
          }
        }
      }
      assert cs[..|cs|] == cs;
    }

    /** `Array.from(el.childNodes).map(nodeToMarkdown).join('')`. */
    method ChildrenToMarkdown(cs: seq<DomNode>, parentTag: string) returns (md: string)
      modifies this
      ensures listDepthStack == old(listDepthStack)
      ensures md == ChildrenMd(cs, |listDepthStack|, parentTag)
      decreases cs
    {
      md := "";
      for i := 0 to |cs|
        invariant listDepthStack == old(listDepthStack)
        invariant md == ChildrenMd(cs[..i], |listDepthStack|, parentTag)
      {
        assert cs[..i + 1][..i] == cs[..i];
        var piece := NodeToMarkdown(cs[i], parentTag);
        md := md + piece;
      }
      assert cs[..|cs|] == cs;
    }
  }

  /** `htmlToMarkdown`, given the children of the parsed body. */
  method HtmlToMarkdown(body: seq<DomNode>) returns (md: string)
    ensures md == MarkdownDocument(body)
  {
    var converter := new MarkdownConverter();
    var markdown := converter.ChildrenToMarkdown(body, "body");
    md := Trim(NormalizeWhitespace(markdown)) + "\n";
  }
}
