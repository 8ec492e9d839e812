/**
 * The two regular-expression rewrites the bulk accept and reject are built
 * from, written out as scanners:
 *
 *   `html.replace(/<open>.*?<\/span>/g, '')`     drops every span with its content;
 *   `html.replace(/<open>(.*?)<\/span>/g, '$1')` replaces every span by its content.
 *
 * `.` matches any character except a line terminator and `*?` is lazy, so a
 * match ends at the first `</span>` after the opening tag and fails when a
 * line terminator comes first. A global replace tries a match at each index,
 * left to right, and resumes after each match.
 */
module SpanPatterns {
  import opened Wrappers
  import opened JsStrings
  import opened SuggestionMarks

  predicate NoAngle(s: string) {
    forall i :: 0 <= i < |s| ==> s[i] != '<'
  }

  /**
   * Where the lazy `.*?<\/span>` starting at index `j` of `s` finds its
   * `</span>`: the first occurrence at or after `j` with no line terminator
   * in between; nothing when a line terminator or the end comes first.
   */
  function CloseAt(s: string, j: nat): (k: Option<nat>)
    ensures k.Some? ==> j <= k.value && k.value + |SpanClose| <= |s| && s[k.value..k.value + |SpanClose|] == SpanClose
    ensures k.Some? ==> NoLineTerminator(s[j..k.value])
    decreases |s| - j
  {
    if j + |SpanClose| <= |s| && s[j..j + |SpanClose|] == SpanClose then Some(j)
    else if j >= |s| || IsLineTerminator(s[j]) then None
    else
      match CloseAt(s, j + 1)
      case None => None
      case Some(k) =>
        assert s[j..k] == [s[j]] + s[j + 1..k];
        Some(k)
  }

  /** The pattern matches at the start of `s`. */
  predicate MatchAt(s: string, open: string) {
    open <= s && CloseAt(s, |open|).Some?
  }

  /**
   * The global replace of the span opened by `open`: each match is replaced
   * by its content when `unwrap` holds and by nothing otherwise.
   */
  function ReplaceSpans(s: string, open: string, unwrap: bool): string
    decreases |s|
  {
    if s == [] then []
    else if MatchAt(s, open) then
      var k := CloseAt(s, |open|).value;
      (if unwrap then s[|open|..k] else []) + ReplaceSpans(s[k + |SpanClose|..], open, unwrap)
    else [s[0]] + ReplaceSpans(s[1..], open, unwrap)
  }

  // ---------------------------------------------------------------------
  // The tags as strings
  // ---------------------------------------------------------------------

  /** Text without `<` or a line terminator. */
  predicate Plain(s: string) {
    NoAngle(s) && NoLineTerminator(s)
  }

  lemma PlainConcat(a: string, b: string)
    requires Plain(a) && Plain(b)
    ensures Plain(a + b)
  {
    var ab := a + b;
    forall i | 0 <= i < |ab| ensures ab[i] != '<' && !IsLineTerminator(ab[i]) {
      if i >= |a| {
        assert ab[i] == b[i - |a|];
      }
    }
  }

  lemma ClassNamePlain(t: SuggestionType)
    ensures Plain(ClassName(t))
  {
    var c := ClassName(t);
    forall i | 0 <= i < |c| ensures c[i] != '<' && !IsLineTerminator(c[i]) {
    }
  }

  /** What follows the `<` of an opening tag. */
  function OpenTagRest(t: SuggestionType): string {
    "span class=\"" + ClassName(t) + "\">"
  }

  lemma OpenTagSplit(t: SuggestionType)
    ensures SpanOpen(t) == "<" + OpenTagRest(t)
    ensures Plain(OpenTagRest(t)) && |OpenTagRest(t)| > 24 && OpenTagRest(t)[0] == 's'
  {
    var head := "span class=\"";
    var tail := "\">";
    assert Plain(head) && Plain(tail);
    ClassNamePlain(t);
    PlainConcat(head, ClassName(t));
    PlainConcat(head + ClassName(t), tail);
  }

  /** A `<` followed by plain text: the `<` is its only one and no line terminator occurs. */
  lemma AngleThenPlain(x: string)
    requires Plain(x)
    ensures ("<" + x)[1..] == x && NoLineTerminator("<" + x)
  {
    var y := "<" + x;
    forall i | 0 <= i < |y| ensures !IsLineTerminator(y[i]) {
      if i > 0 {
        assert y[i] == x[i - 1];
      }
    }
  }

  /**
   * Both tags start with their only `<` and hold no line terminator; after
   * the `<`, an opening tag continues with `s` and the closing tag with `/`.
   */
  lemma TagFacts(t: SuggestionType)
    ensures |SpanOpen(t)| > 24 && SpanOpen(t)[0] == '<' && SpanOpen(t)[1] == 's'
    ensures NoAngle(SpanOpen(t)[1..]) && NoLineTerminator(SpanOpen(t))
    ensures |SpanClose| == 7 && SpanClose[0] == '<' && SpanClose[1] == '/'
    ensures NoAngle(SpanClose[1..]) && NoLineTerminator(SpanClose)
  {
    assert Plain(SpanClose[1..]);
    OpenTagSplit(t);
    AngleThenPlain(OpenTagRest(t));
  }

  // ---------------------------------------------------------------------
  // How the lazy match scans
  // ---------------------------------------------------------------------

  /** Characters that are neither `<` nor a line terminator are skipped over. */
  lemma {:induction false} CloseSkips(s: string, j: nat, m: nat)
    requires j <= m <= |s|
    requires forall k :: j <= k < m ==> s[k] != '<' && !IsLineTerminator(s[k])
    ensures CloseAt(s, j) == CloseAt(s, m)
    decreases m - j
  {
    TagFacts(Insertion);
    if j < m {
      if j + |SpanClose| <= |s| {
        assert s[j..j + |SpanClose|][0] == s[j];
      }
      CloseSkips(s, j + 1, m);
    }
  }

  /** A `</span>` after plain content closes the match. */
  lemma CloseFound(s: string, j: nat, m: nat)
    requires j <= m && m + |SpanClose| <= |s| && s[m..m + |SpanClose|] == SpanClose
    requires forall k :: j <= k < m ==> s[k] != '<' && !IsLineTerminator(s[k])
    ensures CloseAt(s, j) == Some(m)
  {
    CloseSkips(s, j, m);
  }

  /** A line terminator before any `<` makes the match fail. */
  lemma CloseBlocked(s: string, j: nat, m: nat)
    requires j <= m < |s| && IsLineTerminator(s[m])
    requires forall k :: j <= k < m ==> s[k] != '<'
    ensures CloseAt(s, j) == None
    decreases m - j
  {
    TagFacts(Insertion);
    if j + |SpanClose| <= |s| {
      assert s[j..j + |SpanClose|][0] == s[j];
    }
    if j < m {
      CloseBlocked(s, j + 1, m);
    }
  }

  // ---------------------------------------------------------------------
  // The replace, piece by piece
  // ---------------------------------------------------------------------

  /** When the pattern matches at no index of a non-empty piece, it matches nowhere in the rest of the piece either. */
  lemma NoMatchShift(p: string, rest: string, open: string)
    requires p != [] && forall i :: 0 <= i < |p| ==> !MatchAt((p + rest)[i..], open)
    ensures forall i :: 0 <= i < |p[1..]| ==> !MatchAt((p[1..] + rest)[i..], open)
  {
    var s := p + rest;
    forall i | 0 <= i < |p[1..]| ensures !MatchAt((p[1..] + rest)[i..], open) {
      assert (p[1..] + rest)[i..] == s[i + 1..];
    }
  }

  /** Where the pattern does not match at the start of a non-empty piece, its first character is copied. */
  lemma ReplaceSpansCopies(p: string, rest: string, open: string, unwrap: bool)
    requires p != [] && forall i :: 0 <= i < |p| ==> !MatchAt((p + rest)[i..], open)
    ensures ReplaceSpans(p + rest, open, unwrap) == [p[0]] + ReplaceSpans(p[1..] + rest, open, unwrap)
  {
    var s := p + rest;
    assert s[0..] == s;
    assert !MatchAt(s, open);
    assert s[1..] == p[1..] + rest;
  }

  /** A piece at no index of which the pattern matches is copied unchanged. */
  lemma {:induction false} CopyPiece(p: string, rest: string, open: string, unwrap: bool)
    requires forall i :: 0 <= i < |p| ==> !MatchAt((p + rest)[i..], open)
    ensures ReplaceSpans(p + rest, open, unwrap) == p + ReplaceSpans(rest, open, unwrap)
    decreases |p|
  {
    if p == [] {
      assert p + rest == rest;
    } else {
      NoMatchShift(p, rest, open);
      ReplaceSpansCopies(p, rest, open, unwrap);
      CopyPiece(p[1..], rest, open, unwrap);
      var x := ReplaceSpans(rest, open, unwrap);
      assert [p[0]] + (p[1..] + x) == ([p[0]] + p[1..]) + x;
      assert [p[0]] + p[1..] == p;
    }
  }

  /** Text without `<` is copied by either replace. */
  lemma CopyPlain(p: string, rest: string, t: SuggestionType, unwrap: bool)
    requires NoAngle(p)
    ensures ReplaceSpans(p + rest, SpanOpen(t), unwrap) == p + ReplaceSpans(rest, SpanOpen(t), unwrap)
  {
    TagFacts(t);
    forall i | 0 <= i < |p| ensures !MatchAt((p + rest)[i..], SpanOpen(t)) {
      assert (p + rest)[i..][0] == p[i];
    }
    CopyPiece(p, rest, SpanOpen(t), unwrap);
  }

  /** A span of type `t` around plain content is dropped or unwrapped. */
  lemma ReplaceSpanAtFront(t: SuggestionType, c: string, rest: string, unwrap: bool)
    requires NoAngle(c) && NoLineTerminator(c)
    ensures ReplaceSpans(SpanOpen(t) + c + SpanClose + rest, SpanOpen(t), unwrap)
         == (if unwrap then c else "") + ReplaceSpans(rest, SpanOpen(t), unwrap)
  {
    var o := SpanOpen(t);
    var s := o + c + SpanClose + rest;
    var m := |o| + |c|;
    assert o <= s;
    forall k | |o| <= k < m ensures s[k] == c[k - |o|] {
    }
    assert s[m..m + |SpanClose|] == SpanClose;
    CloseFound(s, |o|, m);
    assert s[|o|..m] == c;
    assert s[m + |SpanClose|..] == rest;
  }

  /** The pattern cannot match where `</span>` starts, nor where the other type's opening tag starts. */
  lemma NoMatchAtTags(t: SuggestionType, other: SuggestionType, rest: string)
    requires other != t
    ensures !MatchAt(SpanClose + rest, SpanOpen(t))
    ensures !MatchAt(SpanOpen(other) + rest, SpanOpen(t))
  {
    TagFacts(t);
    TagFacts(other);
    OpenTagsDiffer();
    assert (SpanClose + rest)[1] == '/';
    assert (SpanOpen(other) + rest)[24] == SpanOpen(other)[24];
  }

  /**
   * A piece `tag + c + </span>` is copied by the replace of type `t` when
   * `c` is plain, provided no match can begin at the tag.
   */
  lemma CopyTagged(t: SuggestionType, tag: string, c: string, rest: string, unwrap: bool)
    requires |tag| > 0 && tag[0] == '<' && NoAngle(tag[1..]) && NoAngle(c)
    requires !MatchAt(tag + c + SpanClose + rest, SpanOpen(t))
    ensures ReplaceSpans(tag + c + SpanClose + rest, SpanOpen(t), unwrap)
         == tag + c + SpanClose + ReplaceSpans(rest, SpanOpen(t), unwrap)
  {
    TagFacts(t);
    var piece := tag + c + SpanClose;
    var s := piece + rest;
    assert tag + c + SpanClose + rest == s;
    forall i | 0 <= i < |piece| ensures !MatchAt(s[i..], SpanOpen(t)) {
      if i == |tag| + |c| {
        assert s[i..] == SpanClose + rest;
        NoMatchAtTags(t, if t == Insertion then Deletion else Insertion, rest);
      } else if i > 0 {
        assert s[i..][0] == s[i];
        if i < |tag| {
          assert s[i] == tag[1..][i - 1];
        } else if i < |tag| + |c| {
          assert s[i] == c[i - |tag|];
        } else {
          assert s[i] == SpanClose[1..][i - |tag| - |c| - 1];
        }
      }
    }
    CopyPiece(piece, rest, SpanOpen(t), unwrap);
  }

  /** A span of the other type around plain content is left as it is. */
  lemma CopyOtherSpan(t: SuggestionType, other: SuggestionType, c: string, rest: string, unwrap: bool)
    requires other != t && NoAngle(c)
    ensures ReplaceSpans(SpanOpen(other) + c + SpanClose + rest, SpanOpen(t), unwrap)
         == SpanOpen(other) + c + SpanClose + ReplaceSpans(rest, SpanOpen(t), unwrap)
  {
    TagFacts(other);
    NoMatchAtTags(t, other, c + SpanClose + rest);
    assert SpanOpen(other) + c + SpanClose + rest == SpanOpen(other) + (c + SpanClose + rest);
    CopyTagged(t, SpanOpen(other), c, rest, unwrap);
  }

  /** A span whose content holds a line terminator does not match, and is left as it is. */
  lemma KeepSpanWithLineBreak(t: SuggestionType, c: string, rest: string, unwrap: bool)
    requires NoAngle(c) && !NoLineTerminator(c)
    ensures ReplaceSpans(SpanOpen(t) + c + SpanClose + rest, SpanOpen(t), unwrap)
         == SpanOpen(t) + c + SpanClose + ReplaceSpans(rest, SpanOpen(t), unwrap)
  {
    TagFacts(t);
    var o := SpanOpen(t);
    var s := o + c + SpanClose + rest;
    var b :| 0 <= b < |c| && IsLineTerminator(c[b]);
    forall k | |o| <= k < |o| + |c| ensures s[k] == c[k - |o|] {
    }
    CloseBlocked(s, |o|, |o| + b);
    CopyTagged(t, o, c, rest, unwrap);
  }

  /** Without an opening tag of type `t` anywhere, the replace changes nothing. */
  lemma NoOpenTagUnchanged(s: string, t: SuggestionType, unwrap: bool)
    requires forall i :: 0 <= i <= |s| ==> !(SpanOpen(t) <= s[i..])
    ensures ReplaceSpans(s, SpanOpen(t), unwrap) == s
  {
    assert s + [] == s;
    forall i | 0 <= i < |s| ensures !MatchAt((s + [])[i..], SpanOpen(t)) {
    }
    CopyPiece(s, [], SpanOpen(t), unwrap);
  }
}
