/**
 * The editor document as the suggestion engine sees it, and the three
 * editor primitives it is built from: `getMarkRange` (the maximal run of a
 * mark around a position), `removeMark` and `delete`.
 *
 * The flattened document is a sequence of positions. A `Char` is one
 * character of a text node with the suggestion marks it carries and occupies
 * the offsets [i, i + 1); a `Token` is a position that holds no character
 * (the opening or closing of a block), so text in different blocks is never
 * contiguous. Offset `p` lies between position `p - 1` and position `p`.
 */
module Document {
  import opened Wrappers
  import opened SuggestionMarks

  datatype Slot = Char(c: char, marks: set<SuggestionType>) | Token

  type Doc = seq<Slot>

  /** A range of offsets `{from, to}`, as the code passes them around (unchecked integers). */
  datatype Range = Range(from: int, to: int)

  /** Position `i` exists and is a character carrying mark `t`. */
  predicate Marked(d: Doc, i: int, t: SuggestionType) {
    0 <= i < |d| && d[i].Char? && t in d[i].marks
  }

  /** `r` is a maximal run of `t`-marked characters: non-empty, all marked, and marked on neither side. */
  predicate IsMarkRun(d: Doc, r: Range, t: SuggestionType) {
    && 0 <= r.from < r.to <= |d|
    && (forall i :: r.from <= i < r.to ==> Marked(d, i, t))
    && !Marked(d, r.from - 1, t)
    && !Marked(d, r.to, t)
  }

  /** First position of the run of `t` that contains position `i`. */
  function RunStart(d: Doc, i: int, t: SuggestionType): (s: int)
    requires Marked(d, i, t)
    ensures 0 <= s <= i && !Marked(d, s - 1, t)
    ensures forall j :: s <= j <= i ==> Marked(d, j, t)
    decreases i
  {
    if Marked(d, i - 1, t) then RunStart(d, i - 1, t) else i
  }

  /** One past the last position of the run of `t` that contains position `i`. */
  function RunEnd(d: Doc, i: int, t: SuggestionType): (e: int)
    requires Marked(d, i, t)
    ensures i < e <= |d| && !Marked(d, e, t)
    ensures forall j :: i <= j < e ==> Marked(d, j, t)
    decreases |d| - i
  {
    if Marked(d, i + 1, t) then RunEnd(d, i + 1, t) else i + 1
  }

  /**
   * `getMarkRange(doc.resolve(p), t)`: the character after `p` is looked at
   * first, the character before `p` when that one lacks the mark, and the
   * run of `t` around it is returned; nothing when neither carries `t`.
   */
  function MarkRange(d: Doc, p: int, t: SuggestionType): (r: Option<Range>)
    requires 0 <= p <= |d|
    ensures r.Some? <==> Marked(d, p, t) || Marked(d, p - 1, t)
    ensures r.Some? ==> IsMarkRun(d, r.value, t)
    ensures r.Some? && Marked(d, p, t) ==> r.value.from <= p < r.value.to
    ensures r.Some? && !Marked(d, p, t) ==> r.value.from < p == r.value.to
  {
    if Marked(d, p, t) then Some(Range(RunStart(d, p, t), RunEnd(d, p, t)))
    else if Marked(d, p - 1, t) then Some(Range(RunStart(d, p - 1, t), RunEnd(d, p - 1, t)))
    else None
  }

  /** Two maximal runs of the same mark are equal or do not overlap. */
  lemma RunsEqualOrDisjoint(d: Doc, r1: Range, r2: Range, t: SuggestionType)
    requires IsMarkRun(d, r1, t) && IsMarkRun(d, r2, t)
    ensures r1 == r2 || r1.to <= r2.from || r2.to <= r1.from
  {
  }

  /** A run of a mark lies inside one block: every position in it is a character. */
  lemma RunIsText(d: Doc, r: Range, t: SuggestionType, i: int)
    requires IsMarkRun(d, r, t) && r.from <= i < r.to
    ensures d[i].Char?
  {
    assert Marked(d, i, t);
  }

  function Unmark(s: Slot, t: SuggestionType): Slot {
    if s.Char? then Char(s.c, s.marks - {t}) else s
  }

  /**
   * The ranges `tr.removeMark(from, to, t)` accepts on document `d`: its walk
   * over the blocks of the document runs past the last one, and throws a
   * TypeError, exactly when `to` lies beyond the end. A `from` before the
   * start is cut back to the start.
   */
  predicate MarkRemovable(d: Doc, to: int) {
    to <= |d|
  }

  /**
   * `tr.removeMark(from, to, t)` where it does not throw: every character of
   * the current document inside [from, to) loses mark `t`, nothing moves.
   */
  function RemoveMarkIn(d: Doc, from: int, to: int, t: SuggestionType): (r: Doc)
    requires MarkRemovable(d, to)
    ensures |r| == |d|
    ensures forall i :: 0 <= i < |d| ==> r[i] == if from <= i < to then Unmark(d[i], t) else d[i]
  {
    seq(|d|, i requires 0 <= i < |d| => if from <= i < to then Unmark(d[i], t) else d[i])
  }

  /** The offsets where `tr.delete(from, to)` resolves and cuts on document `d`. */
  predicate DeletableRange(d: Doc, from: int, to: int) {
    0 <= from <= to <= |d|
  }

  /**
   * The offsets `tr.delete(from, to)` does not reject: an empty range adds
   * no step at all, before any offset is resolved, so it never throws; any
   * other pair outside `DeletableRange` throws a RangeError.
   */
  predicate DeleteAccepted(d: Doc, from: int, to: int) {
    from == to || DeletableRange(d, from, to)
  }

  /** `tr.delete(from, to)` on content inside one block: the positions in [from, to) disappear. */
  function DeleteRange(d: Doc, from: int, to: int): (r: Doc)
    requires DeletableRange(d, from, to)
    ensures |r| == |d| - (to - from)
    ensures forall i :: 0 <= i < from ==> r[i] == d[i]
    ensures forall i :: to <= i < |d| ==> r[i - (to - from)] == d[i]
  {
    d[..from] + d[to..]
  }

  /** The characters of the document, without marks and without the block tokens. */
  function PlainText(d: Doc): string {
    if d == [] then ""
    else PlainText(d[..|d| - 1]) + (if d[|d| - 1].Char? then [d[|d| - 1].c] else "")
  }

  /** Position `i` lies in one of the ranges `rs`. */
  function Covered(rs: seq<Range>, i: int): bool {
    rs != [] && (rs[0].from <= i < rs[0].to || Covered(rs[1..], i))
  }

  lemma CoveredIff(rs: seq<Range>, i: int)
    ensures Covered(rs, i) <==> exists k :: 0 <= k < |rs| && rs[k].from <= i < rs[k].to
  {
    if rs != [] {
      CoveredIff(rs[1..], i);
      if Covered(rs[1..], i) {
        var k :| 0 <= k < |rs[1..]| && rs[1..][k].from <= i < rs[1..][k].to;
        assert rs[k + 1] == rs[1..][k];
      }
      if exists k :: 0 <= k < |rs| && rs[k].from <= i < rs[k].to {
        var k :| 0 <= k < |rs| && rs[k].from <= i < rs[k].to;
        if k > 0 {
          assert rs[1..][k - 1] == rs[k];
        }
      }
    }
  }

  /** Whether a position is covered depends only on the ranges, not on their order or repetition. */
  lemma CoveredSameElements(rs1: seq<Range>, rs2: seq<Range>, i: int)
    requires forall r :: r in rs1 <==> r in rs2
    ensures Covered(rs1, i) == Covered(rs2, i)
  {
    CoveredIff(rs1, i);
    CoveredIff(rs2, i);
    if Covered(rs1, i) {
      var k :| 0 <= k < |rs1| && rs1[k].from <= i < rs1[k].to;
      assert rs1[k] in rs2;
      var k2 :| 0 <= k2 < |rs2| && rs2[k2] == rs1[k];
    }
    if Covered(rs2, i) {
      var k :| 0 <= k < |rs2| && rs2[k].from <= i < rs2[k].to;
      assert rs2[k] in rs1;
      var k1 :| 0 <= k1 < |rs1| && rs1[k1] == rs2[k];
    }
  }

  /** The document `a`, whose first position has offset `base`, with every position covered by `rs` left out. */
  function KeepFrom(a: Doc, rs: seq<Range>, base: int): Doc
    decreases |a|
  {
    if a == [] then []
    else (if Covered(rs, base) then [] else [a[0]]) + KeepFrom(a[1..], rs, base + 1)
  }

  /** `d` with every position covered by one of `rs` removed at once, offsets all taken in `d`. */
  function Keep(d: Doc, rs: seq<Range>): Doc {
    KeepFrom(d, rs, 0)
  }

  lemma {:induction false} KeepFromAppend(a: Doc, b: Doc, rs: seq<Range>, base: int)
    ensures KeepFrom(a + b, rs, base) == KeepFrom(a, rs, base) + KeepFrom(b, rs, base + |a|)
    decreases |a|
  {
    if a == [] {
      assert a + b == b;
    } else {
      var head := if Covered(rs, base) then [] else [a[0]];
      assert (a + b)[0] == a[0] && (a + b)[1..] == a[1..] + b;
      KeepFromAppend(a[1..], b, rs, base + 1);
      var x, y := KeepFrom(a[1..], rs, base + 1), KeepFrom(b, rs, base + |a|);
      assert KeepFrom(a + b, rs, base) == head + (x + y);
      assert KeepFrom(a, rs, base) == head + x;
      assert head + (x + y) == (head + x) + y;
    }
  }

  lemma {:induction false} KeepFromUncovered(a: Doc, rs: seq<Range>, base: int)
    requires forall i :: base <= i < base + |a| ==> !Covered(rs, i)
    ensures KeepFrom(a, rs, base) == a
    decreases |a|
  {
    if a != [] {
      KeepFromUncovered(a[1..], rs, base + 1);
    }
  }

  lemma {:induction false} KeepFromCovered(a: Doc, rs: seq<Range>, base: int)
    requires forall i :: base <= i < base + |a| ==> Covered(rs, i)
    ensures KeepFrom(a, rs, base) == []
    decreases |a|
  {
    if a != [] {
      KeepFromCovered(a[1..], rs, base + 1);
    }
  }

  lemma {:induction false} KeepFromAgree(a: Doc, rs1: seq<Range>, rs2: seq<Range>, base: int)
    requires forall i :: base <= i < base + |a| ==> Covered(rs1, i) == Covered(rs2, i)
    ensures KeepFrom(a, rs1, base) == KeepFrom(a, rs2, base)
    decreases |a|
  {
    if a != [] {
      KeepFromAgree(a[1..], rs1, rs2, base + 1);
    }
  }

  lemma CoveredAppend(a: seq<Range>, b: seq<Range>, i: int)
    ensures Covered(a + b, i) == (Covered(a, i) || Covered(b, i))
  {
    if a != [] {
      assert (a + b)[1..] == a[1..] + b;
      CoveredAppend(a[1..], b, i);
    } else {
      assert a + b == b;
    }
  }

  /** Removing a mark changes no character: the document's text stays the same. */
  lemma {:induction false} RemoveMarkKeepsText(d: Doc, from: int, to: int, t: SuggestionType)
    requires MarkRemovable(d, to)
    ensures PlainText(RemoveMarkIn(d, from, to, t)) == PlainText(d)
  {
    if d != [] {
      var r := RemoveMarkIn(d, from, to, t);
      var to' := if to < |d| then to else |d| - 1;
      RemoveMarkKeepsText(d[..|d| - 1], from, to', t);
      assert r[..|r| - 1] == RemoveMarkIn(d[..|d| - 1], from, to', t);
    }
  }
}
