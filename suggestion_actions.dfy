/**
 * The accept/reject hook of the editor: `getAdjacentMarkRanges` finds the
 * suggestion of the other type that a suggestion replaces, and
 * `acceptSuggestion` / `rejectSuggestion` build one transaction of mark
 * removals and deletions and dispatch it.
 *
 * Every range the hook uses is resolved against the editor's state before
 * the transaction (`editor.state`), while each step of the transaction acts
 * on the transaction's current document: offsets are never mapped.
 */
module SuggestionActions {
  import opened Wrappers
  import opened SuggestionMarks
  import opened Document

  // ---------------------------------------------------------------------
  // Adjacency
  // ---------------------------------------------------------------------

  /** The offsets probed around a range, in the order they are tried. */
  function Probes(range: Range): seq<int> {
    [range.from, range.from - 1, range.to, range.to - 1]
  }

  /** What one probe contributes: nothing when it lies outside [0, doc size], else `getMarkRange` there. */
  function FoundAt(d: Doc, t: SuggestionType, p: int): Option<Range> {
    if p < 0 || p > |d| then None else MarkRange(d, p, t)
  }

  /** The ranges pushed while probing `ps`, in probe order, repetitions included. */
  function Found(d: Doc, t: SuggestionType, ps: seq<int>): (rs: seq<Range>)
    ensures |rs| <= |ps|
  {
    if ps == [] then []
    else
      var f := FoundAt(d, t, ps[|ps| - 1]);
      Found(d, t, ps[..|ps| - 1]) + (if f.Some? then [f.value] else [])
  }

  /** The collected ranges are exactly those some probe finds. */
  lemma {:induction false} FoundMembers(d: Doc, t: SuggestionType, ps: seq<int>)
    ensures forall r :: r in Found(d, t, ps) <==> exists k :: 0 <= k < |ps| && FoundAt(d, t, ps[k]) == Some(r)
  {
    if ps != [] {
      var init := ps[..|ps| - 1];
      FoundMembers(d, t, init);
      var prev := Found(d, t, init);
      var f := FoundAt(d, t, ps[|ps| - 1]);
      var rs := Found(d, t, ps);
      assert rs == prev + (if f.Some? then [f.value] else []);
      forall r ensures r in rs <==> exists k :: 0 <= k < |ps| && FoundAt(d, t, ps[k]) == Some(r) {
        if r in prev {
          var k :| 0 <= k < |init| && FoundAt(d, t, init[k]) == Some(r);
          assert init[k] == ps[k];
        }
        if exists k :: 0 <= k < |ps| && FoundAt(d, t, ps[k]) == Some(r) {
          var k :| 0 <= k < |ps| && FoundAt(d, t, ps[k]) == Some(r);
          if k < |ps| - 1 {
            assert init[k] == ps[k];
          }
        }
      }
    }
  }

  predicate NoDuplicates(rs: seq<Range>) {
    forall i, j :: 0 <= i < j < |rs| ==> rs[i] != rs[j]
  }

  /**
   * `rs.filter((r, idx, arr) => arr.findIndex(o => o.from === r.from && o.to === r.to) === idx)`:
   * the range at index `idx` is kept exactly when no equal range comes before it.
   */
  function Dedup(rs: seq<Range>): (r: seq<Range>)
    ensures NoDuplicates(r)
    ensures forall x :: x in r <==> x in rs
    ensures |r| <= |rs|
    ensures NoDuplicates(rs) ==> r == rs
  {
    if rs == [] then []
    else
      var init := rs[..|rs| - 1];
      var last := rs[|rs| - 1];
      assert rs == init + [last];
      if last in init then Dedup(init) else Dedup(init) + [last]
  }

  /** Index of the first occurrence of `x` in `rs`. */
  function FirstIndex(rs: seq<Range>, x: Range): (k: nat)
    requires x in rs
    ensures k < |rs| && rs[k] == x && forall j :: 0 <= j < k ==> rs[j] != x
  {
    if rs[0] == x then 0 else 1 + FirstIndex(rs[1..], x)
  }

  /** `Dedup` keeps the ranges in the order of their first occurrences. */
  lemma {:induction false} DedupKeepsFirstOrder(rs: seq<Range>)
    ensures forall i, j :: 0 <= i < j < |Dedup(rs)| ==> FirstIndex(rs, Dedup(rs)[i]) < FirstIndex(rs, Dedup(rs)[j])
  {
    if rs != [] {
      var init := rs[..|rs| - 1];
      var last := rs[|rs| - 1];
      assert rs == init + [last];
      DedupKeepsFirstOrder(init);
      var di := Dedup(init);
      forall x | x in init ensures FirstIndex(rs, x) == FirstIndex(init, x) {
        var k := FirstIndex(init, x);
        assert rs[k] == x;
        var k2 := FirstIndex(rs, x);
        assert k2 <= k;
        assert init[k2] == x;
      }
      if last !in init {
        assert FirstIndex(rs, last) == |rs| - 1;
        forall i | 0 <= i < |di| ensures FirstIndex(rs, di[i]) < |rs| - 1 {
          assert di[i] in init;
        }
      }
      forall i, j | 0 <= i < j < |di| ensures FirstIndex(rs, di[i]) < FirstIndex(rs, di[j]) {
        assert di[i] in init && di[j] in init;
      }
    }
  }

  /** `getAdjacentMarkRanges(t, range)` on document `d`, when the editor exists and `t` is in its schema. */
  function AdjacentRanges(d: Doc, t: SuggestionType, range: Range): seq<Range> {
    Dedup(Found(d, t, Probes(range)))
  }

  predicate PairwiseDisjoint(rs: seq<Range>) {
    forall i, j :: 0 <= i < j < |rs| ==> rs[i].to <= rs[j].from || rs[j].to <= rs[i].from
  }

  /**
   * The adjacent ranges: at most one per probe and no two equal; each is the
   * maximal run of `t` that `getMarkRange` finds at a probe inside the
   * document, and every such run is among them; distinct runs do not overlap.
   */
  lemma AdjacentRangesFacts(d: Doc, t: SuggestionType, range: Range)
    ensures var a := AdjacentRanges(d, t, range);
      && |a| <= 4
      && NoDuplicates(a)
      && PairwiseDisjoint(a)
      && (forall x :: x in a ==> IsMarkRun(d, x, t))
      && (forall x :: x in a <==> exists k :: 0 <= k < 4 && 0 <= Probes(range)[k] <= |d| && MarkRange(d, Probes(range)[k], t) == Some(x))
  {
    var ps := Probes(range);
    var a := AdjacentRanges(d, t, range);
    FoundMembers(d, t, ps);
    forall x | x in a ensures IsMarkRun(d, x, t) {
      var k :| 0 <= k < |ps| && FoundAt(d, t, ps[k]) == Some(x);
    }
    forall i, j | 0 <= i < j < |a| ensures a[i].to <= a[j].from || a[j].to <= a[i].from {
      assert a[i] in a && a[j] in a;
      RunsEqualOrDisjoint(d, a[i], a[j], t);
    }
  }

  // ---------------------------------------------------------------------
  // Sorting by descending `from`
  // ---------------------------------------------------------------------

  predicate SortedByFromDescending(rs: seq<Range>) {
    forall i, j :: 0 <= i < j < |rs| ==> rs[i].from >= rs[j].from
  }

  /** Every element of a sequence sorted by `from`, largest first, starts no later than its first element. */
  lemma HeadStartsLast(s: seq<Range>)
    requires s != [] && SortedByFromDescending(s)
    ensures forall y :: y in multiset(s) ==> y.from <= s[0].from
  {
    forall y | y in multiset(s) ensures y.from <= s[0].from {
      var k :| 0 <= k < |s| && s[k] == y;
    }
  }

  /** Putting `a` in front of a sorted sequence whose elements all start no later than `a` keeps it sorted. */
  lemma ConsSorted(a: Range, rest: seq<Range>)
    requires SortedByFromDescending(rest)
    requires forall y :: y in multiset(rest) ==> y.from <= a.from
    ensures SortedByFromDescending([a] + rest)
  {
    var r := [a] + rest;
    forall i, j | 0 <= i < j < |r| ensures r[i].from >= r[j].from {
      assert r[j] == rest[j - 1];
      assert rest[j - 1] in multiset(rest);
      if i > 0 {
        assert r[i] == rest[i - 1];
      }
    }
  }

  function InsertByFrom(x: Range, s: seq<Range>): (r: seq<Range>)
    requires SortedByFromDescending(s)
    ensures multiset(r) == multiset(s) + multiset{x}
    ensures SortedByFromDescending(r)
  {
    if s == [] then [x]
    else if x.from >= s[0].from then
      [x] + s
    else
      assert s == [s[0]] + s[1..];
      var rest := InsertByFrom(x, s[1..]);
      assert forall y :: y in multiset(rest) ==> y.from <= s[0].from by {
        HeadStartsLast(s);
        assert multiset(s) == multiset{s[0]} + multiset(s[1..]);
      }
      ConsSorted(s[0], rest);
      assert multiset([s[0]] + rest) == multiset{s[0]} + multiset(rest);
      [s[0]] + rest
  }

  /** A sequence has no repeated element exactly when it has no element twice in its multiset. */
  lemma {:induction false} NoDuplicatesMultiset(rs: seq<Range>)
    ensures NoDuplicates(rs) <==> forall x :: multiset(rs)[x] <= 1
  {
    if rs != [] {
      var init := rs[..|rs| - 1];
      var last := rs[|rs| - 1];
      assert rs == init + [last];
      NoDuplicatesMultiset(init);
      if NoDuplicates(rs) {
        assert NoDuplicates(init) by {
          forall i, j | 0 <= i < j < |init| ensures init[i] != init[j] {
            assert init[i] == rs[i] && init[j] == rs[j];
          }
        }
      } else {
        var i, j :| 0 <= i < j < |rs| && rs[i] == rs[j];
        if j < |rs| - 1 {
          assert init[i] == init[j];
          var y :| multiset(init)[y] > 1;
          assert multiset(rs)[y] == multiset(init)[y] + multiset{last}[y];
        } else {
          assert rs[i] in init;
          assert multiset(rs)[last] == multiset(init)[last] + 1;
        }
      }
    }
  }

  /**
   * `rs.sort((a, b) => b.from - a.from)`: a permutation of `rs` ordered by
   * descending `from`.
   */
  function SortByFromDescending(rs: seq<Range>): (r: seq<Range>)
    ensures SortedByFromDescending(r)
    ensures multiset(r) == multiset(rs)
  {
    if rs == [] then []
    else
      assert rs == [rs[0]] + rs[1..];
      InsertByFrom(rs[0], SortByFromDescending(rs[1..]))
  }

  /** Sorting keeps the elements and, hence, keeps them distinct. */
  lemma SortKeepsDistinct(rs: seq<Range>)
    requires NoDuplicates(rs)
    ensures NoDuplicates(SortByFromDescending(rs))
    ensures forall y :: y in SortByFromDescending(rs) <==> y in rs
  {
    var r := SortByFromDescending(rs);
    NoDuplicatesMultiset(rs);
    NoDuplicatesMultiset(r);
    forall y ensures y in r <==> y in rs {
      assert y in r <==> y in multiset(r);
      assert y in rs <==> y in multiset(rs);
    }
  }

  /** Ranges inside [0, n], each ending at or before the start of every range listed before it. */
  predicate DescendingWithin(rs: seq<Range>, n: int) {
    && (forall i :: 0 <= i < |rs| ==> 0 <= rs[i].from <= rs[i].to <= n)
    && (forall i, j :: 0 <= i < j < |rs| ==> rs[j].to <= rs[i].from)
  }

  /** Sorting distinct maximal runs by descending `from` lists them right to left without overlap. */
  lemma SortedRunsDescend(d: Doc, t: SuggestionType, rs: seq<Range>)
    requires forall x :: x in rs ==> IsMarkRun(d, x, t)
    requires NoDuplicates(rs)
    ensures DescendingWithin(SortByFromDescending(rs), |d|)
  {
    var s := SortByFromDescending(rs);
    SortKeepsDistinct(rs);
    forall i | 0 <= i < |s| ensures 0 <= s[i].from <= s[i].to <= |d| {
      assert s[i] in rs;
    }
    forall i, j | 0 <= i < j < |s| ensures s[j].to <= s[i].from {
      assert s[i] in rs && s[j] in rs;
      RunsEqualOrDisjoint(d, s[i], s[j], t);
    }
  }

  // ---------------------------------------------------------------------
  // Transactions as values
  // ---------------------------------------------------------------------

  /** The document and selection anchor of a transaction (or of the editor state). */
  datatype TrState = TrState(doc: Doc, anchor: int)

  predicate AnchorInside(s: TrState) {
    0 <= s.anchor <= |s.doc|
  }

  /** Where an offset `p` ends up after deleting [from, to): before it stays, inside collapses to `from`, after it shifts left. */
  function MapPos(p: int, from: int, to: int): int {
    if p <= from then p else if p <= to then from else p - (to - from)
  }

  /** `tr.removeMark(r.from, r.to, t)`; `None` when it throws, because `r.to` lies beyond the document. */
  function StepRemoveMark(s: TrState, r: Range, t: SuggestionType): (o: Option<TrState>)
    ensures o.Some? <==> MarkRemovable(s.doc, r.to)
    ensures o.Some? ==> |o.value.doc| == |s.doc| && o.value.anchor == s.anchor
  {
    if MarkRemovable(s.doc, r.to) then Some(TrState(RemoveMarkIn(s.doc, r.from, r.to, t), s.anchor)) else None
  }

  /**
   * `tr.delete(r.from, r.to)`; `None` when it throws a RangeError. An empty
   * range adds no step and leaves the state as it was, wherever it lies.
   */
  function StepDelete(s: TrState, r: Range): (o: Option<TrState>)
    ensures o.Some? <==> DeleteAccepted(s.doc, r.from, r.to)
    ensures o.Some? && AnchorInside(s) ==> AnchorInside(o.value)
    ensures r.from == r.to ==> o == Some(s)
    ensures DeletableRange(s.doc, r.from, r.to) ==>
      o == Some(TrState(DeleteRange(s.doc, r.from, r.to), MapPos(s.anchor, r.from, r.to)))
  {
    if r.from == r.to then
      EmptyDeleteKeeps(s, r.from);
      Some(s)
    else if DeletableRange(s.doc, r.from, r.to) then
      Some(TrState(DeleteRange(s.doc, r.from, r.to), MapPos(s.anchor, r.from, r.to)))
    else None
  }

  /** Cutting an empty range inside the document changes neither the document nor the anchor. */
  lemma EmptyDeleteKeeps(s: TrState, p: int)
    ensures DeletableRange(s.doc, p, p) ==> DeleteRange(s.doc, p, p) == s.doc && MapPos(s.anchor, p, p) == s.anchor
  {
    if DeletableRange(s.doc, p, p) {
      assert s.doc[..p] + s.doc[p..] == s.doc;
    }
  }

  /** `rs.forEach(d => tr.delete(d.from, d.to))`: `None` as soon as one delete throws. */
  function DeleteEach(s: TrState, rs: seq<Range>): Option<TrState> {
    if rs == [] then Some(s)
    else
      match DeleteEach(s, rs[..|rs| - 1])
      case None => None
      case Some(s1) => StepDelete(s1, rs[|rs| - 1])
  }

  /** Every range of `rs` ends inside a document of size `n`. */
  predicate EndsWithin(rs: seq<Range>, n: int) {
    forall k :: 0 <= k < |rs| ==> rs[k].to <= n
  }

  /** `d` with mark `t` taken off every character that one of `rs` covers. */
  function UnmarkCovered(d: Doc, rs: seq<Range>, t: SuggestionType): Doc {
    seq(|d|, i requires 0 <= i < |d| => if Covered(rs, i) then Unmark(d[i], t) else d[i])
  }

  /**
   * `rs.forEach(d => tr.removeMark(d.from, d.to, t))`: it throws exactly when
   * one of the ranges ends beyond the document; otherwise every position
   * covered by `rs` loses mark `t` and nothing else changes.
   */
  function UnmarkEach(s: TrState, rs: seq<Range>, t: SuggestionType): (o: Option<TrState>)
    ensures o.Some? <==> EndsWithin(rs, |s.doc|)
    ensures o.Some? ==> o.value == TrState(UnmarkCovered(s.doc, rs, t), s.anchor)
  {
    if rs == [] then Some(s)
    else
      var init := rs[..|rs| - 1];
      var last := rs[|rs| - 1];
      assert forall k :: 0 <= k < |init| ==> rs[k] == init[k];
      var r := UnmarkEach(s, init, t);
      if r.None? then
        assert !EndsWithin(rs, |s.doc|) by {
          var k :| 0 <= k < |init| && init[k].to > |s.doc|;
        }
        None
      else
        assert rs[|rs| - 1] == last;
        var o := StepRemoveMark(r.value, last, t);
        if o.Some? then
          UnmarkStep(s.doc, init, last, t);
          assert rs == init + [last];
          o
        else o
  }

  /** One more `removeMark` over `last` after unmarking `init` unmarks what `init + [last]` covers. */
  lemma UnmarkStep(d: Doc, init: seq<Range>, last: Range, t: SuggestionType)
    requires last.to <= |d|
    ensures RemoveMarkIn(UnmarkCovered(d, init, t), last.from, last.to, t) == UnmarkCovered(d, init + [last], t)
  {
    var u := UnmarkCovered(d, init, t);
    var a := RemoveMarkIn(u, last.from, last.to, t);
    var b := UnmarkCovered(d, init + [last], t);
    forall i | 0 <= i < |d| ensures a[i] == b[i] {
      CoveredAppend(init, [last], i);
      assert [last][1..] == [];
    }
  }

  // ---------------------------------------------------------------------
  // Deleting right to left
  // ---------------------------------------------------------------------

  /** None of the ranges before the last one of a right-to-left sequence reaches below the last one's end. */
  lemma EarlierRangesAbove(init: seq<Range>, last: Range, n: int)
    requires DescendingWithin(init + [last], n)
    ensures forall i :: i < last.to ==> !Covered(init, i)
  {
    var rs := init + [last];
    assert rs[|rs| - 1] == last;
    forall i | i < last.to ensures !Covered(init, i) {
      CoveredIff(init, i);
      forall k | 0 <= k < |init| ensures !(init[k].from <= i < init[k].to) {
        assert rs[k] == init[k];
      }
    }
  }

  /** What `Keep` keeps of `d` is what it keeps of each of three consecutive pieces of it. */
  lemma {:induction false} KeepThreePieces(d: Doc, rs: seq<Range>, f: int, t: int)
    requires 0 <= f <= t <= |d|
    ensures Keep(d, rs) == KeepFrom(d[..f], rs, 0) + KeepFrom(d[f..t], rs, f) + KeepFrom(d[t..], rs, t)
  {
    SplitThree(d, f, t);
    KeepFromThree(d[..f], d[f..t], d[t..], rs);
  }

  lemma SplitThree<T>(d: seq<T>, f: int, t: int)
    requires 0 <= f <= t <= |d|
    ensures d == (d[..f] + d[f..t]) + d[t..]
    ensures |d[..f]| == f && |d[..f] + d[f..t]| == t
  {
    var ab := d[..t];
    assert ab[..f] == d[..f] && ab[f..] == d[f..t];
    assert d[..f] + d[f..t] == ab;
  }

  lemma {:induction false} KeepFromThree(a: Doc, b: Doc, c: Doc, rs: seq<Range>)
    ensures KeepFrom((a + b) + c, rs, 0) == KeepFrom(a, rs, 0) + KeepFrom(b, rs, |a|) + KeepFrom(c, rs, |a| + |b|)
  {
    KeepFromAppend(a + b, c, rs, 0);
    KeepFromAppend(a, b, rs, 0);
  }

  /**
   * Deleting the last range of a right-to-left sequence from `Keep(d, init)`
   * is possible and yields `Keep(d, init + [last])`: the ranges already
   * deleted all lie to its right, so its offsets are still those of `d`.
   */
  lemma DeleteAfterKeep(d: Doc, init: seq<Range>, last: Range)
    requires DescendingWithin(init + [last], |d|)
    ensures DeletableRange(Keep(d, init), last.from, last.to)
    ensures DeleteRange(Keep(d, init), last.from, last.to) == Keep(d, init + [last])
  {
    var rs := init + [last];
    var f, t := last.from, last.to;
    assert rs[|rs| - 1] == last;
    EarlierRangesAbove(init, last, |d|);
    forall i ensures Covered(rs, i) == (Covered(init, i) || f <= i < t) {
      CoveredAppend(init, [last], i);
      assert [last][1..] == [];
    }
    var a, b, c := d[..f], d[f..t], d[t..];
    KeepThreePieces(d, init, f, t);
    KeepThreePieces(d, rs, f, t);
    KeepFromUncovered(a, init, 0);
    KeepFromUncovered(b, init, f);
    KeepFromUncovered(a, rs, 0);
    KeepFromCovered(b, rs, f);
    KeepFromAgree(c, rs, init, t);
    var x := KeepFrom(c, init, t);
    assert Keep(d, init) == a + b + x;
    assert Keep(d, rs) == a + x;
    assert (a + b + x)[..f] == a;
    assert (a + b + x)[t..] == x;
  }

  /**
   * The central fact behind `sort((a, b) => b.from - a.from).forEach(delete)`:
   * deleting disjoint ranges one after another from right to left never
   * throws and removes exactly the positions the ranges cover in the
   * original document, keeping the anchor inside the document.
   */
  lemma {:induction false} DescendingDeleteKeeps(s: TrState, rs: seq<Range>)
    requires DescendingWithin(rs, |s.doc|)
    ensures DeleteEach(s, rs).Some?
    ensures DeleteEach(s, rs).value.doc == Keep(s.doc, rs)
    ensures AnchorInside(s) ==> AnchorInside(DeleteEach(s, rs).value)
  {
    if rs == [] {
      KeepFromUncovered(s.doc, rs, 0);
    } else {
      var init := rs[..|rs| - 1];
      var last := rs[|rs| - 1];
      assert rs == init + [last];
      assert DescendingWithin(init, |s.doc|);
      DescendingDeleteKeeps(s, init);
      DeleteAfterKeep(s.doc, init, last);
    }
  }

  /** Removing the positions of one valid range is deleting it. */
  lemma KeepOne(d: Doc, r: Range)
    requires DeletableRange(d, r.from, r.to)
    ensures Keep(d, [r]) == DeleteRange(d, r.from, r.to)
  {
    DescendingDeleteKeeps(TrState(d, 0), [r]);
    assert [r][..0] == [];
  }

  // ---------------------------------------------------------------------
  // What accepting and rejecting do to the document
  // ---------------------------------------------------------------------

  /**
   * Removing mark `keep` over `r`, then deleting the runs of `drop` adjacent
   * to `r` in `s`, right to left; `None` when a step throws.
   */
  function UnmarkThenDelete(s: TrState, r: Range, keep: SuggestionType, drop: SuggestionType): Option<TrState> {
    match StepRemoveMark(s, r, keep)
    case None => None
    case Some(s1) => DeleteEach(s1, SortByFromDescending(AdjacentRanges(s.doc, drop, r)))
  }

  /** The transaction `acceptSuggestion(r, t)` builds from state `s`; `None` when a step throws. */
  function AcceptOutcome(s: TrState, r: Range, t: SuggestionType): Option<TrState> {
    match t
    case Insertion => UnmarkThenDelete(s, r, Insertion, Deletion)
    case Deletion => StepDelete(s, r)
  }

  /** The transaction `rejectSuggestion(r, t)` builds from state `s`, as written: deletion offsets are taken in `s`. */
  function RejectOutcome(s: TrState, r: Range, t: SuggestionType): Option<TrState> {
    match t
    case Insertion =>
      (match StepDelete(s, r)
       case None => None
       case Some(s1) => UnmarkEach(s1, AdjacentRanges(s.doc, Deletion, r), Deletion))
    case Deletion => UnmarkThenDelete(s, r, Deletion, Insertion)
  }

  /** The runs `getAdjacentMarkRanges` finds all end inside the document. */
  lemma AdjacentEndWithin(d: Doc, t: SuggestionType, range: Range)
    ensures EndsWithin(AdjacentRanges(d, t, range), |d|)
  {
    var a := AdjacentRanges(d, t, range);
    AdjacentRangesFacts(d, t, range);
    forall k | 0 <= k < |a| ensures a[k].to <= |d| {
      assert a[k] in a;
    }
  }

  /**
   * Removing mark `keep` over `r` and then deleting the adjacent runs of
   * `drop`, right to left, throws exactly when `r` ends beyond the document
   * (the deletes never throw), and it leaves the document with `keep` gone
   * from `r` and every adjacent run of `drop` cut out, as offsets of the
   * original document.
   */
  lemma UnmarkThenDeleteAdjacent(s: TrState, r: Range, keep: SuggestionType, drop: SuggestionType)
    ensures UnmarkThenDelete(s, r, keep, drop).Some? <==> MarkRemovable(s.doc, r.to)
    ensures MarkRemovable(s.doc, r.to) ==>
      var o := UnmarkThenDelete(s, r, keep, drop);
      && o.value.doc == Keep(RemoveMarkIn(s.doc, r.from, r.to, keep), AdjacentRanges(s.doc, drop, r))
      && (AnchorInside(s) ==> AnchorInside(o.value))
  {
    if MarkRemovable(s.doc, r.to) {
      var adj := AdjacentRanges(s.doc, drop, r);
      var sorted := SortByFromDescending(adj);
      var s1 := StepRemoveMark(s, r, keep).value;
      AdjacentRangesFacts(s.doc, drop, r);
      SortedRunsDescend(s.doc, drop, adj);
      SortKeepsDistinct(adj);
      DescendingDeleteKeeps(s1, sorted);
      forall i ensures Covered(sorted, i) == Covered(adj, i) {
        CoveredSameElements(sorted, adj, i);
      }
      KeepFromAgree(s1.doc, sorted, adj, 0);
    }
  }

  /**
   * Accepting an insertion throws exactly when its range ends beyond the
   * document; otherwise it keeps the text, without the insertion mark, and
   * cuts out every adjacent deletion run. Accepting a deletion cuts out its
   * range and throws exactly when the range is not a valid one.
   */
  lemma AcceptOutcomeMeaning(s: TrState, r: Range, t: SuggestionType)
    ensures t == Insertion ==>
      && (AcceptOutcome(s, r, t).Some? <==> MarkRemovable(s.doc, r.to))
      && (AcceptOutcome(s, r, t).Some? ==>
            AcceptOutcome(s, r, t).value.doc == Keep(RemoveMarkIn(s.doc, r.from, r.to, Insertion), AdjacentRanges(s.doc, Deletion, r)))
    ensures t == Deletion ==>
      && (AcceptOutcome(s, r, t).Some? <==> DeleteAccepted(s.doc, r.from, r.to))
      && (AcceptOutcome(s, r, t).Some? ==> AcceptOutcome(s, r, t).value.doc == Keep(s.doc, [r]))
    ensures AcceptOutcome(s, r, t).Some? && AnchorInside(s) ==> AnchorInside(AcceptOutcome(s, r, t).value)
  {
    if t == Insertion {
      UnmarkThenDeleteAdjacent(s, r, Insertion, Deletion);
    } else if r.from == r.to {
      KeepEmpty(s.doc, r);
    } else if DeletableRange(s.doc, r.from, r.to) {
      DescendingDeleteKeeps(s, [r]);
      assert [r][..0] == [];
    }
  }

  /**
   * Accepting an empty "deletion" anywhere, even outside the document, adds
   * no step and does not throw: the action dispatches an unchanged state.
   */
  lemma AcceptEmptyDeletionAnywhere(s: TrState, p: int)
    ensures AcceptOutcome(s, Range(p, p), Deletion) == Some(s)
  {
  }

  /** Leaving out an empty range keeps the whole document. */
  lemma KeepEmpty(d: Doc, r: Range)
    requires r.from == r.to
    ensures Keep(d, [r]) == d
  {
    forall i | 0 <= i < |d| ensures !Covered([r], i) {
      CoveredIff([r], i);
    }
    KeepFromUncovered(d, [r], 0);
  }

  /**
   * Rejecting a deletion throws exactly when its range ends beyond the
   * document; otherwise it keeps the text, without the deletion mark, and
   * cuts out every adjacent insertion run. Rejecting an insertion cuts out
   * its range and then removes the deletion mark over the adjacent deletion
   * runs' original offsets in the shortened document: it throws exactly when
   * the cut is rejected or one of those runs ends beyond the shortened
   * document.
   */
  lemma RejectOutcomeMeaning(s: TrState, r: Range, t: SuggestionType)
    ensures t == Deletion ==>
      && (RejectOutcome(s, r, t).Some? <==> MarkRemovable(s.doc, r.to))
      && (RejectOutcome(s, r, t).Some? ==>
            RejectOutcome(s, r, t).value.doc == Keep(RemoveMarkIn(s.doc, r.from, r.to, Deletion), AdjacentRanges(s.doc, Insertion, r)))
    ensures t == Insertion ==>
      var adj := AdjacentRanges(s.doc, Deletion, r);
      && (RejectOutcome(s, r, t).Some? <==>
            DeleteAccepted(s.doc, r.from, r.to) && EndsWithin(adj, |s.doc| - (r.to - r.from)))
      && (RejectOutcome(s, r, t).Some? ==>
            RejectOutcome(s, r, t).value.doc == UnmarkCovered(Keep(s.doc, [r]), adj, Deletion))
    ensures RejectOutcome(s, r, t).Some? && AnchorInside(s) ==> AnchorInside(RejectOutcome(s, r, t).value)
  {
    if t == Deletion {
      UnmarkThenDeleteAdjacent(s, r, Deletion, Insertion);
    } else if r.from == r.to {
      KeepEmpty(s.doc, r);
    } else if DeletableRange(s.doc, r.from, r.to) {
      DescendingDeleteKeeps(s, [r]);
      assert [r][..0] == [];
    }
  }

  // ---------------------------------------------------------------------
  // Rejecting an insertion: stale offsets
  // ---------------------------------------------------------------------

  /**
   * Rejecting an insertion as evidently intended: the adjacent deletion runs
   * lose their mark at the offsets where they are, and then the insertion is
   * cut out.
   */
  function RejectInsertionRestoring(s: TrState, r: Range): (o: Option<TrState>)
    ensures o.Some? <==> DeleteAccepted(s.doc, r.from, r.to)
  {
    AdjacentEndWithin(s.doc, Deletion, r);
    StepDelete(UnmarkEach(s, AdjacentRanges(s.doc, Deletion, r), Deletion).value, r)
  }

  /**
   * After the intended rejection, no character of an adjacent deletion run
   * that survives the cut carries the deletion mark any more, wherever the
   * run lay relative to the insertion.
   */
  lemma RestoringClearsDeletion(s: TrState, r: Range, i: int)
    requires RejectInsertionRestoring(s, r).Some?
    requires 0 <= i < |s.doc| && Covered(AdjacentRanges(s.doc, Deletion, r), i)
    requires i < r.from || r.to <= i
    ensures !Marked(RejectInsertionRestoring(s, r).value.doc, if i < r.from then i else i - (r.to - r.from), Deletion)
  {
    var adj := AdjacentRanges(s.doc, Deletion, r);
    AdjacentEndWithin(s.doc, Deletion, r);
    var u := UnmarkEach(s, adj, Deletion).value;
    assert u.doc == UnmarkCovered(s.doc, adj, Deletion);
    assert u.doc[i] == Unmark(s.doc[i], Deletion);
    if r.from == r.to {
      assert RejectInsertionRestoring(s, r).value.doc == u.doc;
    } else if i < r.from {
      var cut := DeleteRange(u.doc, r.from, r.to);
      assert RejectInsertionRestoring(s, r).value.doc == cut;
      assert cut[i] == u.doc[i];
    } else {
      var cut := DeleteRange(u.doc, r.from, r.to);
      assert RejectInsertionRestoring(s, r).value.doc == cut;
      assert cut[i - (r.to - r.from)] == u.doc[i];
    }
  }

  /**
   * When every adjacent deletion run ends where the insertion starts or
   * before (the usual "old text, then new text" layout), the rejection as
   * written agrees with the intended one.
   */
  lemma RejectInsertionAgreesWhenDeletionsPrecede(s: TrState, r: Range)
    requires forall x :: x in AdjacentRanges(s.doc, Deletion, r) ==> x.to <= r.from
    ensures RejectOutcome(s, r, Insertion) == RejectInsertionRestoring(s, r)
  {
    var adj := AdjacentRanges(s.doc, Deletion, r);
    if r.from == r.to {
      AdjacentEndWithin(s.doc, Deletion, r);
      var u := UnmarkEach(s, adj, Deletion);
      assert RejectOutcome(s, r, Insertion) == u;
      assert RejectInsertionRestoring(s, r) == u;
    } else if DeletableRange(s.doc, r.from, r.to) {
      var s1 := StepDelete(s, r).value;
      assert EndsWithin(adj, |s1.doc|) by {
        forall k | 0 <= k < |adj| ensures adj[k].to <= |s1.doc| {
          assert adj[k] in adj;
        }
      }
      var written := UnmarkEach(s1, adj, Deletion).value;
      AdjacentEndWithin(s.doc, Deletion, r);
      var u := UnmarkEach(s, adj, Deletion).value;
      var intended := StepDelete(u, r).value;
      forall j | r.from <= j ensures !Covered(adj, j) {
        CoveredIff(adj, j);
        forall k | 0 <= k < |adj| ensures !(adj[k].from <= j < adj[k].to) {
          assert adj[k] in adj;
        }
      }
      assert |written.doc| == |intended.doc|;
      forall j | 0 <= j < |written.doc| ensures written.doc[j] == intended.doc[j] {
        if j >= r.from {
          var o := j + (r.to - r.from);
          assert intended.doc[j] == u.doc[o];
        }
      }
      assert written.doc == intended.doc;
    }
  }

  /** A document "A", inserted "n", deleted "o", "B" in one paragraph. */
  const InsertionBeforeDeletion: Doc :=
    [Token, Char('A', {}), Char('n', {Insertion}), Char('o', {Deletion}), Char('B', {}), Token]

  /** The only deletion run adjacent to the inserted "n" is the "o" at [3, 4). */
  lemma InsertionBeforeDeletionAdjacent()
    ensures AdjacentRanges(InsertionBeforeDeletion, Deletion, Range(2, 3)) == [Range(3, 4)]
  {
    var d := InsertionBeforeDeletion;
    assert MarkRange(d, 2, Deletion) == None;
    assert MarkRange(d, 1, Deletion) == None;
    assert RunStart(d, 3, Deletion) == 3;
    assert RunEnd(d, 3, Deletion) == 4;
    assert MarkRange(d, 3, Deletion) == Some(Range(3, 4));
    var ps := Probes(Range(2, 3));
    assert ps[..1] == [2] && ps[..2] == [2, 1] && ps[..3] == [2, 1, 3];
    assert [2][..0] == [];
    assert Found(d, Deletion, [2]) == [];
    assert Found(d, Deletion, [2, 1]) == [];
    assert Found(d, Deletion, [2, 1, 3]) == [Range(3, 4)];
    assert Found(d, Deletion, ps) == [Range(3, 4)];
  }

  /** Cutting the inserted "n" out of the example document. */
  lemma InsertionBeforeDeletionCut()
    ensures DeletableRange(InsertionBeforeDeletion, 2, 3)
    ensures DeleteRange(InsertionBeforeDeletion, 2, 3) == [Token, Char('A', {}), Char('o', {Deletion}), Char('B', {}), Token]
  {
    var d := InsertionBeforeDeletion;
    var e := [Token, Char('A', {}), Char('o', {Deletion}), Char('B', {}), Token];
    var r := DeleteRange(d, 2, 3);
    assert r[0] == e[0] && r[1] == e[1];
    assert r[2] == d[3] == e[2];
    assert r[3] == d[4] == e[3];
    assert r[4] == d[5] == e[4];
  }

  /** After the cut, removing the deletion mark over [3, 4) changes nothing: "B" there carries no mark. */
  lemma CutUnmarkedAtB()
    ensures var e := [Token, Char('A', {}), Char('o', {Deletion}), Char('B', {}), Token];
      UnmarkEach(TrState(e, 2), [Range(3, 4)], Deletion) == Some(TrState(e, 2))
  {
    var adj := [Range(3, 4)];
    var e := [Token, Char('A', {}), Char('o', {Deletion}), Char('B', {}), Token];
    assert EndsWithin(adj, |e|);
    var w := UnmarkEach(TrState(e, 2), adj, Deletion).value;
    assert !Covered(adj, 0) && !Covered(adj, 1) && !Covered(adj, 2) && Covered(adj, 3) && !Covered(adj, 4);
    assert Unmark(e[3], Deletion) == e[3];
    assert w.doc[0] == e[0] && w.doc[1] == e[1] && w.doc[2] == e[2] && w.doc[3] == e[3] && w.doc[4] == e[4];
    assert w.doc == e;
  }

  /**
   * Rejecting the insertion at [2, 3) as written leaves the adjacent
   * deleted "o" still marked as a deletion: the mark is removed over [3, 4)
   * after "n" was cut out, where "B" now is.
   */
  lemma RejectInsertionLeavesDeletionMark()
    ensures var o := RejectOutcome(TrState(InsertionBeforeDeletion, 2), Range(2, 3), Insertion);
      o.Some? && o.value.doc == [Token, Char('A', {}), Char('o', {Deletion}), Char('B', {}), Token]
  {
    InsertionBeforeDeletionAdjacent();
    InsertionBeforeDeletionCut();
    CutUnmarkedAtB();
  }

  /** The example document with the deletion mark taken off the "o". */
  lemma DeletionUnmarkedFirst()
    ensures UnmarkEach(TrState(InsertionBeforeDeletion, 2), [Range(3, 4)], Deletion)
      == Some(TrState([Token, Char('A', {}), Char('n', {Insertion}), Char('o', {}), Char('B', {}), Token], 2))
  {
    var d := InsertionBeforeDeletion;
    var adj := [Range(3, 4)];
    assert EndsWithin(adj, |d|);
    var u := UnmarkEach(TrState(d, 2), adj, Deletion).value;
    var e := [Token, Char('A', {}), Char('n', {Insertion}), Char('o', {}), Char('B', {}), Token];
    assert !Covered(adj, 0) && !Covered(adj, 1) && !Covered(adj, 2) && Covered(adj, 3) && !Covered(adj, 4) && !Covered(adj, 5);
    assert {Deletion} - {Deletion} == {};
    assert u.doc[0] == e[0] && u.doc[1] == e[1] && u.doc[2] == e[2];
    assert u.doc[3] == e[3] && u.doc[4] == e[4] && u.doc[5] == e[5];
    assert u.doc == e;
  }

  /** Cutting the inserted "n" out of the document whose "o" is no longer marked. */
  lemma UnmarkedCut()
    ensures DeleteRange([Token, Char('A', {}), Char('n', {Insertion}), Char('o', {}), Char('B', {}), Token], 2, 3)
      == [Token, Char('A', {}), Char('o', {}), Char('B', {}), Token]
  {
    var u := [Token, Char('A', {}), Char('n', {Insertion}), Char('o', {}), Char('B', {}), Token];
    var e := [Token, Char('A', {}), Char('o', {}), Char('B', {}), Token];
    var r := DeleteRange(u, 2, 3);
    assert |r| == 5;
    assert r[0] == e[0] && r[1] == e[1];
    assert r[2] == u[3] == e[2];
    assert r[3] == u[4] == e[3];
    assert r[4] == u[5] == e[4];
  }

  /** The intended rejection of the same insertion does restore the "o". */
  lemma RestoringUnmarksDeletion()
    ensures var o := RejectInsertionRestoring(TrState(InsertionBeforeDeletion, 2), Range(2, 3));
      o.Some? && o.value.doc == [Token, Char('A', {}), Char('o', {}), Char('B', {}), Token]
  {
    InsertionBeforeDeletionAdjacent();
    DeletionUnmarkedFirst();
    UnmarkedCut();
  }

  /** A paragraph holding an inserted "nn" and then a deleted "o", which ends the paragraph. */
  const InsertionBeforeFinalDeletion: Doc :=
    [Token, Char('n', {Insertion}), Char('n', {Insertion}), Char('o', {Deletion}), Token]

  /** The only deletion run adjacent to the inserted "nn" is the "o" at [3, 4). */
  lemma InsertionBeforeFinalDeletionAdjacent()
    ensures AdjacentRanges(InsertionBeforeFinalDeletion, Deletion, Range(1, 3)) == [Range(3, 4)]
  {
    var d := InsertionBeforeFinalDeletion;
    assert MarkRange(d, 1, Deletion) == None;
    assert MarkRange(d, 0, Deletion) == None;
    assert RunStart(d, 3, Deletion) == 3;
    assert RunEnd(d, 3, Deletion) == 4;
    assert MarkRange(d, 3, Deletion) == Some(Range(3, 4));
    assert MarkRange(d, 2, Deletion) == None;
    var ps := Probes(Range(1, 3));
    assert ps[..1] == [1] && ps[..2] == [1, 0] && ps[..3] == [1, 0, 3];
    assert [1][..0] == [];
    assert Found(d, Deletion, [1]) == [];
    assert Found(d, Deletion, [1, 0]) == [];
    assert Found(d, Deletion, [1, 0, 3]) == [Range(3, 4)];
    assert Found(d, Deletion, ps) == [Range(3, 4)];
  }

  /**
   * Rejecting the inserted "nn" at [1, 3) as written throws: after the cut
   * the document has size 3, and the deletion mark is then removed over the
   * stale run [3, 4), which ends beyond it. Nothing is dispatched.
   */
  lemma RejectInsertionThrowsPastEnd()
    ensures RejectOutcome(TrState(InsertionBeforeFinalDeletion, 1), Range(1, 3), Insertion).None?
  {
    var s := TrState(InsertionBeforeFinalDeletion, 1);
    InsertionBeforeFinalDeletionAdjacent();
    var s1 := StepDelete(s, Range(1, 3)).value;
    assert |s1.doc| == 3;
    assert !EndsWithin([Range(3, 4)], |s1.doc|);
  }

  /** Unmarking the adjacent deletion clears the mark of the final "o" only. */
  lemma FinalDeletionUnmarked()
    ensures UnmarkCovered(InsertionBeforeFinalDeletion, [Range(3, 4)], Deletion)
      == [Token, Char('n', {Insertion}), Char('n', {Insertion}), Char('o', {}), Token]
  {
    var d := InsertionBeforeFinalDeletion;
    var adj := [Range(3, 4)];
    var u := UnmarkCovered(d, adj, Deletion);
    var e := [Token, Char('n', {Insertion}), Char('n', {Insertion}), Char('o', {}), Token];
    assert !Covered(adj, 0) && !Covered(adj, 1) && !Covered(adj, 2) && Covered(adj, 3) && !Covered(adj, 4);
    assert {Deletion} - {Deletion} == {};
    assert u[0] == e[0] && u[1] == e[1] && u[2] == e[2] && u[3] == e[3] && u[4] == e[4];
  }

  /** The intended rejection, once the adjacent deletion runs `adj` are known. */
  lemma RestoringIs(s: TrState, r: Range, adj: seq<Range>)
    requires AdjacentRanges(s.doc, Deletion, r) == adj
    ensures RejectInsertionRestoring(s, r) == StepDelete(TrState(UnmarkCovered(s.doc, adj, Deletion), s.anchor), r)
  {
    AdjacentEndWithin(s.doc, Deletion, r);
  }

  /** The intended rejection of the same insertion restores the "o" and does not throw. */
  lemma RestoringFinalDeletion()
    ensures RejectInsertionRestoring(TrState(InsertionBeforeFinalDeletion, 1), Range(1, 3)) == Some(TrState([Token, Char('o', {}), Token], 1))
  {
    InsertionBeforeFinalDeletionAdjacent();
    RestoringIs(TrState(InsertionBeforeFinalDeletion, 1), Range(1, 3), [Range(3, 4)]);
    FinalDeletionUnmarked();
    FinalInsertionCut();
  }

  /** Cutting the "nn" out of the paragraph whose "o" is already unmarked leaves the paragraph "o". */
  lemma FinalInsertionCut()
    ensures StepDelete(TrState([Token, Char('n', {Insertion}), Char('n', {Insertion}), Char('o', {}), Token], 1), Range(1, 3))
      == Some(TrState([Token, Char('o', {}), Token], 1))
  {
    var e := [Token, Char('n', {Insertion}), Char('n', {Insertion}), Char('o', {}), Token];
    assert DeletableRange(e, 1, 3) && MapPos(1, 1, 3) == 1;
    var r := DeleteRange(e, 1, 3);
    assert |r| == 3 && r[0] == Token && r[1] == e[3] && r[2] == Token;
    assert r == [Token, Char('o', {}), Token];
  }

  // ---------------------------------------------------------------------
  // Which suggestion an action applies to
  // ---------------------------------------------------------------------

  /**
   * The range and type an action works on. Given both, they are used as
   * they are; otherwise the marks active at the selection decide, insertion
   * first, and the run of that mark at the anchor is the range. Nothing when
   * no such mark is active or no run is found.
   */
  function Target(d: Doc, anchor: int, active: set<SuggestionType>, range: Option<Range>, kind: Option<SuggestionType>)
    : (target: Option<(Range, SuggestionType)>)
    requires 0 <= anchor <= |d|
    ensures range.Some? && kind.Some? ==> target == Some((range.value, kind.value))
    ensures (range.None? || kind.None?) && target.Some? ==>
      && target.value.1 in active
      && (Insertion in active ==> target.value.1 == Insertion)
      && IsMarkRun(d, target.value.0, target.value.1)
      && target.value.0.from <= anchor <= target.value.0.to
    ensures (range.None? || kind.None?) && Insertion in active ==>
      (target.Some? <==> Marked(d, anchor, Insertion) || Marked(d, anchor - 1, Insertion))
    ensures (range.None? || kind.None?) && Insertion !in active && Deletion in active ==>
      (target.Some? <==> Marked(d, anchor, Deletion) || Marked(d, anchor - 1, Deletion))
    ensures (range.None? || kind.None?) && Insertion !in active && Deletion !in active ==> target.None?
  {
    if range.Some? && kind.Some? then Some((range.value, kind.value))
    else
      var t := if Insertion in active then Some(Insertion) else if Deletion in active then Some(Deletion) else None;
      match t
      case None => None
      case Some(t) =>
        match MarkRange(d, anchor, t)
        case None => None
        case Some(r) => Some((r, t))
  }

  // ---------------------------------------------------------------------
  // The editor, its transactions and the hook
  // ---------------------------------------------------------------------

  /** `state.tr`: a transaction started from an editor state; its steps change its own document only. */
  class Transaction {
    var doc: Doc
    var anchor: int

    constructor (s: TrState)
      ensures doc == s.doc && anchor == s.anchor
    {
      doc := s.doc;
      anchor := s.anchor;
    }

    function State(): TrState
      reads this
    {
      TrState(doc, anchor)
    }

    /** `tr.removeMark(from, to, t)`, for a range it does not reject. */
    method RemoveMark(from: int, to: int, t: SuggestionType)
      requires MarkRemovable(doc, to)
      modifies this
      ensures Some(State()) == StepRemoveMark(old(State()), Range(from, to), t)
    {
      doc := RemoveMarkIn(doc, from, to, t);
    }

    /** `tr.delete(from, to)`, for offsets it does not reject; the anchor is mapped through the deletion, and an empty range adds no step. */
    method Delete(from: int, to: int)
      requires DeleteAccepted(doc, from, to)
      modifies this
      ensures Some(State()) == StepDelete(old(State()), Range(from, to))
    {
      if from != to {
        doc := DeleteRange(doc, from, to);
        anchor := MapPos(anchor, from, to);
      }
    }
  }

  /** The editor: its current document and selection anchor, the marks its schema registers, and how many transactions were dispatched to its view. */
  class Editor {
    var doc: Doc
    var anchor: int
    var dispatched: nat
    const schema: set<SuggestionType>

    ghost predicate Valid()
      reads this
    {
      0 <= anchor <= |doc|
    }

    constructor (doc0: Doc, anchor0: int, schema0: set<SuggestionType>)
      requires 0 <= anchor0 <= |doc0|
      ensures Valid()
      ensures doc == doc0 && anchor == anchor0 && schema == schema0 && dispatched == 0
    {
      doc := doc0;
      anchor := anchor0;
      schema := schema0;
      dispatched := 0;
    }

    function State(): TrState
      reads this
    {
      TrState(doc, anchor)
    }

    /** `view.dispatch(tr)`: the transaction's document and anchor become the editor's. */
    method Dispatch(tr: Transaction)
      requires AnchorInside(tr.State())
      modifies this
      ensures Valid()
      ensures State() == tr.State() && dispatched == old(dispatched) + 1
    {
      doc := tr.doc;
      anchor := tr.anchor;
      dispatched := dispatched + 1;
    }
  }

  /**
   * How an action ends: it returns early, dispatches its transaction, or
   * throws before dispatching (a RangeError from `tr.delete`, a TypeError
   * from `tr.removeMark`).
   */
  datatype Outcome = NoOp | Dispatched | Threw

  /**
   * `getAdjacentMarkRanges(markName, range)`: no ranges without an editor or
   * when the schema lacks the mark; otherwise the runs of the mark found at
   * the four probes, first occurrences kept. Only the two suggestion marks
   * are modelled, so any other name gives no ranges; both callers pass one
   * of the two.
   */
  method GetAdjacentMarkRanges(editor: Editor?, markName: string, range: Range) returns (ranges: seq<Range>)
    ensures editor == null ==> ranges == []
    ensures editor != null && (TypeOfName(markName).None? || TypeOfName(markName).value !in editor.schema) ==> ranges == []
    ensures editor != null && TypeOfName(markName).Some? && TypeOfName(markName).value in editor.schema ==>
      ranges == AdjacentRanges(editor.doc, TypeOfName(markName).value, range)
  {
    if editor == null {
      return [];
    }
    var markType := TypeOfName(markName);
    if markType.None? || markType.value !in editor.schema {
      return [];
    }
    var d := editor.doc;
    var t := markType.value;
    var positions := Probes(range);
    var found: seq<Range> := [];
    for k := 0 to |positions|
      invariant found == Found(d, t, positions[..k])
    {
      assert positions[..k + 1][..k] == positions[..k];
      var pos := positions[k];
      if pos < 0 || pos > |d| {
        continue;
      }
      var f := MarkRange(d, pos, t);
      if f.Some? {
        found := found + [f.value];
      }
    }
    assert positions[..|positions|] == positions;
    ranges := Dedup(found);
  }

  /**
   * Deletes `sorted` one range after another from `tr`; the ranges are the
   * right-to-left adjacent runs, so none of the deletes throws.
   */
  method DeleteAll(tr: Transaction, sorted: seq<Range>)
    requires DescendingWithin(sorted, |tr.doc|)
    modifies tr
    ensures Some(tr.State()) == DeleteEach(old(tr.State()), sorted)
  {
    ghost var s1 := tr.State();
    for k := 0 to |sorted|
      invariant DeleteEach(s1, sorted[..k]) == Some(tr.State())
    {
      assert sorted[..k + 1][..k] == sorted[..k];
      assert DescendingWithin(sorted[..k + 1], |s1.doc|);
      DescendingDeleteKeeps(s1, sorted[..k + 1]);
      tr.Delete(sorted[k].from, sorted[k].to);
    }
    assert sorted[..|sorted|] == sorted;
  }

  /**
   * Removes mark `t` over each of `rs`, in order, at the offsets given;
   * `thrown` when one of the calls throws, which ends the loop.
   */
  method UnmarkAll(tr: Transaction, rs: seq<Range>, t: SuggestionType) returns (thrown: bool)
    modifies tr
    ensures thrown <==> UnmarkEach(old(tr.State()), rs, t).None?
    ensures !thrown ==> Some(tr.State()) == UnmarkEach(old(tr.State()), rs, t)
  {
    ghost var s1 := tr.State();
    for k := 0 to |rs|
      invariant Some(tr.State()) == UnmarkEach(s1, rs[..k], t)
    {
      assert rs[..k + 1][..k] == rs[..k];
      assert rs[..k + 1][k] == rs[k];
      if !MarkRemovable(tr.doc, rs[k].to) {
        assert rs[k].to > |s1.doc|;
        return true;
      }
      tr.RemoveMark(rs[k].from, rs[k].to, t);
    }
    assert rs[..|rs|] == rs;
    return false;
  }

  /** The range and type the action works on, found as the hook finds them. */
  method ResolveTarget(editor: Editor, range: Option<Range>, kind: Option<SuggestionType>, activeMarks: set<SuggestionType>)
    returns (r: Option<Range>, t: Option<SuggestionType>)
    requires editor.Valid()
    ensures var target := Target(editor.doc, editor.anchor, activeMarks, range, kind);
      (target.None? <==> r.None? || t.None?) && (target.Some? ==> target.value == (r.value, t.value))
  {
    r, t := range, kind;
    if r.None? || t.None? {
      if Insertion in activeMarks {
        t := Some(Insertion);
        r := MarkRange(editor.doc, editor.anchor, Insertion);
      } else if Deletion in activeMarks {
        t := Some(Deletion);
        r := MarkRange(editor.doc, editor.anchor, Deletion);
      }
    }
  }

  /**
   * The steps `acceptSuggestion` adds to `tr` for range `rg` of type `t`:
   * an insertion loses its mark and the adjacent deletions are cut out
   * right to left; a deletion is cut out. `thrown` when a step throws.
   */
  method BuildAccept(editor: Editor, tr: Transaction, rg: Range, t: SuggestionType) returns (thrown: bool)
    requires editor.Valid() && Insertion in editor.schema && Deletion in editor.schema
    requires tr.State() == editor.State()
    modifies tr
    ensures thrown <==> AcceptOutcome(editor.State(), rg, t).None?
    ensures !thrown ==> Some(tr.State()) == AcceptOutcome(editor.State(), rg, t) && AnchorInside(tr.State())
  {
    var s := editor.State();
    if t == Insertion {
      if !MarkRemovable(tr.doc, rg.to) {
        return true;
      }
      tr.RemoveMark(rg.from, rg.to, Insertion);
      NamesDistinct();
      var deletions := GetAdjacentMarkRanges(editor, Name(Deletion), rg);
      var sorted := SortByFromDescending(deletions);
      AdjacentRangesFacts(s.doc, Deletion, rg);
      SortedRunsDescend(s.doc, Deletion, deletions);
      UnmarkThenDeleteAdjacent(s, rg, Insertion, Deletion);
      DeleteAll(tr, sorted);
    } else {
      if !DeleteAccepted(tr.doc, rg.from, rg.to) {
        return true;
      }
      tr.Delete(rg.from, rg.to);
    }
    return false;
  }

  /**
   * The steps `rejectSuggestion` adds to `tr` for range `rg` of type `t`:
   * an insertion is cut out and the adjacent deletions lose their mark at
   * the offsets found before the cut; a deletion loses its mark and the
   * adjacent insertions are cut out right to left. `thrown` when a step
   * throws.
   */
  method BuildReject(editor: Editor, tr: Transaction, rg: Range, t: SuggestionType) returns (thrown: bool)
    requires editor.Valid() && Insertion in editor.schema && Deletion in editor.schema
    requires tr.State() == editor.State()
    modifies tr
    ensures thrown <==> RejectOutcome(editor.State(), rg, t).None?
    ensures !thrown ==> Some(tr.State()) == RejectOutcome(editor.State(), rg, t) && AnchorInside(tr.State())
  {
    var s := editor.State();
    NamesDistinct();
    if t == Insertion {
      if !DeleteAccepted(tr.doc, rg.from, rg.to) {
        return true;
      }
      tr.Delete(rg.from, rg.to);
      var deletions := GetAdjacentMarkRanges(editor, Name(Deletion), rg);
      thrown := UnmarkAll(tr, deletions, Deletion);
      return;
    } else {
      if !MarkRemovable(tr.doc, rg.to) {
        return true;
      }
      tr.RemoveMark(rg.from, rg.to, Deletion);
      var insertions := GetAdjacentMarkRanges(editor, Name(Insertion), rg);
      var sorted := SortByFromDescending(insertions);
      AdjacentRangesFacts(s.doc, Insertion, rg);
      SortedRunsDescend(s.doc, Insertion, insertions);
      UnmarkThenDeleteAdjacent(s, rg, Deletion, Insertion);
      DeleteAll(tr, sorted);
    }
    return false;
  }

  /**
   * `acceptSuggestion(range?, type?)`: keeps an insertion (its mark goes,
   * the adjacent deletions are cut out) or applies a deletion, in one
   * dispatched transaction.
   */
  method AcceptSuggestion(editor: Editor?, range: Option<Range>, kind: Option<SuggestionType>, activeMarks: set<SuggestionType>)
    returns (outcome: Outcome)
    requires editor != null ==> editor.Valid() && Insertion in editor.schema && Deletion in editor.schema
    modifies editor
    ensures editor == null ==> outcome == NoOp
    ensures editor != null ==> editor.Valid()
    ensures editor != null ==>
      var s := old(editor.State());
      var target := Target(s.doc, s.anchor, activeMarks, range, kind);
      var result := if target.None? then None else AcceptOutcome(s, target.value.0, target.value.1);
      && (target.None? ==> outcome == NoOp)
      && (target.Some? && result.None? ==> outcome == Threw)
      && (result.Some? ==> outcome == Dispatched && editor.State() == result.value && editor.dispatched == old(editor.dispatched) + 1)
      && (outcome != Dispatched ==> editor.State() == s && editor.dispatched == old(editor.dispatched))
  {
    if editor == null {
      return NoOp;
    }
    var s := editor.State();
    var tr := new Transaction(s);
    var r, t := ResolveTarget(editor, range, kind, activeMarks);
    if r.None? || t.None? {
      return NoOp;
    }
    var thrown := BuildAccept(editor, tr, r.value, t.value);
    if thrown {
      return Threw;
    }
    editor.Dispatch(tr);
    return Dispatched;
  }

  /**
   * `rejectSuggestion(range?, type?)`: cuts out an insertion and unmarks
   * the adjacent deletions, or keeps a deletion's text (its mark goes) and
   * cuts out the adjacent insertions, in one dispatched transaction.
   */
  method RejectSuggestion(editor: Editor?, range: Option<Range>, kind: Option<SuggestionType>, activeMarks: set<SuggestionType>)
    returns (outcome: Outcome)
    requires editor != null ==> editor.Valid() && Insertion in editor.schema && Deletion in editor.schema
    modifies editor
    ensures editor == null ==> outcome == NoOp
    ensures editor != null ==> editor.Valid()
    ensures editor != null ==>
      var s := old(editor.State());
      var target := Target(s.doc, s.anchor, activeMarks, range, kind);
      var result := if target.None? then None else RejectOutcome(s, target.value.0, target.value.1);
      && (target.None? ==> outcome == NoOp)
      && (target.Some? && result.None? ==> outcome == Threw)
      && (result.Some? ==> outcome == Dispatched && editor.State() == result.value && editor.dispatched == old(editor.dispatched) + 1)
      && (outcome != Dispatched ==> editor.State() == s && editor.dispatched == old(editor.dispatched))
  {
    if editor == null {
      return NoOp;
    }
    var s := editor.State();
    var tr := new Transaction(s);
    var r, t := ResolveTarget(editor, range, kind, activeMarks);
    if r.None? || t.None? {
      return NoOp;
    }
    var thrown := BuildReject(editor, tr, r.value, t.value);
    if thrown {
      return Threw;
    }
    editor.Dispatch(tr);
    return Dispatched;
  }
}
