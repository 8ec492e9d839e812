/**
 * Accepting and rejecting a replacement "A[old→new]B" written as the
 * deleted "old" followed by the inserted "new" in one paragraph.
 */
module SuggestionExamples {
  import opened Wrappers
  import opened SuggestionMarks
  import opened Document
  import opened SuggestionActions

  /** Positions: 0 paragraph open, 1 "A", 2–4 deleted "old", 5–7 inserted "new", 8 "B", 9 paragraph close. */
  const Replacement: Doc := [
    Token, Char('A', {}),
    Char('o', {Deletion}), Char('l', {Deletion}), Char('d', {Deletion}),
    Char('n', {Insertion}), Char('e', {Insertion}), Char('w', {Insertion}),
    Char('B', {}), Token]

  const Old := Range(2, 5)
  const New := Range(5, 8)

  /** "A", then `mid`, then "B", in one paragraph. */
  function Around(mid: Doc): Doc {
    [Token, Char('A', {})] + mid + [Char('B', {}), Token]
  }

  const OldText: Doc := [Char('o', {}), Char('l', {}), Char('d', {})]
  const NewText: Doc := [Char('n', {}), Char('e', {}), Char('w', {})]

  /** `getMarkRange` for the deletion mark at the four probes around "new". */
  lemma DeletionRunsAroundNew()
    ensures MarkRange(Replacement, 5, Deletion) == Some(Old)
    ensures MarkRange(Replacement, 4, Deletion) == Some(Old)
    ensures MarkRange(Replacement, 8, Deletion) == None
    ensures MarkRange(Replacement, 7, Deletion) == None
  {
    var d := Replacement;
    assert RunStart(d, 2, Deletion) == 2;
    assert RunStart(d, 4, Deletion) == 2;
    assert RunEnd(d, 4, Deletion) == 5;
  }

  /** Probing around "new" finds "old" twice, once from each of its last two offsets. */
  lemma DeletionFoundAroundNew()
    ensures Found(Replacement, Deletion, Probes(New)) == [Old, Old]
  {
    var d := Replacement;
    DeletionRunsAroundNew();
    assert FoundAt(d, Deletion, 5) == Some(Old) && FoundAt(d, Deletion, 4) == Some(Old);
    assert FoundAt(d, Deletion, 8) == None && FoundAt(d, Deletion, 7) == None;
    var ps := Probes(New);
    assert ps[..1] == [5] && ps[..2] == [5, 4] && ps[..3] == [5, 4, 8];
    assert [5][..0] == [];
    assert Found(d, Deletion, [5]) == [Old];
    assert Found(d, Deletion, [5, 4]) == [Old, Old];
    assert Found(d, Deletion, [5, 4, 8]) == [Old, Old];
  }

  /** A range found twice is kept once. */
  lemma DedupRepeated(x: Range)
    ensures Dedup([x, x]) == [x]
  {
    assert [x, x][..1] == [x];
    assert [x][..0] == [];
  }

  /** The deleted "old" is the one deletion run adjacent to "new". */
  lemma DeletionAdjacentToNew()
    ensures AdjacentRanges(Replacement, Deletion, New) == [Old]
  {
    DeletionFoundAroundNew();
    DedupRepeated(Old);
  }

  /** The inserted "new" is the one insertion run adjacent to "old". */
  lemma InsertionAdjacentToOld()
    ensures AdjacentRanges(Replacement, Insertion, Old) == [New]
  {
    var d := Replacement;
    assert RunStart(d, 5, Insertion) == 5;
    assert RunEnd(d, 7, Insertion) == 8;
    assert RunEnd(d, 5, Insertion) == 8;
    assert MarkRange(d, 2, Insertion) == None;
    assert MarkRange(d, 1, Insertion) == None;
    assert MarkRange(d, 5, Insertion) == Some(New);
    assert MarkRange(d, 4, Insertion) == None;
    var ps := Probes(Old);
    assert ps[..1] == [2] && ps[..2] == [2, 1] && ps[..3] == [2, 1, 5];
    assert [2][..0] == [];
    assert Found(d, Insertion, [2]) == [];
    assert Found(d, Insertion, [2, 1]) == [];
    assert Found(d, Insertion, [2, 1, 5]) == [New];
    assert Found(d, Insertion, ps) == [New];
    assert [New][..0] == [];
  }

  /** `Replacement` with "new" no longer marked. */
  const NewUnmarked: Doc := [
    Token, Char('A', {}),
    Char('o', {Deletion}), Char('l', {Deletion}), Char('d', {Deletion}),
    Char('n', {}), Char('e', {}), Char('w', {}),
    Char('B', {}), Token]

  /** `Replacement` with "old" no longer marked. */
  const OldUnmarked: Doc := [
    Token, Char('A', {}),
    Char('o', {}), Char('l', {}), Char('d', {}),
    Char('n', {Insertion}), Char('e', {Insertion}), Char('w', {Insertion}),
    Char('B', {}), Token]

  lemma UnmarkNew()
    ensures RemoveMarkIn(Replacement, 5, 8, Insertion) == NewUnmarked
  {
    var u := RemoveMarkIn(Replacement, 5, 8, Insertion);
    assert {Insertion} - {Insertion} == {};
    assert u[5] == NewUnmarked[5] && u[6] == NewUnmarked[6] && u[7] == NewUnmarked[7];
  }

  lemma UnmarkOld()
    ensures RemoveMarkIn(Replacement, 2, 5, Deletion) == OldUnmarked
  {
    var u := RemoveMarkIn(Replacement, 2, 5, Deletion);
    assert {Deletion} - {Deletion} == {};
    assert u[2] == OldUnmarked[2] && u[3] == OldUnmarked[3] && u[4] == OldUnmarked[4];
  }

  lemma CutOldFromNewUnmarked()
    ensures DeleteRange(NewUnmarked, 2, 5) == Around(NewText)
  {
    var d := NewUnmarked;
    var r := DeleteRange(d, 2, 5);
    var e := Around(NewText);
    assert r[0] == e[0] && r[1] == e[1];
    assert r[2] == d[5] == e[2];
    assert r[3] == d[6] == e[3];
    assert r[4] == d[7] == e[4];
    assert r[5] == d[8] == e[5];
    assert r[6] == d[9] == e[6];
  }

  lemma CutNewFromOldUnmarked()
    ensures DeleteRange(OldUnmarked, 5, 8) == Around(OldText)
  {
    var d := OldUnmarked;
    var r := DeleteRange(d, 5, 8);
    var e := Around(OldText);
    assert r[0] == e[0] && r[1] == e[1];
    assert r[2] == d[2] == e[2];
    assert r[3] == d[3] == e[3];
    assert r[4] == d[4] == e[4];
    assert r[5] == d[8] == e[5];
    assert r[6] == d[9] == e[6];
  }

  /** Accepting the insertion "new" leaves "AnewB", unmarked. */
  lemma AcceptNewGivesNew()
    ensures var o := AcceptOutcome(TrState(Replacement, 6), New, Insertion);
      o.Some? && o.value.doc == Around(NewText)
  {
    AcceptOutcomeMeaning(TrState(Replacement, 6), New, Insertion);
    DeletionAdjacentToNew();
    UnmarkNew();
    KeepOne(NewUnmarked, Old);
    CutOldFromNewUnmarked();
  }

  /** Rejecting the deletion "old" leaves "AoldB", unmarked. */
  lemma RejectOldGivesOld()
    ensures var o := RejectOutcome(TrState(Replacement, 3), Old, Deletion);
      o.Some? && o.value.doc == Around(OldText)
  {
    RejectOutcomeMeaning(TrState(Replacement, 3), Old, Deletion);
    InsertionAdjacentToOld();
    UnmarkOld();
    KeepOne(OldUnmarked, New);
    CutNewFromOldUnmarked();
  }

  /** Rejecting the insertion "new" also leaves "AoldB", unmarked: the deletion precedes it. */
  lemma RejectNewGivesOld()
    ensures var o := RejectOutcome(TrState(Replacement, 6), New, Insertion);
      o.Some? && o.value.doc == Around(OldText)
  {
    var s := TrState(Replacement, 6);
    DeletionAdjacentToNew();
    RejectInsertionAgreesWhenDeletionsPrecede(s, New);
    assert EndsWithin([Old], |Replacement|);
    var u := UnmarkEach(s, [Old], Deletion).value;
    assert forall i :: 0 <= i < |Replacement| ==> (Covered([Old], i) <==> 2 <= i < 5);
    UnmarkOld();
    assert u.doc == RemoveMarkIn(Replacement, 2, 5, Deletion);
    CutNewFromOldUnmarked();
  }

  /** Accepting the deletion "old" cuts it out and leaves "new" marked as an insertion. */
  lemma AcceptOldCutsOld()
    ensures var o := AcceptOutcome(TrState(Replacement, 3), Old, Deletion);
      o.Some? && o.value.doc == Around([Char('n', {Insertion}), Char('e', {Insertion}), Char('w', {Insertion})])
  {
    var d := Replacement;
    var r := DeleteRange(d, 2, 5);
    var e := Around([Char('n', {Insertion}), Char('e', {Insertion}), Char('w', {Insertion})]);
    assert |r| == |e| == 7;
    assert r[0] == e[0] && r[1] == e[1];
    assert r[2] == d[5] == e[2];
    assert r[3] == d[6] == e[3];
    assert r[4] == d[7] == e[4];
    assert r[5] == d[8] == e[5];
    assert r[6] == d[9] == e[6];
  }
}
