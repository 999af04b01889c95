/** The per-line assignment scenario of
    crates/gitbutler-branch-actions/tests/virtual_branches/sub_hunk_assignment.rs:
    a three-line file gains two adjacent lines, the later line is assigned to
    stack A and the earlier one to stack B, and reconciling the unchanged diff
    keeps each line on its own stack. */
module Scenario {
  import opened Types
  import opened Order
  import opened Ranking
  import opened LineSplit
  import opened Reconcile

  function Bytes(s: string): (b: seq<Byte>)
    requires forall i :: 0 <= i < |s| ==> s[i] as int < 256
    ensures |b| == |s|
    ensures forall i :: 0 <= i < |s| ==> b[i] == s[i] as int
  {
    seq(|s|, i requires 0 <= i < |s| => s[i] as int)
  }

  const StackA := StackId(1)
  const StackB := StackId(2)
  const FilePath := "file.txt"

  /** The body of the single hunk `@@ -1,3 +1,5 @@`: its header line, three
      context lines and two added lines. Only the first byte of each line
      matters to the split. */
  function Body(): seq<Line>
  {
    [[AT, AT] + Bytes(" -1,3 +1,5 @@"), [SPACE] + Bytes("base-1"), [SPACE] + Bytes("base-2"),
     [SPACE] + Bytes("base-3"), [PLUS] + Bytes("line-b"), [PLUS] + Bytes("line-a")]
  }

  /** The shape of `Body()` as far as the split can see it. */
  predicate BodyShape(body: seq<Line>)
  {
    && |body| == 6
    && |body[0]| > 0 && body[0][0] == AT
    && |body[1]| > 0 && body[1][0] == SPACE
    && |body[2]| > 0 && body[2][0] == SPACE
    && |body[3]| > 0 && body[3][0] == SPACE
    && |body[4]| > 0 && body[4][0] == PLUS
    && |body[5]| > 0 && body[5][0] == PLUS
  }

  lemma BodyHasShape()
    ensures BodyShape(Body())
  {
  }

  /** The whole-hunk assignment computed from the working tree. */
  function Whole(body: seq<Line>): HunkAssignment
  {
    HunkAssignment(Some(Uuid(100)), Some(HunkHeader(1, 3, 1, 5)), FilePath, Bytes(FilePath),
                   None, None, Some([4, 5]), Some([]), Some(body))
  }

  /** The stored per-line assignments: line 5 to stack A, line 4 to stack B. */
  function Stored(): seq<HunkAssignment>
  {
    [HunkAssignment(Some(Uuid(1)), Some(HunkHeader(0, 0, 5, 1)), FilePath, Bytes(FilePath),
                    Some(StackA), None, None, None, None),
     HunkAssignment(Some(Uuid(2)), Some(HunkHeader(0, 0, 4, 1)), FilePath, Bytes(FilePath),
                    Some(StackB), None, None, None, None)]
  }

  /** An overlap of new-side line ranges within one file, standing in for
      `HunkAssignment::intersects` in this scenario. */
  predicate NewSideOverlap(a: HunkAssignment, b: HunkAssignment)
  {
    && a.path == b.path
    && a.hunkHeader.Some? && b.hunkHeader.Some?
    && var ha, hb := a.hunkHeader.value, b.hunkHeader.value;
       ha.newStart < hb.newStart + hb.newLines && hb.newStart < ha.newStart + ha.newLines
  }

  /** One more line extends the change positions by that line alone. */
  lemma {:induction false} ChangeStep(lines: seq<Line>, k: nat)
    requires k < |lines|
    ensures ChangePositions(lines[..k + 1]) == ChangePositions(lines[..k]) + (if IsChange(lines[k]) then [k] else [])
  {
    assert lines[..k + 1][..k] == lines[..k];
  }

  /** One more line extends the new-side count by that line alone. */
  lemma {:induction false} CountStep(lines: seq<Line>, k: nat)
    requires k < |lines|
    ensures CountNew(lines[..k + 1]) == CountNew(lines[..k]) + (if OnNewSide(lines[k]) then 1 else 0)
  {
    assert lines[..k + 1][..k] == lines[..k];
  }

  /** Lines without a change leave the change positions empty. */
  lemma {:induction false} NoChangeBefore(body: seq<Line>, k: nat)
    requires k <= |body| && forall i :: 0 <= i < k ==> !IsChange(body[i])
    ensures ChangePositions(body[..k]) == []
  {
    if k == 0 {
      assert body[..0] == [];
    } else {
      NoChangeBefore(body, k - 1);
      ChangeStep(body, k - 1);
    }
  }

  /** An addition at position k appends k to the change positions. */
  lemma {:induction false} ChangeAt(lines: seq<Line>, k: nat, before: seq<nat>)
    requires k < |lines| && IsAddition(lines[k]) && ChangePositions(lines[..k]) == before
    ensures ChangePositions(lines[..k + 1]) == before + [k]
  {
    ChangeStep(lines, k);
  }

  /** Two additions after four unchanged lines. */
  lemma {:induction false} TwoAdditions(body: seq<Line>)
    requires |body| == 6 && IsAddition(body[4]) && IsAddition(body[5])
    requires ChangePositions(body[..4]) == []
    ensures ChangePositions(body[..6]) == [4, 5]
  {
    ChangeAt(body, 4, []);
    ChangeAt(body, 5, [4]);
  }

  /** The four lines before the first addition hold no change. */
  lemma {:induction false} BodyStartsUnchanged(body: seq<Line>)
    requires BodyShape(body)
    ensures ChangePositions(body[..4]) == []
  {
    assert forall i :: 0 <= i < 4 ==> !IsChange(body[i]);
    NoChangeBefore(body, 4);
  }

  /** The walk over the body meets its two additions at positions 4 and 5. */
  lemma {:induction false} BodyChanges(body: seq<Line>)
    requires BodyShape(body)
    ensures ChangePositions(body) == [4, 5]
  {
    BodyStartsUnchanged(body);
    TwoAdditions(body);
    assert body[..6] == body;
  }

  /** Three new-side lines precede the first addition, four the second. */
  lemma {:induction false} BodyCounts(body: seq<Line>)
    requires BodyShape(body)
    ensures CountNew(body[..4]) == 3 && CountNew(body[..5]) == 4
  {
    assert body[..0] == [];
    CountStep(body, 0);
    assert !OnNewSide(body[0]);
    CountStep(body, 1);
    assert OnNewSide(body[1]);
    CountStep(body, 2);
    assert OnNewSide(body[2]);
    CountStep(body, 3);
    assert OnNewSide(body[3]);
    CountStep(body, 4);
    assert OnNewSide(body[4]);
  }

  /** The whole hunk splits into one selector for new line 4 and one for new
      line 5. */
  lemma {:induction false} WholeSplits(body: seq<Line>, supply: nat -> Uuid)
    requires BodyShape(body)
    ensures var pieces := SplitIntoLineSelections(Whole(body), supply);
            && |pieces| == 2
            && pieces[0].hunkHeader == Some(HunkHeader(0, 0, 4, 1))
            && pieces[1].hunkHeader == Some(HunkHeader(0, 0, 5, 1))
            && pieces[0].path == FilePath && pieces[1].path == FilePath
  {
    var n := Whole(body);
    BodyChanges(body);
    BodyCounts(body);
    assert IsChange(body[4]);
    assert Splits(n);
    SplitShape(n, supply);
    var pieces := SplitIntoLineSelections(n, supply);
    assert PieceFor(n, n.hunkHeader.value, body, 4, pieces[0]);
    assert PieceFor(n, n.hunkHeader.value, body, 5, pieces[1]);
  }

  /** Both stored assignments intersect the whole hunk; so the per-line
      selector path is taken. */
  lemma {:induction false} StoredIntersectWhole(body: seq<Line>)
    ensures Intersecting(Stored(), Whole(body), NewSideOverlap) == Stored()
    ensures TakesSelectorPath(Whole(body), Stored())
  {
    var stored := Stored();
    assert NewSideOverlap(stored[0], Whole(body)) && NewSideOverlap(stored[1], Whole(body));
    assert stored[1..][1..] == [];
    assert IsSelectorHunk(stored[0].hunkHeader.value);
  }

  /** Each line piece meets exactly the stored assignment for its own line. */
  lemma {:induction false} EachPieceMeetsItsLine(p0: HunkAssignment, p1: HunkAssignment)
    requires p0.hunkHeader == Some(HunkHeader(0, 0, 4, 1)) && p0.path == FilePath
    requires p1.hunkHeader == Some(HunkHeader(0, 0, 5, 1)) && p1.path == FilePath
    ensures Intersecting(Stored(), p0, NewSideOverlap) == [Stored()[1]]
    ensures Intersecting(Stored(), p1, NewSideOverlap) == [Stored()[0]]
  {
    var stored := Stored();
    assert stored[1..][1..] == [];
    assert !NewSideOverlap(stored[0], p0) && NewSideOverlap(stored[1], p0);
    assert NewSideOverlap(stored[0], p1) && !NewSideOverlap(stored[1], p1);
  }

  /** A piece that meets a single stored assignment takes over its stack. */
  lemma {:induction false} PieceTakesStack(piece: HunkAssignment, w: HunkAssignment, applied: seq<StackId>)
    requires Intersecting(Stored(), piece, NewSideOverlap) == [w]
    requires StackValid(w.stackId, applied)
    ensures var r := ReconcilePiece(piece, Stored(), applied, true, NewSideOverlap);
            r.hunkHeader == piece.hunkHeader && r.stackId == w.stackId
  {
    var olds := Intersecting(Stored(), piece, NewSideOverlap);
    assert FirstMinIndex(olds, Rank) == 0;
  }

  /** Reconciling the unchanged hunk against the stored per-line assignments
      gives each added line back the stack it was assigned to. */
  lemma {:induction false} EachLineKeepsItsStack(body: seq<Line>, supply: nat -> Uuid)
    requires BodyShape(body)
    ensures var r := ReconcileOne(Whole(body), Stored(), [StackA, StackB], SetMostLines, true,
                                  NewSideOverlap, supply);
            && |r| == 2
            && r[0].hunkHeader == Some(HunkHeader(0, 0, 4, 1)) && r[0].stackId == Some(StackB)
            && r[1].hunkHeader == Some(HunkHeader(0, 0, 5, 1)) && r[1].stackId == Some(StackA)
  {
    var n, stored, applied := Whole(body), Stored(), [StackA, StackB];
    StoredIntersectWhole(body);
    WholeSplits(body, supply);
    var pieces := SplitIntoLineSelections(n, supply);
    EachPieceMeetsItsLine(pieces[0], pieces[1]);
    PieceTakesStack(pieces[0], stored[1], applied);
    PieceTakesStack(pieces[1], stored[0], applied);
    ReconcileSplit(n, stored, applied, SetMostLines, true, NewSideOverlap, supply);
  }

  /** The scenario on the literal hunk body. */
  lemma TestHunkKeepsItsStacks(supply: nat -> Uuid)
    ensures var r := ReconcileOne(Whole(Body()), Stored(), [StackA, StackB], SetMostLines, true,
                                  NewSideOverlap, supply);
            && |r| == 2
            && r[0].hunkHeader == Some(HunkHeader(0, 0, 4, 1)) && r[0].stackId == Some(StackB)
            && r[1].hunkHeader == Some(HunkHeader(0, 0, 5, 1)) && r[1].stackId == Some(StackA)
  {
    BodyHasShape();
    EachLineKeepsItsStack(Body(), supply);
  }
}
