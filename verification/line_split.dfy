/** Splitting one hunk assignment into one selector assignment per added or
    removed line (`split_into_line_selections`, reconcile.rs:70-145).

    The diff body is walked once with a counter for each side of the diff.
    An added line `+` at new-side line n becomes an assignment with header
    `-0,0 +n,1`; a removed line `-` at old-side line m becomes one with header
    `-m,1 +0,0`. */
module LineSplit {
  import opened Types
  import opened Ranking

  const PLUS: Byte := 0x2B      // '+'
  const MINUS: Byte := 0x2D     // '-'
  const SPACE: Byte := 0x20     // ' '
  const AT: Byte := 0x40        // '@'
  const BACKSLASH: Byte := 0x5C // '\'

  predicate IsAddition(line: Line) { |line| > 0 && line[0] == PLUS }
  predicate IsRemoval(line: Line) { |line| > 0 && line[0] == MINUS }
  predicate IsChange(line: Line) { IsAddition(line) || IsRemoval(line) }

  /** Lines that stand for a line of the new file: every non-empty line except
      a removal, a hunk header line (`@`) and a `\ No newline at end of file`
      marker. Lines with an unexpected first byte count as context. */
  predicate OnNewSide(line: Line)
  {
    |line| > 0 && line[0] != MINUS && line[0] != AT && line[0] != BACKSLASH
  }

  /** Lines that stand for a line of the old file. */
  predicate OnOldSide(line: Line)
  {
    |line| > 0 && line[0] != PLUS && line[0] != AT && line[0] != BACKSLASH
  }

  /** How many of `lines` stand for a line of the new file. */
  function CountNew(lines: seq<Line>): nat
  {
    if |lines| == 0 then 0
    else CountNew(lines[..|lines| - 1]) + (if OnNewSide(lines[|lines| - 1]) then 1 else 0)
  }

  /** How many of `lines` stand for a line of the old file. */
  function CountOld(lines: seq<Line>): nat
  {
    if |lines| == 0 then 0
    else CountOld(lines[..|lines| - 1]) + (if OnOldSide(lines[|lines| - 1]) then 1 else 0)
  }

  /** The positions of the added and removed lines, in diff order. */
  function ChangePositions(lines: seq<Line>): (pos: seq<nat>)
    ensures forall k :: 0 <= k < |pos| ==> pos[k] < |lines| && IsChange(lines[pos[k]])
    ensures forall k1, k2 :: 0 <= k1 < k2 < |pos| ==> pos[k1] < pos[k2]
    ensures forall i :: 0 <= i < |lines| && IsChange(lines[i]) ==> i in pos
  {
    if |lines| == 0 then []
    else
      var last := |lines| - 1;
      ChangePositions(lines[..last]) + (if IsChange(lines[last]) then [last] else [])
  }

  /** The id the k-th piece receives: the base's own id goes to the first
      piece, every other piece draws the k-th value of the id supply. */
  function PieceId(base: HunkAssignment, supply: nat -> Uuid, k: nat): Option<Uuid>
  {
    if k == 0 && base.id.Some? then base.id else Some(supply(k))
  }

  /** `p` is the selector assignment for `line` of `base`'s diff when the
      old-side counter stands at `m` and the new-side counter at `n`. */
  predicate SelectorAt(base: HunkAssignment, line: Line, m: nat, n: nat, p: HunkAssignment)
  {
    && p.path == base.path
    && p.pathBytes == base.pathBytes
    && p.stackId == base.stackId
    && p.hunkLocks == base.hunkLocks
    && p.diff.None?
    && (IsAddition(line) ==>
          && p.hunkHeader == Some(HunkHeader(0, 0, AsU32(n), 1))
          && p.lineNumsAdded == Some([n])
          && p.lineNumsRemoved == Some([]))
    && (IsRemoval(line) ==>
          && p.hunkHeader == Some(HunkHeader(AsU32(m), 1, 0, 0))
          && p.lineNumsAdded == Some([])
          && p.lineNumsRemoved == Some([m]))
  }

  /** `p` is the selector assignment for line i of `lines`, the body of the
      hunk with header `h` inside `base`: the counters are the header's start
      lines advanced by the lines before line i. */
  predicate PieceFor(base: HunkAssignment, h: HunkHeader, lines: seq<Line>, i: nat, p: HunkAssignment)
    requires i < |lines|
  {
    SelectorAt(base, lines[i], h.oldStart + CountOld(lines[..i]), h.newStart + CountNew(lines[..i]), p)
  }

  /** The state of the walk over the diff body: both line counters, the base
      id not yet handed out, and the pieces produced so far. */
  datatype Walk = Walk(oldLine: nat, newLine: nat, pendingId: Option<Uuid>, out: seq<HunkAssignment>)

  /** One iteration of the walk (reconcile.rs:80-137). */
  function Step(base: HunkAssignment, supply: nat -> Uuid, w: Walk, line: Line): (r: Walk)
    ensures r.newLine == w.newLine + (if OnNewSide(line) then 1 else 0)
    ensures r.oldLine == w.oldLine + (if OnOldSide(line) then 1 else 0)
    ensures |r.out| == |w.out| + (if IsChange(line) then 1 else 0)
    ensures r.out == w.out + (if IsChange(line) then [r.out[|w.out|]] else [])
    ensures IsChange(line) ==>
              && SelectorAt(base, line, w.oldLine, w.newLine, r.out[|w.out|])
              && r.out[|w.out|].id == (if w.pendingId.Some? then w.pendingId else Some(supply(|w.out|)))
    ensures r.pendingId == (if IsChange(line) then None else w.pendingId)
  {
    if |line| == 0 then w
    else if line[0] == PLUS then
      var id := if w.pendingId.Some? then w.pendingId else Some(supply(|w.out|));
      var piece := HunkAssignment(
        id, Some(HunkHeader(0, 0, AsU32(w.newLine), 1)),
        base.path, base.pathBytes, base.stackId, base.hunkLocks,
        Some([w.newLine]), Some([]), None);
      Walk(w.oldLine, w.newLine + 1, None, w.out + [piece])
    else if line[0] == MINUS then
      var id := if w.pendingId.Some? then w.pendingId else Some(supply(|w.out|));
      var piece := HunkAssignment(
        id, Some(HunkHeader(AsU32(w.oldLine), 1, 0, 0)),
        base.path, base.pathBytes, base.stackId, base.hunkLocks,
        Some([]), Some([w.oldLine]), None);
      Walk(w.oldLine + 1, w.newLine, None, w.out + [piece])
    else if line[0] == SPACE then
      Walk(w.oldLine + 1, w.newLine + 1, w.pendingId, w.out)
    else if line[0] == AT || line[0] == BACKSLASH then
      w
    else
      Walk(w.oldLine + 1, w.newLine + 1, w.pendingId, w.out)
  }

  /** The walk over the whole body, starting from the header's start lines. */
  function WalkLines(base: HunkAssignment, h: HunkHeader, supply: nat -> Uuid, lines: seq<Line>): (w: Walk)
    ensures w.oldLine == h.oldStart + CountOld(lines)
    ensures w.newLine == h.newStart + CountNew(lines)
    ensures |w.out| == |ChangePositions(lines)|
    ensures w.pendingId == (if |w.out| == 0 then base.id else None)
    ensures forall k :: 0 <= k < |w.out| ==> w.out[k].diff.None?
  {
    if |lines| == 0 then Walk(h.oldStart, h.newStart, base.id, [])
    else Step(base, supply, WalkLines(base, h, supply, lines[..|lines| - 1]), lines[|lines| - 1])
  }

  /** Appending a line to the body does not change what an earlier line's piece is. */
  lemma {:induction false} PieceForExtend(base: HunkAssignment, h: HunkHeader, init: seq<Line>, last: Line, i: nat, p: HunkAssignment)
    requires i < |init|
    requires PieceFor(base, h, init, i, p)
    ensures PieceFor(base, h, init + [last], i, p)
  {
    assert (init + [last])[..i] == init[..i];
  }

  /** The piece of the last line is numbered by the counters after all earlier lines. */
  lemma {:induction false} PieceForLast(base: HunkAssignment, h: HunkHeader, init: seq<Line>, last: Line, p: HunkAssignment)
    requires SelectorAt(base, last, h.oldStart + CountOld(init), h.newStart + CountNew(init), p)
    ensures PieceFor(base, h, init + [last], |init|, p)
  {
    var lines := init + [last];
    assert lines[..|init|] == init;
    assert lines[|init|] == last;
  }

  /** Piece k of the walk is the selector for the k-th changed line, numbered
      by the counters as they stood before that line. */
  predicate WalkPiecesHold(base: HunkAssignment, h: HunkHeader, supply: nat -> Uuid, lines: seq<Line>)
  {
    var w := WalkLines(base, h, supply, lines);
    forall k :: 0 <= k < |w.out| ==>
      w.out[k].id == PieceId(base, supply, k)
      && PieceFor(base, h, lines, ChangePositions(lines)[k], w.out[k])
  }

  /** The step of the induction for one earlier piece. */
  lemma {:induction false} WalkPiecesOld(base: HunkAssignment, h: HunkHeader, supply: nat -> Uuid,
                                         init: seq<Line>, last: Line, k: nat)
    requires WalkPiecesHold(base, h, supply, init)
    requires k < |WalkLines(base, h, supply, init).out|
    ensures var lines := init + [last];
            var w := WalkLines(base, h, supply, lines);
            k < |w.out|
            && w.out[k].id == PieceId(base, supply, k)
            && PieceFor(base, h, lines, ChangePositions(lines)[k], w.out[k])
  {
    var lines := init + [last];
    assert lines[..|lines| - 1] == init;
    var w0 := WalkLines(base, h, supply, init);
    var w := WalkLines(base, h, supply, lines);
    assert w == Step(base, supply, w0, last);
    assert w.out[k] == w0.out[k];
    var pos0 := ChangePositions(init);
    assert ChangePositions(lines)[k] == pos0[k];
    PieceForExtend(base, h, init, last, pos0[k], w.out[k]);
  }

  /** The step of the induction for the piece of the last line. */
  lemma {:induction false} WalkPiecesNew(base: HunkAssignment, h: HunkHeader, supply: nat -> Uuid,
                                         init: seq<Line>, last: Line)
    requires IsChange(last)
    ensures var lines := init + [last];
            var w := WalkLines(base, h, supply, lines);
            var k := |WalkLines(base, h, supply, init).out|;
            k < |w.out|
            && w.out[k].id == PieceId(base, supply, k)
            && PieceFor(base, h, lines, ChangePositions(lines)[k], w.out[k])
  {
    var lines := init + [last];
    assert lines[..|lines| - 1] == init;
    var w0 := WalkLines(base, h, supply, init);
    var w := WalkLines(base, h, supply, lines);
    assert w == Step(base, supply, w0, last);
    var k := |w0.out|;
    assert ChangePositions(lines)[k] == |init|;
    PieceForLast(base, h, init, last, w.out[k]);
  }

  lemma {:induction false} WalkPieces(base: HunkAssignment, h: HunkHeader, supply: nat -> Uuid, lines: seq<Line>)
    ensures WalkPiecesHold(base, h, supply, lines)
  {
    if |lines| > 0 {
      var init, last := lines[..|lines| - 1], lines[|lines| - 1];
      assert lines == init + [last];
      WalkPieces(base, h, supply, init);
      var w0 := WalkLines(base, h, supply, init);
      var w := WalkLines(base, h, supply, lines);
      assert w == Step(base, supply, w0, last);
      assert |w.out| == |w0.out| + (if IsChange(last) then 1 else 0);
      forall k | 0 <= k < |w.out|
        ensures w.out[k].id == PieceId(base, supply, k)
        ensures PieceFor(base, h, lines, ChangePositions(lines)[k], w.out[k])
      {
        if k < |w0.out| {
          WalkPiecesOld(base, h, supply, init, last, k);
        } else {
          WalkPiecesNew(base, h, supply, init, last);
        }
      }
    }
  }

  /** The added-line numbers across pieces, in piece order. */
  function AddedNums(ps: seq<HunkAssignment>): seq<nat>
  {
    if |ps| == 0 then []
    else
      var last := ps[|ps| - 1];
      AddedNums(ps[..|ps| - 1]) + (if last.lineNumsAdded.Some? then last.lineNumsAdded.value else [])
  }

  /** The removed-line numbers across pieces, in piece order. */
  function RemovedNums(ps: seq<HunkAssignment>): seq<nat>
  {
    if |ps| == 0 then []
    else
      var last := ps[|ps| - 1];
      RemovedNums(ps[..|ps| - 1]) + (if last.lineNumsRemoved.Some? then last.lineNumsRemoved.value else [])
  }

  predicate StrictlyIncreasing(s: seq<nat>)
  {
    forall i, j :: 0 <= i < j < |s| ==> s[i] < s[j]
  }

  /** Appending a number above every earlier one keeps a sequence increasing. */
  lemma AppendAbove(a: seq<nat>, lo: nat, x: nat)
    requires StrictlyIncreasing(a)
    requires lo <= x
    requires forall i :: 0 <= i < |a| ==> lo <= a[i] < x
    ensures StrictlyIncreasing(a + [x])
    ensures forall i :: 0 <= i < |a + [x]| ==> lo <= (a + [x])[i] < x + 1
  {
  }

  /** The numbers a piece contributes to `AddedNums` are those of its own
      `lineNumsAdded`. */
  lemma AddedNumsAppend(ps: seq<HunkAssignment>, p: HunkAssignment)
    ensures AddedNums(ps + [p]) == AddedNums(ps) + (if p.lineNumsAdded.Some? then p.lineNumsAdded.value else [])
  {
    assert (ps + [p])[..|ps|] == ps;
  }

  /** The numbers a piece contributes to `RemovedNums` are those of its own
      `lineNumsRemoved`. */
  lemma RemovedNumsAppend(ps: seq<HunkAssignment>, p: HunkAssignment)
    ensures RemovedNums(ps + [p]) == RemovedNums(ps) + (if p.lineNumsRemoved.Some? then p.lineNumsRemoved.value else [])
  {
    assert (ps + [p])[..|ps|] == ps;
  }

  /** The added-line numbers handed out so far increase and stay within
      the part of the new side that the walk has passed. */
  lemma {:induction false} WalkAddedIncreasing(base: HunkAssignment, h: HunkHeader, supply: nat -> Uuid, lines: seq<Line>)
    ensures var w := WalkLines(base, h, supply, lines);
            var a := AddedNums(w.out);
            StrictlyIncreasing(a) && forall i :: 0 <= i < |a| ==> h.newStart <= a[i] < w.newLine
  {
    if |lines| > 0 {
      var init, last := lines[..|lines| - 1], lines[|lines| - 1];
      WalkAddedIncreasing(base, h, supply, init);
      var w0 := WalkLines(base, h, supply, init);
      var w := WalkLines(base, h, supply, lines);
      assert w == Step(base, supply, w0, last);
      var a0 := AddedNums(w0.out);
      if IsChange(last) {
        var p := w.out[|w0.out|];
        assert w.out == w0.out + [p];
        AddedNumsAppend(w0.out, p);
        if IsAddition(last) {
          assert AddedNums(w.out) == a0 + [w0.newLine];
          AppendAbove(a0, h.newStart, w0.newLine);
        } else {
          assert AddedNums(w.out) == a0;
        }
      } else {
        assert w.out == w0.out;
      }
    }
  }

  /** The removed-line numbers handed out so far increase and stay within
      the part of the old side that the walk has passed. */
  lemma {:induction false} WalkRemovedIncreasing(base: HunkAssignment, h: HunkHeader, supply: nat -> Uuid, lines: seq<Line>)
    ensures var w := WalkLines(base, h, supply, lines);
            var m := RemovedNums(w.out);
            StrictlyIncreasing(m) && forall i :: 0 <= i < |m| ==> h.oldStart <= m[i] < w.oldLine
  {
    if |lines| > 0 {
      var init, last := lines[..|lines| - 1], lines[|lines| - 1];
      WalkRemovedIncreasing(base, h, supply, init);
      var w0 := WalkLines(base, h, supply, init);
      var w := WalkLines(base, h, supply, lines);
      assert w == Step(base, supply, w0, last);
      var m0 := RemovedNums(w0.out);
      if IsChange(last) {
        var p := w.out[|w0.out|];
        assert w.out == w0.out + [p];
        RemovedNumsAppend(w0.out, p);
        if IsRemoval(last) {
          assert RemovedNums(w.out) == m0 + [w0.oldLine];
          AppendAbove(m0, h.oldStart, w0.oldLine);
        } else {
          assert RemovedNums(w.out) == m0;
        }
      } else {
        assert w.out == w0.out;
      }
    }
  }

  /** The assignment has a header and a diff with at least one added or removed line. */
  predicate Splits(base: HunkAssignment)
  {
    base.hunkHeader.Some? && base.diff.Some? && |ChangePositions(base.diff.value)| > 0
  }

  /** `split_into_line_selections(base)`: one selector per changed line, or
      the base itself when there is nothing to split. */
  function SplitIntoLineSelections(base: HunkAssignment, supply: nat -> Uuid): (r: seq<HunkAssignment>)
    ensures r == [base] <==> !Splits(base)
    ensures Splits(base) ==> |r| == |ChangePositions(base.diff.value)|
  {
    match (base.hunkHeader, base.diff)
    case (Some(h), Some(diff)) =>
      var w := WalkLines(base, h, supply, diff);
      if |w.out| == 0 then [base]
      else
        assert w.out[0].diff.None?;
        w.out
    case _ => [base]
  }

  /** Piece k of a split is the selector of the k-th added or removed line. */
  lemma SplitShape(base: HunkAssignment, supply: nat -> Uuid)
    requires Splits(base)
    ensures var r := SplitIntoLineSelections(base, supply);
            var lines := base.diff.value;
            var pos := ChangePositions(lines);
            forall k :: 0 <= k < |r| ==>
              r[k].id == PieceId(base, supply, k)
              && PieceFor(base, base.hunkHeader.value, lines, pos[k], r[k])
  {
    WalkPieces(base, base.hunkHeader.value, supply, base.diff.value);
    assert WalkPiecesHold(base, base.hunkHeader.value, supply, base.diff.value);
  }

  /** Every piece of a split is a selector spanning a single line, so it ranks
      as narrow as any assignment can. */
  lemma SplitPiecesAreSelectors(base: HunkAssignment, supply: nat -> Uuid)
    requires Splits(base)
    ensures var r := SplitIntoLineSelections(base, supply);
            forall k :: 0 <= k < |r| ==>
              r[k].hunkHeader.Some? && IsSelectorHunk(r[k].hunkHeader.value) && Rank(r[k]) == 1
  {
    var r := SplitIntoLineSelections(base, supply);
    var pos := ChangePositions(base.diff.value);
    SplitShape(base, supply);
    forall k | 0 <= k < |r|
      ensures r[k].hunkHeader.Some? && IsSelectorHunk(r[k].hunkHeader.value) && Rank(r[k]) == 1
    {
      assert IsChange(base.diff.value[pos[k]]);
    }
  }

  /** Added-line numbers across the pieces are strictly increasing and lie in
      the new-side range the body covers. */
  lemma SplitAddedIncreasing(base: HunkAssignment, supply: nat -> Uuid)
    requires Splits(base)
    ensures var a := AddedNums(SplitIntoLineSelections(base, supply));
            var h := base.hunkHeader.value;
            StrictlyIncreasing(a)
            && forall i :: 0 <= i < |a| ==> h.newStart <= a[i] < h.newStart + CountNew(base.diff.value)
  {
    WalkAddedIncreasing(base, base.hunkHeader.value, supply, base.diff.value);
  }

  /** Removed-line numbers across the pieces are strictly increasing and lie in
      the old-side range the body covers. */
  lemma SplitRemovedIncreasing(base: HunkAssignment, supply: nat -> Uuid)
    requires Splits(base)
    ensures var m := RemovedNums(SplitIntoLineSelections(base, supply));
            var h := base.hunkHeader.value;
            StrictlyIncreasing(m)
            && forall i :: 0 <= i < |m| ==> h.oldStart <= m[i] < h.oldStart + CountOld(base.diff.value)
  {
    WalkRemovedIncreasing(base, base.hunkHeader.value, supply, base.diff.value);
  }

  /** With a supply of distinct ids that never repeats the base id, every
      piece has an id, the first piece keeps the base id, no later piece
      carries it, and no two pieces share an id. */
  lemma SplitIdsDistinct(base: HunkAssignment, supply: nat -> Uuid)
    requires Splits(base)
    requires forall i, j :: supply(i) == supply(j) ==> i == j
    requires forall i :: base.id != Some(supply(i))
    ensures var r := SplitIntoLineSelections(base, supply);
            && (forall k :: 0 <= k < |r| ==> r[k].id.Some?)
            && (base.id.Some? ==> r[0].id == base.id)
            && (forall k :: 0 < k < |r| ==> r[k].id != base.id)
            && (forall k1, k2 :: 0 <= k1 < k2 < |r| ==> r[k1].id != r[k2].id)
  {
    SplitShape(base, supply);
  }
}
