/** Carrying one assignment's information over onto another: the field rule of
    `HunkAssignment::set_from` (reconcile.rs:18-53) and its repeated
    application to a line piece (reconcile.rs:179-186). */
module Merge {
  import opened Types

  /** The guard that drops a stack id naming a stack that is no longer applied. */
  function KeepApplied(s: Option<StackId>, applied: seq<StackId>): (r: Option<StackId>)
    ensures StackValid(r, applied)
    ensures StackValid(s, applied) ==> r == s
    ensures r.Some? ==> r == s
  {
    if s.Some? && s.value !in applied then None else s
  }

  /** `self.set_from(other, applied_stack_ids, update_unassigned)`. */
  function SetFrom(self: HunkAssignment, other: HunkAssignment, applied: seq<StackId>,
                   updateUnassigned: bool): (r: HunkAssignment)
    // never touched
    ensures r.hunkHeader == self.hunkHeader && r.pathBytes == self.pathBytes && r.diff == self.diff
    // always overwritten
    ensures r.hunkLocks == other.hunkLocks && r.path == other.path
    // overwritten only by a present value
    ensures other.id.Some? ==> r.id == other.id
    ensures other.id.None? ==> r.id == self.id
    ensures other.lineNumsAdded.Some? ==> r.lineNumsAdded == other.lineNumsAdded
    ensures other.lineNumsAdded.None? ==> r.lineNumsAdded == self.lineNumsAdded
    ensures other.lineNumsRemoved.Some? ==> r.lineNumsRemoved == other.lineNumsRemoved
    ensures other.lineNumsRemoved.None? ==> r.lineNumsRemoved == self.lineNumsRemoved
    // the stack rule
    ensures StackValid(r.stackId, applied)
    ensures r.stackId.Some? ==> r.stackId == other.stackId
    ensures (self.stackId.Some? || updateUnassigned) && StackValid(other.stackId, applied) ==>
              r.stackId == other.stackId
    ensures self.stackId.None? && !updateUnassigned ==> r.stackId.None?
  {
    var stack :=
      match self.stackId
      case Some(_) => other.stackId
      case None => if updateUnassigned then other.stackId else self.stackId;
    self.(hunkLocks := other.hunkLocks,
          path := other.path,
          id := if other.id.Some? then other.id else self.id,
          lineNumsAdded := if other.lineNumsAdded.Some? then other.lineNumsAdded else self.lineNumsAdded,
          lineNumsRemoved := if other.lineNumsRemoved.Some? then other.lineNumsRemoved else self.lineNumsRemoved,
          stackId := KeepApplied(stack, applied))
  }

  /** Merging the same assignment twice changes nothing further. */
  lemma SetFromIdempotent(self: HunkAssignment, other: HunkAssignment, applied: seq<StackId>,
                          updateUnassigned: bool)
    ensures var once := SetFrom(self, other, applied, updateUnassigned);
            SetFrom(once, other, applied, updateUnassigned) == once
  {
  }

  /** Every assignment carries a stack, and that stack is applied. */
  predicate AllApplied(xs: seq<HunkAssignment>, applied: seq<StackId>)
  {
    forall i :: 0 <= i < |xs| ==> xs[i].stackId.Some? && xs[i].stackId.value in applied
  }

  /** Whether all assignments carry an applied stack does not depend on their order. */
  lemma AllAppliedPermutation(xs: seq<HunkAssignment>, ys: seq<HunkAssignment>, applied: seq<StackId>)
    requires multiset(xs) == multiset(ys)
    ensures AllApplied(xs, applied) <==> AllApplied(ys, applied)
  {
    forall i | 0 <= i < |xs|
      ensures xs[i] in ys
    {
      assert xs[i] in multiset(xs);
    }
    forall i | 0 <= i < |ys|
      ensures ys[i] in xs
    {
      assert ys[i] in multiset(ys);
    }
  }

  /** Applies the assignments of `sorted` from the last one to the first, as
      `for old in old_for_piece.into_iter().rev()` does; `sorted[0]` is
      applied last. */
  function ApplyFromLast(piece: HunkAssignment, sorted: seq<HunkAssignment>, applied: seq<StackId>,
                         updateUnassigned: bool): (r: HunkAssignment)
    ensures |sorted| == 0 ==> r == piece
    ensures r.hunkHeader == piece.hunkHeader && r.pathBytes == piece.pathBytes && r.diff == piece.diff
    ensures |sorted| > 0 ==> r.hunkLocks == sorted[0].hunkLocks && r.path == sorted[0].path
    ensures |sorted| > 0 ==> StackValid(r.stackId, applied)
    ensures |sorted| > 0 && updateUnassigned ==> r.stackId == KeepApplied(sorted[0].stackId, applied)
    ensures piece.stackId.None? && !updateUnassigned ==> r.stackId.None?
    // the first element, applied last, overrides every value it has
    ensures |sorted| > 0 && sorted[0].id.Some? ==> r.id == sorted[0].id
    ensures |sorted| > 0 && sorted[0].lineNumsAdded.Some? ==> r.lineNumsAdded == sorted[0].lineNumsAdded
    ensures |sorted| > 0 && sorted[0].lineNumsRemoved.Some? ==> r.lineNumsRemoved == sorted[0].lineNumsRemoved
    // an assigned piece that may not take unassigned updates keeps a stack
    // only while every element hands it an applied one
    ensures |sorted| > 0 && piece.stackId.Some? && !updateUnassigned ==>
              r.stackId == (if AllApplied(sorted, applied) then sorted[0].stackId else None)
    decreases |sorted|
  {
    if |sorted| == 0 then piece
    else
      var last := |sorted| - 1;
      ApplyFromLast(SetFrom(piece, sorted[last], applied, updateUnassigned), sorted[..last],
                    applied, updateUnassigned)
  }

  /** Without permission to update unassigned pieces, a broader assignment
      without a stack, applied first, clears an assigned piece's stack, and the
      narrower assignment applied after it cannot restore it, whatever stack
      it carries. */
  lemma {:induction false} BroadUnassignedClearsStack(piece: HunkAssignment, narrow: HunkAssignment,
                                                      broad: HunkAssignment, applied: seq<StackId>)
    requires piece.stackId.Some? && broad.stackId.None?
    ensures ApplyFromLast(piece, [narrow, broad], applied, false).stackId.None?
  {
    var once := SetFrom(piece, broad, applied, false);
    assert once.stackId.None?;
    assert [narrow, broad][..1] == [narrow];
    assert ApplyFromLast(piece, [narrow, broad], applied, false) == ApplyFromLast(once, [narrow], applied, false);
  }
}
