/** Carrying the assignments made against the previous working-tree diff over
    onto the hunks of a freshly computed one (`assignments`,
    reconcile.rs:147-227). */
module Reconcile {
  import opened Types
  import opened Order
  import opened Ranking
  import opened Merge
  import opened LineSplit

  /** What to do with the stack when a new hunk overlaps several old ones. */
  datatype MultipleOverlapping = SetNone | SetMostLines

  /** `intersects(a, b)` stands for `a.intersects(b)`, whose definition is not
      part of this model. */
  type Intersects = (HunkAssignment, HunkAssignment) -> bool

  /** The assignments of `previous` that intersect `n`, in their original
      order: the old assignments overlapping a new one (reconcile.rs:157-160),
      and those overlapping one of its line pieces (reconcile.rs:170-174). */
  function Intersecting(previous: seq<HunkAssignment>, n: HunkAssignment, intersects: Intersects): (r: seq<HunkAssignment>)
    ensures |r| <= |previous|
    ensures forall i :: 0 <= i < |r| ==> r[i] in previous && intersects(r[i], n)
    ensures forall i :: 0 <= i < |previous| && intersects(previous[i], n) ==> previous[i] in r
  {
    Filter(previous, a => intersects(a, n))
  }

  /** Some intersecting assignment addresses single lines of one side. */
  predicate HasSelector(xs: seq<HunkAssignment>)
  {
    exists i :: 0 <= i < |xs| && xs[i].hunkHeader.Some? && IsSelectorHunk(xs[i].hunkHeader.value)
  }

  /** A new assignment with a diff that overlaps a selector is split into lines. */
  predicate TakesSelectorPath(n: HunkAssignment, xs: seq<HunkAssignment>)
  {
    n.diff.Some? && HasSelector(xs)
  }

  /** Filtering keeps the order of `previous`: the intersecting assignments of
      a concatenation are those of each part, part by part. The tie-breaks
      below ("first narrowest", "last with most new lines") are read off this
      order. */
  lemma IntersectingKeepsOrder(xs: seq<HunkAssignment>, ys: seq<HunkAssignment>, n: HunkAssignment,
                               intersects: Intersects)
    ensures Intersecting(xs + ys, n, intersects) == Intersecting(xs, n, intersects) + Intersecting(ys, n, intersects)
    ensures forall x :: Intersecting([x], n, intersects) == if intersects(x, n) then [x] else []
  {
    FilterAppend(xs, ys, a => intersects(a, n));
    forall x {
      FilterOne(x, a => intersects(a, n));
    }
  }

  /** One line piece of a split (reconcile.rs:169-186): the old assignments
      overlapping it are applied broadest first, so the narrowest one (the
      first of minimal rank) is applied last and decides locks, path and,
      when unassigned pieces may be updated, the stack. */
  function ReconcilePiece(piece: HunkAssignment, xs: seq<HunkAssignment>, applied: seq<StackId>,
                          updateUnassigned: bool, intersects: Intersects): (r: HunkAssignment)
    ensures r.hunkHeader == piece.hunkHeader && r.pathBytes == piece.pathBytes && r.diff == piece.diff
    ensures StackValid(r.stackId, applied)
    ensures var olds := Intersecting(xs, piece, intersects);
            |olds| == 0 ==> r == piece.(stackId := KeepApplied(piece.stackId, applied))
    ensures var olds := Intersecting(xs, piece, intersects);
            |olds| > 0 ==>
              var w := olds[FirstMinIndex(olds, Rank)];
              && r.hunkLocks == w.hunkLocks
              && r.path == w.path
              && (updateUnassigned ==> r.stackId == KeepApplied(w.stackId, applied))
              && (w.id.Some? ==> r.id == w.id)
              && (w.lineNumsAdded.Some? ==> r.lineNumsAdded == w.lineNumsAdded)
              && (w.lineNumsRemoved.Some? ==> r.lineNumsRemoved == w.lineNumsRemoved)
              && (piece.stackId.Some? && !updateUnassigned ==>
                    r.stackId == (if AllApplied(olds, applied) then w.stackId else None))
    ensures piece.stackId.None? && !updateUnassigned ==> r.stackId.None?
  {
    var olds := Intersecting(xs, piece, intersects);
    var sorted := SortByKey(olds, Rank);
    var merged := ApplyFromLast(piece, sorted, applied, updateUnassigned);
    SortHeadIsFirstMin(olds, Rank);
    AllAppliedPermutation(sorted, olds, applied);
    merged.(stackId := KeepApplied(merged.stackId, applied))
  }

  /** The position of the first old assignment for `path`, or `|previous|` when there is none. */
  function FirstPathIndex(previous: seq<HunkAssignment>, path: string): (i: nat)
    ensures i <= |previous|
    ensures forall j :: 0 <= j < i ==> previous[j].path != path
    ensures i < |previous| ==> previous[i].path == path
  {
    if |previous| == 0 then 0
    else if previous[0].path == path then 0
    else 1 + FirstPathIndex(previous[1..], path)
  }

  /** The key of `max_by_key`: the header's new-side line count, with a
      missing header ordered below every present one as `None < Some` is. */
  function NewLinesKey(a: HunkAssignment): (k: int)
    ensures a.hunkHeader.None? ==> k == -1
    ensures a.hunkHeader.Some? ==> k == a.hunkHeader.value.newLines
  {
    match a.hunkHeader
    case Some(h) => h.newLines
    case None => -1
  }

  /** The distinct stack ids among the assignments. */
  function StackIdsOf(xs: seq<HunkAssignment>): (s: set<StackId>)
    ensures forall x :: x in s <==> exists i :: 0 <= i < |xs| && xs[i].stackId == Some(x)
  {
    set i | 0 <= i < |xs| && xs[i].stackId.Some? :: xs[i].stackId.value
  }

  /** Two different members make a set larger than one. */
  lemma TwoMembers<T>(s: set<T>, a: T, b: T)
    requires a in s && b in s && a != b
    ensures |s| > 1
  {
    assert b in s - {a};
    assert |s - {a}| == |s| - 1;
  }

  /** A set larger than one has two different members. */
  lemma PickTwo<T>(s: set<T>) returns (a: T, b: T)
    requires |s| > 1
    ensures a in s && b in s && a != b
  {
    a :| a in s;
    assert |s - {a}| == |s| - 1;
    b :| b in s - {a};
  }

  /** More than one distinct stack id exactly when two of the assignments
      carry different stack ids. */
  lemma ManyStacks(xs: seq<HunkAssignment>)
    ensures |StackIdsOf(xs)| > 1 <==>
            exists i, j :: 0 <= i < |xs| && 0 <= j < |xs|
                           && xs[i].stackId.Some? && xs[j].stackId.Some? && xs[i].stackId != xs[j].stackId
  {
    var s := StackIdsOf(xs);
    if |s| > 1 {
      var x, y := PickTwo(s);
      var i :| 0 <= i < |xs| && xs[i].stackId == Some(x);
      var j :| 0 <= j < |xs| && xs[j].stackId == Some(y);
      assert xs[i].stackId != xs[j].stackId;
    }
    if exists i, j :: 0 <= i < |xs| && 0 <= j < |xs|
                      && xs[i].stackId.Some? && xs[j].stackId.Some? && xs[i].stackId != xs[j].stackId {
      var i, j :| 0 <= i < |xs| && 0 <= j < |xs|
                  && xs[i].stackId.Some? && xs[j].stackId.Some? && xs[i].stackId != xs[j].stackId;
      TwoMembers(s, xs[i].stackId.value, xs[j].stackId.value);
    }
  }

  /** Several intersecting assignments (reconcile.rs:206-222). */
  function ResolveMany(n: HunkAssignment, xs: seq<HunkAssignment>, applied: seq<StackId>,
                       resolution: MultipleOverlapping, updateUnassigned: bool): (r: HunkAssignment)
    requires |xs| > 0
    ensures var m := SetFrom(n, xs[LastMaxIndex(xs, NewLinesKey)], applied, updateUnassigned);
            && r.(stackId := m.stackId) == m
            && (resolution == SetNone && |StackIdsOf(xs)| > 1 ==> r.stackId.None?)
            && (!(resolution == SetNone && |StackIdsOf(xs)| > 1) ==> r.stackId == m.stackId)
  {
    var best := xs[LastMaxIndex(xs, NewLinesKey)];
    var m := SetFrom(n, best, applied, updateUnassigned);
    if resolution == SetNone && |StackIdsOf(xs)| > 1 then m.(stackId := None) else m
  }

  /** Every new assignment yields the line pieces of a split or exactly one
      reconciled assignment for its own hunk. */
  function ReconcileOne(n: HunkAssignment, previous: seq<HunkAssignment>, applied: seq<StackId>,
                        resolution: MultipleOverlapping, updateUnassigned: bool,
                        intersects: Intersects, supply: nat -> Uuid): (r: seq<HunkAssignment>)
    ensures |r| >= 1
    ensures !TakesSelectorPath(n, Intersecting(previous, n, intersects)) ==>
              && |r| == 1
              && r[0].hunkHeader == n.hunkHeader && r[0].pathBytes == n.pathBytes && r[0].diff == n.diff
    ensures StackValid(n.stackId, applied) ==> forall k :: 0 <= k < |r| ==> StackValid(r[k].stackId, applied)
  {
    var xs := Intersecting(previous, n, intersects);
    if TakesSelectorPath(n, xs) then
      var pieces := SplitIntoLineSelections(n, supply);
      seq(|pieces|, k requires 0 <= k < |pieces| =>
        ReconcilePiece(pieces[k], xs, applied, updateUnassigned, intersects))
    else if |xs| == 0 then
      var i := FirstPathIndex(previous, n.path);
      [if i < |previous| then n.(hunkLocks := previous[i].hunkLocks) else n]
    else if |xs| == 1 then
      [SetFrom(n, xs[0], applied, updateUnassigned)]
    else
      [ResolveMany(n, xs, applied, resolution, updateUnassigned)]
  }

  /** A new assignment overlapping a selector is split into its line pieces,
      each keeping its own selector header and ending with an applied stack or
      none. */
  lemma ReconcileSplit(n: HunkAssignment, previous: seq<HunkAssignment>, applied: seq<StackId>,
                       resolution: MultipleOverlapping, updateUnassigned: bool,
                       intersects: Intersects, supply: nat -> Uuid)
    requires TakesSelectorPath(n, Intersecting(previous, n, intersects))
    ensures var r := ReconcileOne(n, previous, applied, resolution, updateUnassigned, intersects, supply);
            var pieces := SplitIntoLineSelections(n, supply);
            && |r| == |pieces|
            && forall k :: 0 <= k < |r| ==>
                 r[k] == ReconcilePiece(pieces[k], Intersecting(previous, n, intersects), applied, updateUnassigned, intersects)
                 && r[k].hunkHeader == pieces[k].hunkHeader && StackValid(r[k].stackId, applied)
  {
  }

  /** Without any intersecting assignment the stack is kept and only the locks
      of the first previous assignment for the same path are taken over. */
  lemma ReconcileNoOverlap(n: HunkAssignment, previous: seq<HunkAssignment>, applied: seq<StackId>,
                           resolution: MultipleOverlapping, updateUnassigned: bool,
                           intersects: Intersects, supply: nat -> Uuid)
    requires |Intersecting(previous, n, intersects)| == 0
    ensures var r := ReconcileOne(n, previous, applied, resolution, updateUnassigned, intersects, supply);
            var i := FirstPathIndex(previous, n.path);
            && |r| == 1
            && r[0].(hunkLocks := n.hunkLocks) == n
            && r[0].stackId == n.stackId
            && (i < |previous| ==> r[0].hunkLocks == previous[i].hunkLocks)
            && (i == |previous| ==> r[0] == n)
  {
  }

  /** With exactly one intersecting assignment, its information is merged in. */
  lemma ReconcileSingleOverlap(n: HunkAssignment, previous: seq<HunkAssignment>, applied: seq<StackId>,
                               resolution: MultipleOverlapping, updateUnassigned: bool,
                               intersects: Intersects, supply: nat -> Uuid)
    requires var xs := Intersecting(previous, n, intersects);
             !TakesSelectorPath(n, xs) && |xs| == 1
    ensures var r := ReconcileOne(n, previous, applied, resolution, updateUnassigned, intersects, supply);
            var xs := Intersecting(previous, n, intersects);
            r == [SetFrom(n, xs[0], applied, updateUnassigned)] && StackValid(r[0].stackId, applied)
  {
  }

  /** With several intersecting assignments, the last one spanning the most
      new-side lines is merged in; under `SetNone` disagreeing stacks leave the
      hunk unassigned. */
  lemma ReconcileManyOverlap(n: HunkAssignment, previous: seq<HunkAssignment>, applied: seq<StackId>,
                             resolution: MultipleOverlapping, updateUnassigned: bool,
                             intersects: Intersects, supply: nat -> Uuid)
    requires var xs := Intersecting(previous, n, intersects);
             !TakesSelectorPath(n, xs) && |xs| > 1
    ensures var r := ReconcileOne(n, previous, applied, resolution, updateUnassigned, intersects, supply);
            var xs := Intersecting(previous, n, intersects);
            var m := SetFrom(n, xs[LastMaxIndex(xs, NewLinesKey)], applied, updateUnassigned);
            && |r| == 1
            && r[0].(stackId := m.stackId) == m
            && StackValid(r[0].stackId, applied)
            && (resolution == SetNone && |StackIdsOf(xs)| > 1 ==> r[0].stackId.None?)
            && (!(resolution == SetNone && |StackIdsOf(xs)| > 1) ==> r[0].stackId == m.stackId)
  {
  }

  /** The fresh ids available to the new assignment at position i. */
  function SupplyFor(supply: (nat, nat) -> Uuid, i: nat): nat -> Uuid
  {
    (k: nat) => supply(i, k)
  }

  /** What the driver does with the new assignment at position i. */
  function Reconciler(previous: seq<HunkAssignment>, applied: seq<StackId>, resolution: MultipleOverlapping,
                      updateUnassigned: bool, intersects: Intersects,
                      supply: (nat, nat) -> Uuid): (HunkAssignment, nat) -> seq<HunkAssignment>
  {
    (n: HunkAssignment, i: nat) =>
      ReconcileOne(n, previous, applied, resolution, updateUnassigned, intersects, SupplyFor(supply, i))
  }

  /** `assignments(new, old, applied_stack_ids, resolution, update_unassigned)`:
      the new assignments are reconciled one after the other and their results
      concatenated. */
  function Assignments(current: seq<HunkAssignment>, previous: seq<HunkAssignment>, applied: seq<StackId>,
                       resolution: MultipleOverlapping, updateUnassigned: bool,
                       intersects: Intersects, supply: (nat, nat) -> Uuid): (r: seq<HunkAssignment>)
    ensures |r| >= |current|
  {
    var f := Reconciler(previous, applied, resolution, updateUnassigned, intersects, supply);
    assert forall i :: 0 <= i < |current| ==> |f(current[i], i)| >= 1;
    FlatMapIndexed(current, f)
  }

  /** No new assignment is split into lines. */
  predicate NoSelectorPath(current: seq<HunkAssignment>, previous: seq<HunkAssignment>, intersects: Intersects)
  {
    forall i :: 0 <= i < |current| ==> !TakesSelectorPath(current[i], Intersecting(previous, current[i], intersects))
  }

  /** When nothing is split, every new assignment yields exactly one output,
      at its own position and for its own hunk. */
  lemma AssignmentsOnePerHunk(current: seq<HunkAssignment>, previous: seq<HunkAssignment>,
                              applied: seq<StackId>, resolution: MultipleOverlapping,
                              updateUnassigned: bool, intersects: Intersects,
                              supply: (nat, nat) -> Uuid)
    requires NoSelectorPath(current, previous, intersects)
    ensures var r := Assignments(current, previous, applied, resolution, updateUnassigned, intersects, supply);
            && |r| == |current|
            && (forall i :: 0 <= i < |current| ==>
                  r[i] == ReconcileOne(current[i], previous, applied, resolution, updateUnassigned, intersects,
                                       SupplyFor(supply, i))[0])
            && (forall i :: 0 <= i < |current| ==>
                  r[i].hunkHeader == current[i].hunkHeader && r[i].pathBytes == current[i].pathBytes
                  && r[i].diff == current[i].diff)
  {
    var f := Reconciler(previous, applied, resolution, updateUnassigned, intersects, supply);
    forall i | 0 <= i < |current|
      ensures |f(current[i], i)| == 1
      ensures f(current[i], i)[0].hunkHeader == current[i].hunkHeader
      ensures f(current[i], i)[0].pathBytes == current[i].pathBytes
      ensures f(current[i], i)[0].diff == current[i].diff
    {
      assert !TakesSelectorPath(current[i], Intersecting(previous, current[i], intersects));
    }
    FlatMapOnePer(current, f);
  }

  /** When every new assignment starts with an applied stack or none, so does
      every output. */
  lemma AssignmentsKeepStacksValid(current: seq<HunkAssignment>, previous: seq<HunkAssignment>,
                                   applied: seq<StackId>, resolution: MultipleOverlapping,
                                   updateUnassigned: bool, intersects: Intersects,
                                   supply: (nat, nat) -> Uuid)
    requires forall i :: 0 <= i < |current| ==> StackValid(current[i].stackId, applied)
    ensures var r := Assignments(current, previous, applied, resolution, updateUnassigned, intersects, supply);
            forall j :: 0 <= j < |r| ==> StackValid(r[j].stackId, applied)
  {
    var f := Reconciler(previous, applied, resolution, updateUnassigned, intersects, supply);
    var p := (a: HunkAssignment) => StackValid(a.stackId, applied);
    forall i, j | 0 <= i < |current| && 0 <= j < |f(current[i], i)|
      ensures p(f(current[i], i)[j])
    {
      assert StackValid(current[i].stackId, applied);
    }
    FlatMapAll(current, f, p);
  }

  /** The outputs for `current[i]` follow those of every earlier new assignment
      and precede those of every later one; those of the last new assignment
      end the result, so nothing else is returned. */
  lemma AssignmentsInOrder(current: seq<HunkAssignment>, previous: seq<HunkAssignment>, applied: seq<StackId>,
                           resolution: MultipleOverlapping, updateUnassigned: bool,
                           intersects: Intersects, supply: (nat, nat) -> Uuid, i: nat)
    requires i < |current|
    ensures var before := Assignments(current[..i], previous, applied, resolution, updateUnassigned, intersects, supply);
            var mine := ReconcileOne(current[i], previous, applied, resolution, updateUnassigned, intersects, SupplyFor(supply, i));
            && before + mine <= Assignments(current, previous, applied, resolution, updateUnassigned, intersects, supply)
            && (i == |current| - 1 ==>
                  before + mine == Assignments(current, previous, applied, resolution, updateUnassigned, intersects, supply))
  {
    var f := Reconciler(previous, applied, resolution, updateUnassigned, intersects, supply);
    FlatMapInOrder(current, f, i);
  }
}
