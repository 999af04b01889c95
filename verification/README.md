# Hunk-assignment reconciler

A Dafny model of the reconciler in `crates/but-hunk-assignment/src/reconcile.rs`.
Each time the working-tree diff is recomputed, the reconciler carries stack
assignments made earlier over onto the new hunks. Those earlier assignments
can cover a whole hunk or single lines of one. The model has three parts:

- **Line selections** (module `LineSplit`). `split_into_line_selections` walks
  a hunk body. It keeps an old-side and a new-side line counter, and turns
  every `+` and `-` line into a one-line "selector" assignment: header
  `(0, 0, n, 1)` for an addition and `(m, 1, 0, 0)` for a removal.
- **Merging and ranking** (modules `Merge` and `Ranking`):
  - `HunkAssignment::set_from` decides which fields are copied from the other
    assignment. Its stack rule guarantees that a stack id always names an
    applied stack, or is absent.
  - `is_selector_hunk` and `specificity` classify headers and rank them by
    breadth.
- **The driver** (module `Reconcile`). `assignments` looks at each new hunk in
  turn:
  - If the hunk has a diff and overlaps a selector, it goes down the
    selector path. There it is split into line pieces, unless it has no
    header or its diff has no `+` or `-` line, in which case it passes
    through whole as a single piece, with the hunk's own header. Each piece
    is then reconciled against those overlapping old assignments that also
    intersect the piece itself: they are applied to it broadest first, so
    the narrowest one is applied last. It always decides locks and path, and also id and line
    numbers where it has them. It decides the stack when unassigned pieces
    may be updated. When they may not, an assigned piece keeps a stack only if
    every overlapping old assignment hands it an applied one (see
    `Merge.BroadUnassignedClearsStack`).
  - Otherwise, the hunk falls into one of three cases: no overlap, exactly one
    overlap, or several overlaps.

Module `Order` holds the generic sequence operations the driver uses:
- a filter;
- a stable sort by key and its first minimum;
- `max_by_key`'s last maximum;
- an indexed flat-map.

Module `Scenario` replays the per-line assignment of the integration test
`sub_hunk_assignment.rs`. Two adjacent added lines, assigned to different
stacks, each keep their own stack after reconciliation.

The model uses these representations:
- Records are immutable datatypes (`Types`).
- A hunk body is a sequence of byte lines.
- `Uuid::new_v4` becomes a supply function:
  - `split_into_line_selections` takes it indexed by piece number.
  - `assignments` takes it indexed by the position of the new assignment and
    by the piece number.
- `HunkAssignment::intersects` is a parameter of the driver.

## Model

| member | source | states |
|---|---|---|
| Types.AsU32 | crates/but-hunk-assignment/src/reconcile.rs:92 | the `as u32` cast of a line counter keeps values up to `u32::MAX` unchanged and in general keeps the low 32 bits (it differs from the counter by a multiple of 2^32) |
| Ranking.Specificity | crates/but-hunk-assignment/src/reconcile.rs:56-68 | a selector header is one with a null side (starting at 0 and spanning no line); a header's specificity is the larger of its two line counts, and for a selector it is the sum of the two, since the null side counts zero |
| Ranking.Rank | crates/but-hunk-assignment/src/reconcile.rs:175-178 | the sort key is the specificity for an assignment with a header and `u32::MAX` without one, so header-less assignments rank broadest |
| Merge.KeepApplied | crates/but-hunk-assignment/src/reconcile.rs:47-52 | the result is absent or an applied stack; a valid stack id is kept unchanged; a present result is the input |
| Merge.SetFrom | crates/but-hunk-assignment/src/reconcile.rs:18-53 | header, path bytes and diff are untouched; locks and path are always copied; id and line numbers are copied only when present in `other`; an assigned target (or any target when unassigned ones may be updated) takes `other`'s stack when that stack is applied; an unassigned target without that permission stays unassigned; the result's stack is applied or absent |
| Merge.SetFromIdempotent | crates/but-hunk-assignment/src/reconcile.rs:18-53 | merging the same assignment a second time changes nothing |
| Merge.BroadUnassignedClearsStack | crates/but-hunk-assignment/src/reconcile.rs:36-46 | when unassigned pieces may not be updated, a broader assignment without a stack applied first clears an assigned piece's stack, and the narrower one applied last leaves it cleared |
| Merge.ApplyFromLast | crates/but-hunk-assignment/src/reconcile.rs:179-181 | applying a sorted list from its end leaves the piece's header, path bytes and diff alone; the list's first element, applied last, decides locks and path and, where it has them, id and line numbers; when unassigned pieces may be updated it also decides the stack (if applied); otherwise an unassigned piece stays unassigned, and an assigned piece ends with the first element's stack if every element carries an applied stack, and with none if not |
| Order.Filter | crates/but-hunk-assignment/src/reconcile.rs:157-160 | every kept element comes from the input and satisfies the predicate, and every input element that satisfies it is kept |
| Order.FilterAppend | crates/but-hunk-assignment/src/reconcile.rs:157-160 | filtering a concatenation is the concatenation of the filtered parts, so kept elements stay in input order and multiplicity |
| Order.SortByKey | crates/but-hunk-assignment/src/reconcile.rs:175-178 | the result is a permutation of the input, ordered by the key |
| Order.SortStable | crates/but-hunk-assignment/src/reconcile.rs:175-178 | the sort is stable: for every key, the elements with that key appear in the same order as in the input |
| Order.SortHeadIsFirstMin | crates/but-hunk-assignment/src/reconcile.rs:175-181 | after the stable sort the head is the first element of minimal key, which is therefore the last one applied by the reversed loop |
| Order.FirstMinIndex | crates/but-hunk-assignment/src/reconcile.rs:175-178 | the index holds a minimal key and every earlier element has a strictly larger key |
| Order.LastMaxIndex | crates/but-hunk-assignment/src/reconcile.rs:208-210 | the index holds a maximal key and every later element has a strictly smaller key, as `max_by_key` returns the last maximum |
| LineSplit.ChangePositions | crates/but-hunk-assignment/src/reconcile.rs:84-124 | the positions of the `+` and `-` lines, strictly increasing, and every change line is among them |
| LineSplit.Step | crates/but-hunk-assignment/src/reconcile.rs:80-137 | one line advances the new counter unless it starts with `-`, `@` or `\` or is empty, and the old counter unless it starts with `+`, `@` or `\` or is empty; only a change line appends a piece, the selector at the current counters, whose id is the pending base id or a fresh one; the pending id is used up by the first piece |
| LineSplit.WalkLines | crates/but-hunk-assignment/src/reconcile.rs:75-138 | after the walk each counter is the header start plus the number of lines on its side, one piece exists per change line, and every piece has no diff |
| LineSplit.WalkPieces | crates/but-hunk-assignment/src/reconcile.rs:79-124 | piece k is the selector for the k-th change line, numbered by the counters as they stood before that line, with the k-th id of the supply rule |
| LineSplit.WalkAddedIncreasing | crates/but-hunk-assignment/src/reconcile.rs:99-103 | the added-line numbers across pieces are strictly increasing and lie between the new start and the final new counter |
| LineSplit.WalkRemovedIncreasing | crates/but-hunk-assignment/src/reconcile.rs:120-123 | the removed-line numbers across pieces are strictly increasing and lie between the old start and the final old counter |
| LineSplit.SplitIntoLineSelections | crates/but-hunk-assignment/src/reconcile.rs:70-145 | the result is exactly `[base]` if and only if the base lacks a header or a diff or its diff has no change line; otherwise there is one piece per change line |
| LineSplit.SplitShape | crates/but-hunk-assignment/src/reconcile.rs:85-124 | each piece is the one-line selector of its change line: header `(0,0,n as u32,1)` with added `[n]` and removed `[]` for `+`, `(m as u32,1,0,0)` with added `[]` and removed `[m]` for `-`, where `n` and `m` are the new and old line counters; path, path bytes, stack and locks copied from the base; no diff |
| LineSplit.SplitPiecesAreSelectors | crates/but-hunk-assignment/src/reconcile.rs:89-114 | every piece's header is a selector and ranks 1, the narrowest possible |
| LineSplit.SplitAddedIncreasing | crates/but-hunk-assignment/src/reconcile.rs:99-103 | added-line numbers across the pieces are strictly increasing |
| LineSplit.SplitRemovedIncreasing | crates/but-hunk-assignment/src/reconcile.rs:120-123 | removed-line numbers across the pieces are strictly increasing |
| LineSplit.SplitIdsDistinct | crates/but-hunk-assignment/src/reconcile.rs:79-106 | with distinct fresh ids unequal to the base id, every piece has an id, the first piece has the base's id when it has one, no later piece has it, and all piece ids differ |
| Reconcile.Intersecting | crates/but-hunk-assignment/src/reconcile.rs:157-174 | every kept assignment is an old one that intersects the given assignment (a new hunk or one of its line pieces), and every old one that intersects it is kept |
| Reconcile.IntersectingKeepsOrder | crates/but-hunk-assignment/src/reconcile.rs:157-174 | the intersecting assignments of a concatenation are those of each part in turn, and one assignment is kept exactly when it intersects; so the old assignments keep their order, which the first-narrowest and last-most-lines tie-breaks read |
| Reconcile.ReconcilePiece | crates/but-hunk-assignment/src/reconcile.rs:169-186 | a piece keeps its header, path bytes and diff and ends with an applied stack or none; without overlap only the stack guard applies; otherwise the first narrowest old assignment decides locks and path, its id and line numbers where it has them, and its stack when unassigned pieces may be updated; when they may not, an unassigned piece stays unassigned and an assigned piece keeps the narrowest one's stack only if every overlapping old assignment carries an applied stack |
| Reconcile.FirstPathIndex | crates/but-hunk-assignment/src/reconcile.rs:195-199 | the index of the first old assignment for the path, or the length when there is none |
| Reconcile.NewLinesKey | crates/but-hunk-assignment/src/reconcile.rs:210 | the `max_by_key` key orders a missing header below every header |
| Reconcile.StackIdsOf | crates/but-hunk-assignment/src/reconcile.rs:216 | a stack id is in the set exactly when some assignment carries it |
| Reconcile.ManyStacks | crates/but-hunk-assignment/src/reconcile.rs:216-218 | more than one distinct stack id exactly when two assignments carry different stack ids |
| Reconcile.ResolveMany | crates/but-hunk-assignment/src/reconcile.rs:206-222 | the result is the merge from the last assignment with the most new lines, except that under `SetNone` with disagreeing stacks the stack is cleared |
| Reconcile.ReconcileOne | crates/but-hunk-assignment/src/reconcile.rs:155-224 | a new assignment yields at least one output, exactly one for its own hunk when not split, and only applied stacks or none when its own stack was applied or none |
| Reconcile.ReconcileSplit | crates/but-hunk-assignment/src/reconcile.rs:162-189 | a hunk with a diff that overlaps a selector yields one output per piece of its line split (its line selectors, or the whole hunk when it has no header or no change line); each output is its piece reconciled against the overlapping old assignments that also intersect that piece, and keeps the piece's own header and an applied stack or none |
| Reconcile.ReconcileNoOverlap | crates/but-hunk-assignment/src/reconcile.rs:193-202 | with no overlap only the locks change, taken from the first old assignment for the same path if any; the stack is unchanged |
| Reconcile.ReconcileSingleOverlap | crates/but-hunk-assignment/src/reconcile.rs:203-205 | with one overlap the result is `set_from` that assignment |
| Reconcile.ReconcileManyOverlap | crates/but-hunk-assignment/src/reconcile.rs:206-222 | with several overlaps the result is `set_from` the last one with the most new lines; under `SetNone`, more than one distinct stack among them leaves no stack, otherwise the merged stack stays |
| Reconcile.Assignments | crates/but-hunk-assignment/src/reconcile.rs:147-227 | there are at least as many outputs as new assignments, each new assignment yielding at least one |
| Reconcile.AssignmentsOnePerHunk | crates/but-hunk-assignment/src/reconcile.rs:192-224 | when nothing is split, output i is the single result of reconciling new assignment i on its own (so the zero, one and many cases apply to it position by position), with its own header, path bytes and diff |
| Reconcile.AssignmentsKeepStacksValid | crates/but-hunk-assignment/src/reconcile.rs:147-227 | when every new assignment's stack is applied or absent, so is every output's |
| Reconcile.AssignmentsInOrder | crates/but-hunk-assignment/src/reconcile.rs:154-226 | the outputs of new assignment i follow those of all earlier new assignments, so the order of the new assignments is preserved; the outputs of the last new assignment end the result, so the result is exactly the per-assignment results concatenated in order |
| Scenario.EachLineKeepsItsStack | crates/gitbutler-branch-actions/tests/virtual_branches/sub_hunk_assignment.rs:102-137 | a hunk with two added lines 4 and 5, stored per line to stacks B and A, reconciles into the two selectors `(0,0,4,1)` on B and `(0,0,5,1)` on A |
| Scenario.TestHunkKeepsItsStacks | crates/gitbutler-branch-actions/tests/virtual_branches/sub_hunk_assignment.rs:102-137 | the same outcome for the literal hunk body `@@ -1,3 +1,5 @@`, three context lines and two added lines |

## Left out

- `HunkAssignment::intersects` is not part of this model. The driver takes it as a parameter. The scenario stands it in with an overlap of new-side ranges within one file.
- `HunkRange::is_null` is not part of this model. It is taken as `start == 0 && lines == 0`. That is the shape of the unused side of the selector headers built at reconcile.rs:89-94 and 109-114.
- `Uuid::new_v4` is a supply function of the piece number. It is not randomness. Distinct ids are assumed only by `LineSplit.SplitIdsDistinct`, which states the assumption as its precondition.
- `bstr` line splitting is not modelled. A hunk body is given already split into byte lines.
- `itertools::unique` is modelled as a set of stack ids, and `max_by_key` as an explicit last-maximum index.
- `usize` overflow of the line counters is not modelled. The counters are unbounded. Only the `as u32` cast into the header is written out, as `Types.AsU32`.
- Reconcile.ReconcilePiece: does not state the piece's id or line numbers when the narrowest old assignment lacks them. They then come from the next narrowest that has them, in the order the stable sort leaves; `Order.SortStable` states that order but it is not unfolded into the contract.
- Reconcile.ReconcileOne: its stack guarantee needs the new assignment's own stack to be applied or absent. In the no-overlap case the source keeps that stack without checking it against the applied stacks.
- Scenario.EachLineKeepsItsStack: the repository setup, commits, pushes and unapply steps of the integration test are I/O and are not part of this model. The lemma assumes unassigned hunks may be updated. The test's call reaches the reconciler through code that is not part of this model.
