/** Classification and ranking of hunk headers (reconcile.rs:56-68 and the
    sort key at reconcile.rs:175-178). */
module Ranking {
  import opened Types

  /** A range is null when it starts at line 0 and spans no line; this is the
      shape of the unused side of a per-line selector header. */
  predicate IsNull(r: HunkRange)
  {
    r.start == 0 && r.lines == 0
  }

  /** A selector header addresses lines of one side only. */
  predicate IsSelectorHunk(h: HunkHeader)
  {
    IsNull(h.OldRange()) || IsNull(h.NewRange())
  }

  function Max(a: nat, b: nat): nat
  {
    if a < b then b else a
  }

  /** How many lines a header spans. Since a null side spans no line, every
      branch of the definition is the wider of the two sides. */
  function Specificity(h: HunkHeader): (s: U32)
    ensures s == Max(h.oldLines, h.newLines)
    ensures IsSelectorHunk(h) ==> s == h.oldLines + h.newLines
  {
    if IsNull(h.OldRange()) then h.newLines
    else if IsNull(h.NewRange()) then h.oldLines
    else Max(h.oldLines, h.newLines)
  }

  /** The sort key for assignments applied to a line piece: the header's
      specificity, and `u32::MAX` for an assignment without a header, which
      therefore counts as the broadest of all. */
  function Rank(a: HunkAssignment): (r: int)
    ensures 0 <= r <= U32_MAX
    ensures a.hunkHeader.None? ==> r == U32_MAX
    ensures a.hunkHeader.Some? ==> r == Max(a.hunkHeader.value.oldLines, a.hunkHeader.value.newLines)
  {
    match a.hunkHeader
    case Some(h) => Specificity(h)
    case None => U32_MAX
  }
}
