/** The records the reconciler works on: hunk headers, hunk assignments and
    the opaque identifiers they carry. */
module Types {

  /** Rust's `Option`. */
  datatype Option<T> = None | Some(value: T)

  const U32_MAX: nat := 0xFFFF_FFFF

  /** The width of the header fields (`u32`). */
  type U32 = x: nat | x <= U32_MAX

  /** One byte of a diff or a path. */
  type Byte = b: int | 0 <= b < 256

  /** One line of a unified-diff hunk body, without its line terminator. */
  type Line = seq<Byte>

  /** Rust's `as u32` on a `usize`: keeps the low 32 bits. */
  function AsU32(n: nat): (r: U32)
    ensures n <= U32_MAX ==> r == n
    ensures (n - r) % 0x1_0000_0000 == 0
  {
    n % 0x1_0000_0000
  }

  /** Opaque identifiers, only ever compared for equality. */
  datatype StackId = StackId(raw: nat)
  datatype Uuid = Uuid(raw: nat)
  datatype HunkLock = HunkLock(stackId: StackId, commitId: nat)

  /** One side of a hunk header: a start line and a line count. */
  datatype HunkRange = HunkRange(start: U32, lines: U32)

  /** A unified-diff hunk header `@@ -oldStart,oldLines +newStart,newLines @@`. */
  datatype HunkHeader = HunkHeader(oldStart: U32, oldLines: U32, newStart: U32, newLines: U32)
  {
    function OldRange(): HunkRange { HunkRange(oldStart, oldLines) }
    function NewRange(): HunkRange { HunkRange(newStart, newLines) }
  }

  /** The assignment of one hunk (or one line of a hunk) of one file to a stack. */
  datatype HunkAssignment = HunkAssignment(
    id: Option<Uuid>,
    hunkHeader: Option<HunkHeader>,
    path: string,
    pathBytes: seq<Byte>,
    stackId: Option<StackId>,
    hunkLocks: Option<seq<HunkLock>>,
    lineNumsAdded: Option<seq<nat>>,
    lineNumsRemoved: Option<seq<nat>>,
    diff: Option<seq<Line>>)

  /** A stack id is acceptable when it is absent or names an applied stack. */
  predicate StackValid(s: Option<StackId>, applied: seq<StackId>)
  {
    s.None? || s.value in applied
  }
}
