/** Outcomes of the routines: a value, or the exception that the source raises. */
module Results {

  /** One constructor per distinct `raise` of the codecs, scanners and builders, plus the two
      exceptions of Python itself that malformed input provokes. */
  datatype Fault =
    | ShapeError            // TypeError or IndexError: a cell or row of the wrong shape
    | StructError           // struct.error: short buffer, or a value too wide for its field
    | SlicesNotContiguous
    | NegativeLength
    | EmptyPack
    | MembershipOverlap
    | BlobIdRegressed
    | SparseNotMonotonic
    | MalformedDescriptor
    | BadDescriptorHeader
    | BadMembershipRange
    | EmptySparse
    | CountMismatch
    | MembershipClash
    | MarkerMismatch
    | MembershipIncomplete
    | TruncatedRecord
    | BadMagic
    | RecordEscapes
    | NotEligible
    | SizesDiffer
    | DigestMismatch
    | ChecksumMismatch
    | BlobTableDrift
    | FramingDisagrees
    | SpanDrift
    | ReservedInUse
    | LocalityViolated
    | InverseSizeDrift
    | NegativeField
    | DoesNotReconcile
    | OwnerUnknown
    | BadOwner
    | BadPathPrefix
    | SizeUnknown

  datatype Result<+T> = Ok(value: T) | Raised(fault: Fault) {
    predicate IsFailure() {
      Raised?
    }

    function PropagateFailure<U>(): Result<U>
      requires Raised?
    {
      Raised(fault)
    }

    function Extract(): T
      requires Ok?
    {
      value
    }
  }

  datatype Option<+T> = None | Some(value: T)

  /** The result `r` of the rest of a loop, once `done` has already been appended. */
  function Prefixed<T>(done: seq<T>, r: Result<seq<T>>): Result<seq<T>> {
    match r
    case Ok(rest) => Ok(done + rest)
    case Raised(f) => Raised(f)
  }

  /** Appending one more element to the part that is done. */
  lemma PrefixedStep<T>(done: seq<T>, x: T, r: Result<seq<T>>)
    ensures Prefixed(done + [x], r) == Prefixed(done, Prefixed([x], r))
  {
    if r.Ok? {
      assert done + [x] + r.value == done + ([x] + r.value);
    }
  }

  lemma PrefixedNothing<T>(r: Result<seq<T>>)
    ensures Prefixed([], r) == r
  {
    if r.Ok? {
      assert [] + r.value == r.value;
    }
  }
}
