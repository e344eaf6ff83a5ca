/** `Entities.RequestFeatures.RequestParameters`: the query-option bag every
    listing request carries. Its only logic is the page-size setter, which caps
    the size at `MaxPageSize` and passes every other value through. The C#
    object is mutable; here each property assignment is a function from the
    old state to the new one. */
module RequestFeatures {
  import opened Text

  /** C# `int`. No arithmetic is done on these values, so no wrap-around arises. */
  newtype int32 = x: int | -0x8000_0000 <= x < 0x8000_0000

  const MaxPageSize: int32 := 50
  const DefaultPageNumber: int32 := 1
  const DefaultPageSize: int32 := 10

  /** The object's observable state; `orderBy` is `None` while the C# property is null. */
  datatype RequestParameters = RequestParameters(pageNumber: int32, pageSize: int32, orderBy: Option<string>)

  /** The invariant the setter keeps: the page size never exceeds the maximum. */
  predicate PageSizeBounded(p: RequestParameters) {
    p.pageSize <= MaxPageSize
  }

  /** The state of a newly constructed object: page 1, size 10, no sort specification. */
  function Fresh(): (p: RequestParameters)
    ensures p.pageNumber == 1 && p.pageSize == 10 && p.orderBy.None?
    ensures PageSizeBounded(p)
  {
    RequestParameters(DefaultPageNumber, DefaultPageSize, None)
  }

  /** The value the `PageSize` setter stores: values above the maximum become
      the maximum, everything else, zero and negatives included, is kept. */
  function ClampPageSize(value: int32): (r: int32)
    ensures r <= MaxPageSize
    ensures value <= MaxPageSize ==> r == value
    ensures value > MaxPageSize ==> r == MaxPageSize
  {
    if value > MaxPageSize then MaxPageSize else value
  }

  /** `PageSize = value`. */
  function SetPageSize(p: RequestParameters, value: int32): (q: RequestParameters)
    ensures q.pageSize == ClampPageSize(value)
    ensures PageSizeBounded(q)
    ensures q.pageNumber == p.pageNumber && q.orderBy == p.orderBy
  {
    p.(pageSize := ClampPageSize(value))
  }

  /** `PageNumber = value`: an auto-property with no validation. */
  function SetPageNumber(p: RequestParameters, value: int32): (q: RequestParameters)
    ensures q.pageNumber == value
    ensures q.pageSize == p.pageSize && q.orderBy == p.orderBy
  {
    p.(pageNumber := value)
  }

  /** `OrderBy = value`: an auto-property with no validation. */
  function SetOrderBy(p: RequestParameters, value: Option<string>): (q: RequestParameters)
    ensures q.orderBy == value
    ensures q.pageNumber == p.pageNumber && q.pageSize == p.pageSize
  {
    p.(orderBy := value)
  }

  /** One property assignment a caller (or model binding) can make. */
  datatype Assignment =
    | AssignPageNumber(pageNumber: int32)
    | AssignPageSize(pageSize: int32)
    | AssignOrderBy(orderBy: Option<string>)

  function Assign(p: RequestParameters, a: Assignment): RequestParameters {
    match a
    case AssignPageNumber(n) => SetPageNumber(p, n)
    case AssignPageSize(s) => SetPageSize(p, s)
    case AssignOrderBy(o) => SetOrderBy(p, o)
  }

  /** The state after a sequence of assignments, made in order. */
  function AssignAll(p: RequestParameters, assignments: seq<Assignment>): RequestParameters
    decreases |assignments|
  {
    if assignments == [] then p else AssignAll(Assign(p, assignments[0]), assignments[1..])
  }

  /** The clamp is `min(value, MaxPageSize)`: the greatest value bounded by both. */
  lemma ClampIsMinimum(value: int32, x: int32)
    ensures ClampPageSize(value) <= value
    ensures x <= value && x <= MaxPageSize ==> x <= ClampPageSize(value)
  {
  }

  /** Re-assigning the current page size leaves the object unchanged. */
  lemma SetPageSizeIdempotent(p: RequestParameters, value: int32)
    ensures var q := SetPageSize(p, value); SetPageSize(q, q.pageSize) == q
  {
  }

  /** There is no lower bound: zero and negative sizes are stored as given. */
  lemma NoLowerBound(p: RequestParameters, value: int32)
    requires value <= 0
    ensures SetPageSize(p, value).pageSize == value
  {
  }

  /** From any bounded state, and in particular from a fresh object, every
      sequence of assignments keeps the page size at or below the maximum. */
  lemma {:induction false} AssignmentsKeepBound(p: RequestParameters, assignments: seq<Assignment>)
    requires PageSizeBounded(p)
    ensures PageSizeBounded(AssignAll(p, assignments))
    decreases |assignments|
  {
    if assignments != [] {
      AssignmentsKeepBound(Assign(p, assignments[0]), assignments[1..]);
    }
  }

  /** Page-size assignments alone never touch the page number or the sort
      specification, and the last one decides the size. */
  lemma {:induction false} PageSizeAssignmentsOnlyTouchSize(p: RequestParameters, sizes: seq<int32>)
    requires |sizes| > 0
    ensures var q := AssignAll(p, seq(|sizes|, i requires 0 <= i < |sizes| => AssignPageSize(sizes[i])));
            q.pageNumber == p.pageNumber && q.orderBy == p.orderBy &&
            q.pageSize == ClampPageSize(sizes[|sizes| - 1])
    decreases |sizes|
  {
    var assignments := seq(|sizes|, i requires 0 <= i < |sizes| => AssignPageSize(sizes[i]));
    var p' := SetPageSize(p, sizes[0]);
    if |sizes| > 1 {
      PageSizeAssignmentsOnlyTouchSize(p', sizes[1..]);
      assert assignments[1..] == seq(|sizes[1..]|, i requires 0 <= i < |sizes[1..]| => AssignPageSize(sizes[1..][i]));
    } else {
      assert assignments[1..] == [];
    }
  }
}
