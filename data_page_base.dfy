/**
  The row-range resolver shared by every data page kind: given the page's
  bounds `pageBegin`/`pageEnd` (in the page's own, offset coordinates), the
  running `offset` and a requested row range (in the caller's un-offset
  coordinates), it tells which slice of the range the page covers and which
  slice runs past the page.
 */
module DataPageBase {
  import opened Wrappers
  import opened RowRangeSet

  /** The one error kind of the resolver: the translated range start lies
      before the page start. */
  datatype BoltReaderError = FixedLengthDataPageError

  /** The facts a concrete page reader exposes about its page. */
  datatype PageDescriptor = PageDescriptor(
    hasNull: bool,
    numValues: nat,
    offset: nat,
    typeSize: nat)

  type ResolveResult = Result<Option<RowRange>, BoltReaderError>

  function Min(a: nat, b: nat): (m: nat) { if a <= b then a else b }

  function Max(a: nat, b: nat): (m: nat) { if a >= b then a else b }

  /**
    The slice of `rowRange` that the page covers, in the caller's coordinates.
    Fails when the translated start precedes the page start; covers nothing
    when the translated start lies past `pageEnd` (which itself counts as
    covered).
   */
  function CoveredRange(pageBegin: nat, pageEnd: nat, offset: nat, rowRange: RowRange): (r: ResolveResult)
    ensures r.Err? <==> rowRange.begin + offset < pageBegin
    ensures r.Ok? ==> (r.value.None? <==> pageEnd < rowRange.begin + offset)
    ensures r.Ok? && r.value.Some? ==>
      var c := r.value.value;
      // the subtraction `pageEnd - offset` is defined on this path
      && offset <= pageEnd
      // the slice starts where the request starts ...
      && c.begin == rowRange.begin
      // ... and ends at the request's end or at the page's last row, whichever comes first
      && c.end <= rowRange.end
      && c.end + offset <= pageEnd
      && (c.end == rowRange.end || c.end + offset == pageEnd)
      && (WellFormed(rowRange) ==> WellFormed(c))
  {
    var begin := rowRange.begin + offset;
    if begin < pageBegin then
      Err(FixedLengthDataPageError)
    else if pageBegin <= begin <= pageEnd then
      Ok(Some(RowRange(rowRange.begin, Min(rowRange.end, pageEnd - offset))))
    else
      Ok(None)
  }

  /**
    The inputs for which `RemainingRange` does not evaluate `pageEnd - offset`
    below zero: the error path, the nothing-remains path, or `offset <= pageEnd`.
   */
  predicate RemainingDefined(pageBegin: nat, pageEnd: nat, offset: nat, rowRange: RowRange) {
    rowRange.begin + offset < pageBegin || rowRange.end + offset <= pageEnd || offset <= pageEnd
  }

  /**
    The slice of `rowRange` that runs past the page, to be matched against the
    following pages.  Fails exactly like `CoveredRange`; nothing remains when
    the translated end lies within the page.
   */
  function RemainingRange(pageBegin: nat, pageEnd: nat, offset: nat, rowRange: RowRange): (r: ResolveResult)
    requires RemainingDefined(pageBegin, pageEnd, offset, rowRange)
    ensures r.Err? <==> rowRange.begin + offset < pageBegin
    ensures r.Ok? ==> (r.value.None? <==> rowRange.end + offset <= pageEnd)
    ensures r.Ok? && r.value.Some? ==>
      var m := r.value.value;
      // the request's end is carried over unchanged ...
      && m.end == rowRange.end
      // ... and its start is moved up to the page's last row when the page covers it
      && rowRange.begin <= m.begin
      && pageEnd <= m.begin + offset
      && (m.begin == rowRange.begin || m.begin + offset == pageEnd)
      && (WellFormed(rowRange) ==> WellFormed(m))
  {
    var begin := rowRange.begin + offset;
    var end := rowRange.end + offset;
    if begin < pageBegin then
      Err(FixedLengthDataPageError)
    else if end <= pageEnd then
      Ok(None)
    else
      Ok(Some(RowRange(Max(rowRange.begin, pageEnd - offset), rowRange.end)))
  }
}
