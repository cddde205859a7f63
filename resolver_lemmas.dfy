/**
  Properties that relate the two resolver operations when they are called
  with the same page bounds, offset and row range.
 */
module ResolverLemmas {
  import opened Wrappers
  import opened RowRangeSet
  import opened DataPageBase

  /** Row `p` belongs to a resolver slice (an absent slice holds no row). */
  predicate InSlice(slice: Option<RowRange>, p: nat) {
    slice.Some? && Contains(slice.value, p)
  }

  /** Both operations fail on exactly the same inputs, whatever `pageEnd` and
      the range's end are. */
  lemma SameFailure(pageBegin: nat, pageEnd: nat, offset: nat, rowRange: RowRange)
    requires RemainingDefined(pageBegin, pageEnd, offset, rowRange)
    ensures CoveredRange(pageBegin, pageEnd, offset, rowRange).Err?
        <==> RemainingRange(pageBegin, pageEnd, offset, rowRange).Err?
    ensures forall pageEnd': nat, end': nat ::
      (CoveredRange(pageBegin, pageEnd', offset, RowRange(rowRange.begin, end')).Err? <==>
         CoveredRange(pageBegin, pageEnd, offset, rowRange).Err?)
  {
  }

  /** A well-formed range is never dropped by a page: the covered and the
      remaining slice are not both absent. */
  lemma NeverBothNone(pageBegin: nat, pageEnd: nat, offset: nat, rowRange: RowRange)
    requires WellFormed(rowRange)
    requires RemainingDefined(pageBegin, pageEnd, offset, rowRange)
    requires pageBegin <= rowRange.begin + offset
    ensures CoveredRange(pageBegin, pageEnd, offset, rowRange).value.Some?
         || RemainingRange(pageBegin, pageEnd, offset, rowRange).value.Some?
  {
  }

  /** When nothing remains, the page covers the whole range. */
  lemma NothingRemainsCoversAll(pageBegin: nat, pageEnd: nat, offset: nat, rowRange: RowRange)
    requires WellFormed(rowRange)
    requires RemainingDefined(pageBegin, pageEnd, offset, rowRange)
    requires RemainingRange(pageBegin, pageEnd, offset, rowRange) == Ok(None)
    ensures CoveredRange(pageBegin, pageEnd, offset, rowRange) == Ok(Some(rowRange))
  {
  }

  /** When the page covers nothing, the whole range is carried to the next page. */
  lemma NothingCoveredDefersAll(pageBegin: nat, pageEnd: nat, offset: nat, rowRange: RowRange)
    requires WellFormed(rowRange)
    requires RemainingDefined(pageBegin, pageEnd, offset, rowRange)
    requires CoveredRange(pageBegin, pageEnd, offset, rowRange) == Ok(None)
    ensures RemainingRange(pageBegin, pageEnd, offset, rowRange) == Ok(Some(rowRange))
  {
  }

  /** On a range the page covers nothing of, `RemainingRange` subtracts
      `offset` from `pageEnd`, so it is defined exactly when `offset <= pageEnd`. */
  lemma NothingCoveredRemainingNeedsOffset(pageBegin: nat, pageEnd: nat, offset: nat, rowRange: RowRange)
    requires WellFormed(rowRange)
    requires CoveredRange(pageBegin, pageEnd, offset, rowRange) == Ok(None)
    ensures RemainingDefined(pageBegin, pageEnd, offset, rowRange) <==> offset <= pageEnd
  {
  }

  /** An input on which `pageEnd - offset` in `RemainingRange`
      would fall below zero. */
  lemma RemainingUnderflowExample()
    ensures !RemainingDefined(0, 5, 10, RowRange(0, 0))
    ensures CoveredRange(0, 5, 10, RowRange(0, 0)) == Ok(None)
  {
  }

  /** A range that straddles the page end is cut at the page's last row, and
      both slices hold that row. */
  lemma StraddleBoundary(pageBegin: nat, pageEnd: nat, offset: nat, rowRange: RowRange)
    requires RemainingDefined(pageBegin, pageEnd, offset, rowRange)
    requires CoveredRange(pageBegin, pageEnd, offset, rowRange).Ok?
    requires CoveredRange(pageBegin, pageEnd, offset, rowRange).value.Some?
    requires RemainingRange(pageBegin, pageEnd, offset, rowRange).value.Some?
    ensures offset <= pageEnd
    ensures CoveredRange(pageBegin, pageEnd, offset, rowRange).value.value.end == pageEnd - offset
    ensures RemainingRange(pageBegin, pageEnd, offset, rowRange).value.value.begin == pageEnd - offset
  {
  }

  /** A range whose translated start is exactly the page's last row is
      covered (one row), not only carried over. */
  lemma BoundaryRowIsCovered(pageBegin: nat, pageEnd: nat, offset: nat, rowRange: RowRange)
    requires WellFormed(rowRange)
    requires pageBegin <= pageEnd
    requires rowRange.begin + offset == pageEnd
    ensures CoveredRange(pageBegin, pageEnd, offset, rowRange) == Ok(Some(RowRange(rowRange.begin, rowRange.begin)))
  {
  }

  /** The covered slice lies inside the page and the remaining slice starts
      at the page's last row or after it. */
  lemma SlicesAgainstPage(pageBegin: nat, pageEnd: nat, offset: nat, rowRange: RowRange)
    requires RemainingDefined(pageBegin, pageEnd, offset, rowRange)
    requires pageBegin <= rowRange.begin + offset
    ensures forall p: nat ::
      (InSlice(CoveredRange(pageBegin, pageEnd, offset, rowRange).value, p) ==>
         pageBegin <= p + offset <= pageEnd)
    ensures forall p: nat ::
      (InSlice(RemainingRange(pageBegin, pageEnd, offset, rowRange).value, p) ==>
         pageEnd <= p + offset)
  {
  }

  /** Every row of a well-formed range is reported by the covered slice or by
      the remaining slice, and neither reports a row outside the range. */
  lemma NoRowDropped(pageBegin: nat, pageEnd: nat, offset: nat, rowRange: RowRange)
    requires WellFormed(rowRange)
    requires RemainingDefined(pageBegin, pageEnd, offset, rowRange)
    requires pageBegin <= rowRange.begin + offset
    ensures forall p: nat ::
      (Contains(rowRange, p) <==>
         (InSlice(CoveredRange(pageBegin, pageEnd, offset, rowRange).value, p)
          || InSlice(RemainingRange(pageBegin, pageEnd, offset, rowRange).value, p)))
  {
  }

  /** The two slices report the same row only when the range straddles the
      page end, and then only the page's last row. */
  lemma SharedRowIsPageEnd(pageBegin: nat, pageEnd: nat, offset: nat, rowRange: RowRange)
    requires RemainingDefined(pageBegin, pageEnd, offset, rowRange)
    requires pageBegin <= rowRange.begin + offset
    ensures forall p: nat ::
      (InSlice(CoveredRange(pageBegin, pageEnd, offset, rowRange).value, p)
        && InSlice(RemainingRange(pageBegin, pageEnd, offset, rowRange).value, p))
      <==> (p + offset == pageEnd && rowRange.begin + offset <= pageEnd < rowRange.end + offset)
  {
  }

  /** For a straddling range, listing the covered rows and then the remaining
      rows without their shared first row lists the requested rows in order;
      so the two slices together hold one row more than the request. */
  lemma StraddleRowsInOrder(pageBegin: nat, pageEnd: nat, offset: nat, rowRange: RowRange)
    requires pageBegin <= rowRange.begin + offset <= pageEnd < rowRange.end + offset
    ensures RemainingDefined(pageBegin, pageEnd, offset, rowRange)
    ensures var c := CoveredRange(pageBegin, pageEnd, offset, rowRange).value.value;
            var m := RemainingRange(pageBegin, pageEnd, offset, rowRange).value.value;
            && RowsOf(rowRange) == RowsOf(c) + RowsOf(m)[1..]
            && |RowsOf(c)| + |RowsOf(m)| == |RowsOf(rowRange)| + 1
  {
    var k := pageEnd - offset;
    var c := CoveredRange(pageBegin, pageEnd, offset, rowRange).value.value;
    var m := RemainingRange(pageBegin, pageEnd, offset, rowRange).value.value;
    assert c == RowRange(rowRange.begin, k) && m == RowRange(k, rowRange.end) by {
      StraddleBoundary(pageBegin, pageEnd, offset, rowRange);
    }
    RowsOfCutShared(rowRange, k);
  }

  /** Row `p` belongs to a resolver slice read as half-open. */
  predicate InSliceHalfOpen(slice: Option<RowRange>, p: nat) {
    slice.Some? && ContainsHalfOpen(slice.value, p)
  }

  /** Read as half-open ranges, the two slices split the request exactly:
      every requested row is in one of them and no row is in both. */
  lemma HalfOpenSlicesPartition(pageBegin: nat, pageEnd: nat, offset: nat, rowRange: RowRange)
    requires RemainingDefined(pageBegin, pageEnd, offset, rowRange)
    requires pageBegin <= rowRange.begin + offset
    ensures forall p: nat ::
      (ContainsHalfOpen(rowRange, p) <==>
         (InSliceHalfOpen(CoveredRange(pageBegin, pageEnd, offset, rowRange).value, p)
          || InSliceHalfOpen(RemainingRange(pageBegin, pageEnd, offset, rowRange).value, p)))
    ensures forall p: nat ::
      !(InSliceHalfOpen(CoveredRange(pageBegin, pageEnd, offset, rowRange).value, p)
        && InSliceHalfOpen(RemainingRange(pageBegin, pageEnd, offset, rowRange).value, p))
  {
  }
}
