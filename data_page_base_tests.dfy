/**
  The unit-test scenarios of the resolver, stated for every page that the
  test fixture could load: the fixture's page starts at row offset 100, and
  the tests pass `pageBegin = offset` and `pageEnd = numValues + offset` of
  that page.  Each lemma states the scenario's expectation for a range of
  value counts at which it holds (`CoveredShortRange` for exactly those).
 */
module DataPageBaseTests {
  import opened Wrappers
  import opened RowRangeSet
  import opened DataPageBase

  /** The page bounds the tests derive from a page descriptor. */
  function TestPageBegin(page: PageDescriptor): (b: nat) { page.offset }

  function TestPageEnd(page: PageDescriptor): (e: nat) { page.numValues + page.offset }

  /** A short range at offset 1000 is covered from its first row on. */
  lemma CoveredShortRange(page: PageDescriptor)
    requires page.offset == 100
    ensures var r := CoveredRange(TestPageBegin(page), TestPageEnd(page), 1000, RowRange(1, 5));
            && r.Ok?
            && (r.value.Some? <==> 901 <= page.numValues)
            && (r.value.Some? ==> r.value.value.begin == 1)
  {
  }

  /** A long range is cut at the page end, translated back by the offset. */
  lemma CoveredLongRange(page: PageDescriptor)
    requires page.offset == 100
    requires 901 <= page.numValues <= 100000900
    ensures CoveredRange(TestPageBegin(page), TestPageEnd(page), 1000, RowRange(1, 100000000))
         == Ok(Some(RowRange(1, page.numValues + 100 - 1000)))
  {
  }

  /** With a huge offset the range starts past the page: nothing is covered. */
  lemma CoveredNothing(page: PageDescriptor)
    requires page.offset == 100
    requires page.numValues < 9999901
    ensures CoveredRange(TestPageBegin(page), TestPageEnd(page), 10000000, RowRange(1, 5)) == Ok(None)
  {
  }

  /** With a small offset the range starts before the page: both operations fail. */
  lemma RangeBeforePageFails(page: PageDescriptor)
    requires page.offset == 100
    ensures CoveredRange(TestPageBegin(page), TestPageEnd(page), 10, RowRange(1, 5)).Err?
    ensures RemainingRange(TestPageBegin(page), TestPageEnd(page), 10, RowRange(1, 5)).Err?
  {
  }

  /** A long range continues on the next page from the page end on. */
  lemma RemainingLongRange(page: PageDescriptor)
    requires page.offset == 100
    requires 901 <= page.numValues < 100000900
    ensures RemainingRange(TestPageBegin(page), TestPageEnd(page), 1000, RowRange(1, 100000000))
         == Ok(Some(RowRange(page.numValues + 100 - 1000, 100000000)))
  {
  }

  /** A range that starts past the page end is carried over unchanged. */
  lemma RemainingWholeRange(page: PageDescriptor)
    requires page.offset == 100
    requires 900 <= page.numValues <= 10000900
    ensures RemainingRange(TestPageBegin(page), TestPageEnd(page), 1000, RowRange(10000000, 100000000))
         == Ok(Some(RowRange(10000000, 100000000)))
  {
  }

  /** A short range that ends inside the page leaves nothing for the next page. */
  lemma RemainingNothing(page: PageDescriptor)
    requires page.offset == 100
    requires 905 <= page.numValues
    ensures RemainingRange(TestPageBegin(page), TestPageEnd(page), 1000, RowRange(1, 5)) == Ok(None)
  {
  }
}
