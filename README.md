# Page row-range resolver of the Parquet page reader

This project models, in Dafny, the row-range resolver of bolt-parquet-reader's
version-1 data pages: the two default methods of the `DataPage<T>` trait that,
for one page, split a requested row range into the slice the page covers and
the slice that runs past it and must be matched against the following pages.

- A `RowRange` (module `RowRangeSet`) is a pair of row positions, read as
  both inclusive (`Contains`); `ContainsHalfOpen` gives the `[begin, end)`
  reading for comparison. Its constructor does not check `begin <= end`; `WellFormed` names
  that condition and only the lemmas that need it require it. `Contains` and
  `RowsOf` give the rows a range selects.
- `DataPageBase.CoveredRange` and `DataPageBase.RemainingRange` model
  `get_data_page_covered_range` and `get_data_page_remaining_range`. They take
  the page bounds `pageBegin`/`pageEnd` (in the page's offset coordinates), the
  running `offset` and the row range (in the caller's un-offset coordinates),
  and return `Result<Option<RowRange>, BoltReaderError>` with the single error
  `FixedLengthDataPageError`. The unused type parameter `T` and `&self` are
  dropped. The bounds are plain inputs: no relation to the page's value count
  is built in.
- `ResolverLemmas` relates the two operations on the same arguments, and
  `DataPageBaseTests` restates the repository's unit tests for a range of value
  counts of the test fixture's page.

How the two slices meet at the page end:

- The covered slice ends at `page_end - offset` (line 47) and the remaining
  slice starts at `page_end - offset` (line 73). The tests expect the same
  value, `num_values + data_page_offset - offset`, for the covered end
  (lines 166-170) and for the remaining begin (lines 250-253).
- Read with inclusive ranges, the code reports that one row in both slices
  whenever the range straddles the page end. `SharedRowIsPageEnd` proves that
  this row is the only one shared. `StraddleRowsInOrder` proves that the two
  slices then hold one row more than the request.
- Read as half-open ranges, the two slices are disjoint and together give the
  request exactly (`HalfOpenSlicesPartition`).
- Line 44 compares with `<=`, so a range whose translated start equals
  `page_end` is covered. The tests pass `page_end = page_offset + num_values`
  (lines 142-143), which is one past the page's last row when rows are
  counted from `page_offset`. The model takes `page_begin`/`page_end` as
  plain inputs and builds in no relation to the value count.

`page_end - offset` in the remaining operation (line 73) is evaluated on
`usize` and falls below zero for inputs such as page `[0, 5]`, offset 10 and
range `(0, 0)`. The Rust code then panics in a debug build. The model makes
`RemainingDefined` a precondition of `RemainingRange`. It holds on the error
path, on the nothing-remains path, and whenever `offset <= page_end`. The same
subtraction in the covered operation (line 47) is proved never to underflow.

## Model

| member | source | states |
|---|---|---|
| `DataPageBase.CoveredRange` | src/page_reader/data_page_v1/data_page_base.rs:31-52 | fails iff `begin + offset < page_begin`, whatever the other inputs; without error, nothing is covered iff `begin + offset > page_end`; a covered slice starts at the request's begin, ends at the earlier of the request's end and the page's last row translated back (`end <= request end`, `end + offset <= page_end`, one of them tight), needs no underflowing subtraction, and is well-formed when the request is |
| `DataPageBase.RemainingRange` | src/page_reader/data_page_v1/data_page_base.rs:54-76 | fails iff `begin + offset < page_begin`; without error, nothing remains iff `end + offset <= page_end`; a remaining slice keeps the request's end, starts at the later of the request's begin and the page's last row translated back (`begin + offset >= page_end`, one bound tight), and is well-formed when the request is |
| `RowRangeSet.RowsOf` | src/page_reader/data_page_v1/data_page_base.rs:44-47 | the rows of an inclusive range are `begin, begin+1, ..., end` in order, `end - begin + 1` of them, none when `begin > end` |
| `RowRangeSet.RowsOfMembers` | src/page_reader/data_page_v1/data_page_base.rs:44-47 | a row is listed by `RowsOf` iff the inclusive range contains it |
| `ResolverLemmas.SameFailure` | src/page_reader/data_page_v1/data_page_base.rs:38-42 | both operations fail on the same inputs, and the failure does not depend on `page_end` or the range's end |
| `ResolverLemmas.NeverBothNone` | src/page_reader/data_page_v1/data_page_base.rs:44-51 | for a well-formed range without error, the covered and the remaining slice are never both absent |
| `ResolverLemmas.NothingRemainsCoversAll` | src/page_reader/data_page_v1/data_page_base.rs:68-70 | when nothing remains of a well-formed range, the covered slice is the whole range |
| `ResolverLemmas.NothingCoveredDefersAll` | src/page_reader/data_page_v1/data_page_base.rs:72-75 | when nothing of a well-formed range is covered, the remaining slice is the whole range |
| `ResolverLemmas.NothingCoveredRemainingNeedsOffset` | src/page_reader/data_page_v1/data_page_base.rs:72-73 | for a range the page covers nothing of, the remaining operation avoids underflow iff `offset <= page_end` |
| `ResolverLemmas.RemainingUnderflowExample` | src/page_reader/data_page_v1/data_page_base.rs:73 | page `[0, 5]`, offset 10, range `(0, 0)`: nothing is covered and `page_end - offset` in the remaining operation would underflow |
| `ResolverLemmas.StraddleBoundary` | src/page_reader/data_page_v1/data_page_base.rs:47 | when both slices exist, the covered end and the remaining begin are both `page_end - offset` |
| `ResolverLemmas.BoundaryRowIsCovered` | src/page_reader/data_page_v1/data_page_base.rs:44-48 | a range whose translated begin is exactly `page_end` is covered, as the single row `(begin, begin)` |
| `ResolverLemmas.SlicesAgainstPage` | src/page_reader/data_page_v1/data_page_base.rs:44-75 | every covered row, translated, lies in `[page_begin, page_end]`; every remaining row, translated, is at `page_end` or after it |
| `ResolverLemmas.NoRowDropped` | src/page_reader/data_page_v1/data_page_base.rs:44-75 | a row of a well-formed range is in it iff it is in the covered or the remaining slice: no row is dropped or invented |
| `ResolverLemmas.SharedRowIsPageEnd` | src/page_reader/data_page_v1/data_page_base.rs:47-73 | a row is in both slices iff it is the page's last row translated back and the range straddles the page end |
| `ResolverLemmas.HalfOpenSlicesPartition` | src/page_reader/data_page_v1/data_page_base.rs:44-75 | read as half-open ranges, a requested row is in the covered or the remaining slice, every row of either slice is requested, and no row is in both |
| `ResolverLemmas.StraddleRowsInOrder` | src/page_reader/data_page_v1/data_page_base.rs:44-75 | for a straddling range, the covered rows followed by the remaining rows minus their shared first row are the requested rows in order, and the slices hold one row more than the request |
| `DataPageBaseTests.CoveredShortRange` | src/page_reader/data_page_v1/data_page_base.rs:139-152 | range `(1, 5)` at offset 1000 on the test page: no error, covered iff the page has at least 901 values, and then the slice starts at row 1 |
| `DataPageBaseTests.CoveredLongRange` | src/page_reader/data_page_v1/data_page_base.rs:154-170 | range `(1, 100000000)` at offset 1000: covered slice `(1, num_values + 100 - 1000)` |
| `DataPageBaseTests.CoveredNothing` | src/page_reader/data_page_v1/data_page_base.rs:186-197 | range `(1, 5)` at offset 10000000: nothing covered, no error |
| `DataPageBaseTests.RangeBeforePageFails` | src/page_reader/data_page_v1/data_page_base.rs:213-222 | range `(1, 5)` at offset 10 starts before the page: both operations fail |
| `DataPageBaseTests.RemainingLongRange` | src/page_reader/data_page_v1/data_page_base.rs:238-254 | range `(1, 100000000)` at offset 1000: remaining slice `(num_values + 100 - 1000, 100000000)` |
| `DataPageBaseTests.RemainingWholeRange` | src/page_reader/data_page_v1/data_page_base.rs:256-269 | range `(10000000, 100000000)` at offset 1000: the whole range remains |
| `DataPageBaseTests.RemainingNothing` | src/page_reader/data_page_v1/data_page_base.rs:285-296 | range `(1, 5)` at offset 1000: nothing remains |

## Left out

- DataPageBase.RemainingRange: requires `RemainingDefined`, i.e. excludes the inputs on which `page_end - offset` underflows `usize`. The Rust code panics there in a debug build and wraps in a release build; neither outcome is modelled.
- `usize` overflow of `row_range.begin + offset` and `row_range.end + offset`: positions are unbounded `nat`s.
- The abstract getters `data_page_has_null`, `get_data_page_num_values`, `get_data_page_offset` and `get_data_page_type_size` (lines 23-29) have no bodies in the trait. They are the fields of the `PageDescriptor` datatype, which the test lemmas use for the page bounds.
- The error message built with `format!` (lines 41, 65): the single error variant carries no text.
- The `unlikely` branch hint (lines 40, 64): it does not change behaviour.
- `RowRange::new` from `crate::utils::row_range_set` is not part of this model. The constructor is taken not to validate its arguments.
- The inclusive reading of `RowRange` is assumed, since `crate::utils::row_range_set` is not part of this model. `RowsOf`, `RowsOfMembers`, `BoundaryRowIsCovered`, `SlicesAgainstPage`, `NoRowDropped`, `SharedRowIsPageEnd` and `StraddleRowsInOrder` depend on it. `HalfOpenSlicesPartition` states the half-open reading.
- The test fixture (file loading, page-header parsing, buffer handling, reader construction and destruction, lines 93-126). The test lemmas instead take any page whose row offset is 100, and state the test's expectation for the value counts at which it holds.
- Test line 152 compares a value with itself. Test `test_invalid_remaining_range` (lines 302-324) calls the covered operation. Neither is cited as evidence for the remaining operation.
- The column-chunk loop that calls the resolver once per page and advances the offset is not in the modelled source.
