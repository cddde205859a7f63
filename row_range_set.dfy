/**
  Row ranges as used by the page reader: a pair of row positions, read as
  both inclusive (`Contains`), so that a single row has `begin == end`;
  `ContainsHalfOpen` gives the alternative `[begin, end)` reading.  The constructor does
  not check `begin <= end`; `WellFormed` names that condition where it is
  needed.
 */
module RowRangeSet {

  datatype RowRange = RowRange(begin: nat, end: nat)

  /** The range selects at least one row. */
  predicate WellFormed(r: RowRange) {
    r.begin <= r.end
  }

  /** Row `p` is selected by `r` (both bounds inclusive). */
  predicate Contains(r: RowRange, p: nat) {
    r.begin <= p <= r.end
  }

  /** Row `p` is selected by `r` when `r` is read as half-open, `[begin, end)`. */
  predicate ContainsHalfOpen(r: RowRange, p: nat) {
    r.begin <= p < r.end
  }

  /** The rows selected by `r`, in increasing order. */
  function RowsOf(r: RowRange): (rows: seq<nat>)
    ensures |rows| == if WellFormed(r) then r.end - r.begin + 1 else 0
    ensures forall i :: 0 <= i < |rows| ==> rows[i] == r.begin + i
    decreases r.end + 1 - r.begin
  {
    if r.end < r.begin then [] else [r.begin] + RowsOf(RowRange(r.begin + 1, r.end))
  }

  /** `RowsOf` lists exactly the rows that `Contains` selects. */
  lemma RowsOfMembers(r: RowRange)
    ensures forall p: nat :: p in RowsOf(r) <==> Contains(r, p)
  {
    forall p: nat | Contains(r, p)
      ensures p in RowsOf(r)
    {
      assert RowsOf(r)[p - r.begin] == p;
    }
  }

  /** Cutting a range at an inner row `m` and listing both halves (the row
      `m` once) lists the original range. */
  lemma RowsOfSplit(r: RowRange, m: nat)
    requires r.begin <= m <= r.end
    ensures RowsOf(r) == RowsOf(RowRange(r.begin, m)) + RowsOf(RowRange(m + 1, r.end))
  {
  }

  /** Dropping the first row of a well-formed range lists the range that
      starts one row later. */
  lemma RowsOfTail(r: RowRange)
    requires WellFormed(r)
    ensures RowsOf(r)[1..] == RowsOf(RowRange(r.begin + 1, r.end))
  {
  }

  /** Cutting a range at an inner row `k` that both halves keep: the second
      half without its first row continues the first half. */
  lemma RowsOfCutShared(r: RowRange, k: nat)
    requires r.begin <= k < r.end
    ensures RowsOf(r) == RowsOf(RowRange(r.begin, k)) + RowsOf(RowRange(k, r.end))[1..]
    ensures |RowsOf(RowRange(r.begin, k))| + |RowsOf(RowRange(k, r.end))| == |RowsOf(r)| + 1
  {
    RowsOfSplit(r, k);
    RowsOfTail(RowRange(k, r.end));
  }
}
