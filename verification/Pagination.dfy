/** Pagination of listings, with the 32-bit arithmetic of the page computation. */
module Pagination {
  import opened Prelude

  const MAX_PAGE_SIZE := 500
  const DEFAULT_PAGE_SIZE := 20

  type int32 = x: int | -0x8000_0000 <= x < 0x8000_0000

  /** The two's complement value of an int, as the int32 conversion and addition yield it. */
  function ToInt32(x: int): int32 {
    (x + 0x8000_0000) % 0x1_0000_0000 - 0x8000_0000
  }

  lemma SmallInt32(x: int)
    requires -0x8000_0000 <= x < 0x8000_0000
    ensures ToInt32(x) == x
  {
  }

  /** First and last index of the page, and the reported total. */
  datatype Range = Range(first: int, last: int, total: int32)

  function PageRange(pageSize: int32, offset: int32, total: nat): Result<Range> {
    if offset < 0 || pageSize < 0 || pageSize > MAX_PAGE_SIZE then Err(InvalidArgument)
    else if total == 0 then Ok(Range(0, 0, 0))
    else
      var size := if pageSize == 0 then DEFAULT_PAGE_SIZE else pageSize;
      Ok(Range(offset,
               if offset + offset > total || ToInt32(offset + size) > total then total - 1 else offset + size - 1,
               ToInt32(total)))
  }

  function EffectiveSize(pageSize: int32): int32 {
    if pageSize == 0 then DEFAULT_PAGE_SIZE else pageSize
  }

  /** How many rows an accepted page has. */
  function PageLength(pageSize: int32, offset: int32, total: nat): int {
    if offset >= total then 0
    else if offset + offset > total || total - offset < EffectiveSize(pageSize) then total - offset
    else EffectiveSize(pageSize)
  }

  /** The rows an accepted page has: the given number of them, from the offset on. */
  function Page<T>(rows: seq<T>, pageSize: int32, offset: int32): (page: seq<T>)
    requires 0 <= offset && 0 <= pageSize <= MAX_PAGE_SIZE
  {
    if offset >= |rows| then [] else rows[offset..offset + PageLength(pageSize, offset, |rows|)]
  }

  /**
   * An accepted range never leaves the listing, even when offset + pageSize wraps around in 32 bits,
   * and it covers exactly PageLength rows.
   */
  lemma RangeIsInBounds(pageSize: int32, offset: int32, total: nat)
    requires 0 < total < 0x8000_0000 && PageRange(pageSize, offset, total).Ok?
    ensures var r := PageRange(pageSize, offset, total).value;
            && r.total == total && r.first == offset && r.last < total
            && (offset < total ==> r.last - r.first + 1 == PageLength(pageSize, offset, total))
            && (offset >= total ==> r.last < r.first)
  {
    var sum := offset + EffectiveSize(pageSize);
    if sum >= 0x8000_0000 {
      assert offset + offset > total;
    } else {
      assert ToInt32(sum) == sum;
    }
  }

  /** The loop of the list operations, over rows that the query returned. */
  method ListPage<T>(rows: seq<T>, pageSize: int32, offset: int32) returns (r: Result<(seq<T>, int32)>)
    requires |rows| < 0x8000_0000
    ensures r.Ok? <==> 0 <= offset && 0 <= pageSize <= MAX_PAGE_SIZE
    ensures r.Ok? ==> r.value.0 == Page(rows, pageSize, offset) && r.value.1 == |rows|
    ensures r.Err? ==> r.error == InvalidArgument
  {
    var range :- PageRange(pageSize, offset, |rows|);
    if |rows| == 0 {
      return Ok(([], 0));
    }
    RangeIsInBounds(pageSize, offset, |rows|);
    var page: seq<T> := [];
    var i := range.first;
    while i <= range.last
      invariant range.first <= i && (offset < |rows| ==> i <= range.last + 1)
      invariant offset >= |rows| ==> page == []
      invariant offset < |rows| ==> page == rows[offset..i]
    {
      page := page + [rows[i]];
      i := i + 1;
    }
    return Ok((page, range.total));
  }

  /**
   * A page may exceed the requested size: it does so exactly when the offset is past the middle of
   * the listing and more than a page of rows is left.
   */
  lemma PageExceedsSizeIff(pageSize: int32, offset: int32, total: nat)
    requires 0 <= offset && 0 <= pageSize <= MAX_PAGE_SIZE
    ensures PageLength(pageSize, offset, total) > EffectiveSize(pageSize) <==>
            2 * offset > total && total - offset > EffectiveSize(pageSize)
  {
  }

  /**
   * The page of an accepted request in a listing of any length: the rows from the offset on, as many as
   * asked for, 20 if nothing is asked for; but all that are left if fewer are, or past the middle.
   */
  lemma PageIs<T>(rows: seq<T>, pageSize: int32, offset: int32)
    requires 0 <= offset && 0 <= pageSize <= 500
    ensures var size, page := if pageSize == 0 then 20 else pageSize, Page(rows, pageSize, offset);
            && (offset >= |rows| ==> page == [])
            && (offset < |rows| && (2 * offset > |rows| || offset + size >= |rows|) ==> page == rows[offset..])
            && (2 * offset <= |rows| && offset + size < |rows| ==> page == rows[offset..offset + size])
  {
  }

  lemma LargePageExample()
    ensures PageLength(500, 1000, 1700) == 700
  {
  }

  /**
   * Stepping the offset by the length of each page visits every row of a stable listing exactly
   * once and in order, within max(1, ceil(total / 500)) calls at the maximal page size.
   */
  method Sweep<T>(rows: seq<T>) returns (visited: seq<T>, calls: nat)
    requires |rows| < 0x8000_0000
    ensures visited == rows
    ensures 1 <= calls
    ensures calls > 1 ==> (calls - 1) * MAX_PAGE_SIZE < |rows|
  {
    visited, calls := [], 0;
    var offset: int32 := 0;
    var hasMorePages := true;
    while hasMorePages
      invariant 0 <= offset <= |rows| && visited == rows[..offset]
      invariant hasMorePages <==> calls == 0 || offset < |rows|
      invariant hasMorePages ==> calls * MAX_PAGE_SIZE <= offset
      invariant calls > 1 ==> (calls - 1) * MAX_PAGE_SIZE < |rows|
      decreases |rows| - offset, hasMorePages
    {
      var resp := ListPage(rows, MAX_PAGE_SIZE, offset);
      var page, total := resp.value.0, resp.value.1;
      visited := visited + page;
      calls := calls + 1;
      assert |page| == PageLength(MAX_PAGE_SIZE, offset, |rows|) && offset + |page| <= |rows|;
      SmallInt32(offset + |page|);
      hasMorePages := total > ToInt32(offset + |page|);
      offset := ToInt32(offset + |page|);
    }
  }
}
