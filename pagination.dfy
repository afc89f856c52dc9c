/**
 * SQLite's `LIMIT ? OFFSET ?` over an ordered result set, and the page
 * arithmetic `offset = (page - 1) * page_size` the listing queries use.
 * A negative LIMIT means "no upper bound"; a negative OFFSET behaves as zero.
 */
module Pagination {

  function Min(a: int, b: int): int { if a <= b then a else b }

  /** Index of the first row a query with this OFFSET returns. */
  function Start(n: nat, offset: int): (s: nat)
    ensures s <= n
    ensures 0 <= offset <= n ==> s == offset
    ensures offset < 0 ==> s == 0
    ensures n < offset ==> s == n
  {
    if offset < 0 then 0 else if offset > n then n else offset
  }

  /** The rows `LIMIT limit OFFSET offset` keeps, in order. */
  function Page<T>(rows: seq<T>, limit: int, offset: int): (r: seq<T>)
    ensures limit < 0 ==> |r| == |rows| - Start(|rows|, offset)
    ensures 0 <= limit ==> |r| == Min(limit, |rows| - Start(|rows|, offset))
    ensures forall i :: 0 <= i < |r| ==> r[i] == rows[Start(|rows|, offset) + i]
  {
    var rest := rows[Start(|rows|, offset)..];
    if limit < 0 || |rest| <= limit then rest else rest[..limit]
  }

  /** The OFFSET the listing queries compute for a 1-based page number. */
  function PageOffset(page: int, pageSize: int): int {
    (page - 1) * pageSize
  }

  /** Pages 1 to count of rows at pageSize rows each, laid end to end. */
  function FirstPages<T>(rows: seq<T>, pageSize: int, count: nat): seq<T> {
    if count == 0 then []
    else FirstPages(rows, pageSize, count - 1) + Page(rows, pageSize, PageOffset(count, pageSize))
  }

  /** With a non-negative LIMIT, a page is the slice from its start to LIMIT rows further, clamped to the end. */
  lemma PageIsSlice<T>(rows: seq<T>, limit: int, offset: int)
    requires 0 <= limit
    ensures var lo := Start(|rows|, offset);
      Page(rows, limit, offset) == rows[lo..Min(lo + limit, |rows|)]
  {
  }

  /** Page count starts where pages 1 to count - 1 end, and ends pageSize rows later. */
  lemma PageBounds(n: nat, pageSize: int, count: nat)
    requires pageSize > 0 && count > 0
    ensures Start(n, PageOffset(count, pageSize)) == Min((count - 1) * pageSize, n)
    ensures Min(Min((count - 1) * pageSize, n) + pageSize, n) == Min(count * pageSize, n)
  {
    assert count * pageSize == (count - 1) * pageSize + pageSize;
  }

  /** Reading pages 1, 2, ... in turn returns every row once, in order, and nothing more. */
  lemma {:induction false} FirstPagesArePrefix<T>(rows: seq<T>, pageSize: int, count: nat)
    requires pageSize > 0
    ensures FirstPages(rows, pageSize, count) == rows[..Min(count * pageSize, |rows|)]
  {
    if count > 0 {
      var offset := PageOffset(count, pageSize);
      var lo := Min((count - 1) * pageSize, |rows|);
      var hi := Min(count * pageSize, |rows|);
      FirstPagesArePrefix(rows, pageSize, count - 1);
      PageBounds(|rows|, pageSize, count);
      PageIsSlice(rows, pageSize, offset);
      assert Page(rows, pageSize, offset) == rows[lo..hi];
      SliceJoin(rows, lo, hi);
    }
  }

  lemma SliceJoin<T>(rows: seq<T>, lo: int, hi: int)
    requires 0 <= lo <= hi <= |rows|
    ensures rows[..lo] + rows[lo..hi] == rows[..hi]
  {
  }

  /** Once the offset passes the last row, every further page is empty. */
  lemma PagesPastTheEndAreEmpty<T>(rows: seq<T>, pageSize: int, page: int)
    requires pageSize > 0 && page >= 1
    requires PageOffset(page, pageSize) >= |rows|
    ensures Page(rows, pageSize, PageOffset(page, pageSize)) == []
  {
  }
}
