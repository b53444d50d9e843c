/**
 * Offset pagination over an ordered partition, shared by the three list reads.
 *
 * The store has no offset primitive: page N is served by scanning the first
 * `limit * page` rows (CQL `LIMIT`) and keeping the window
 * `[(page - 1) * limit, (page - 1) * limit + limit)` of them, with Python's
 * clamping slice; page 1 (and any page below it) scans `limit` rows directly.
 */
module Pagination {
  import opened Wrappers

  /** One page of a listing, with the size of the listed partition as `total`. */
  datatype PageResult<T> = PageResult(total: int, page: int, limit: int, data: seq<T>)

  /** Outcome of a read whose query the store may refuse. */
  datatype ReadResult<T> = Ok(value: T) | QueryFailed

  /** Largest value of a CQL `int`, the type a bound `LIMIT` is sent as. */
  const MaxCqlInt: int := 0x7fff_ffff

  /** The store refuses a `LIMIT` that is not strictly positive; the driver cannot send one above MaxCqlInt. */
  predicate ValidLimit(n: int)
  {
    0 < n <= MaxCqlInt
  }

  function Min(a: int, b: int): int
  {
    if a <= b then a else b
  }

  /** `SELECT ... LIMIT n` on a partition: its first `n` rows in clustering order, or a refused query. */
  function Scan<R>(rows: seq<R>, n: int): (r: Option<seq<R>>)
    ensures r.Some? <==> ValidLimit(n)
    ensures r.Some? ==> r.value <= rows && |r.value| == Min(n, |rows|)
  {
    if ValidLimit(n) then Some(rows[..Min(n, |rows|)]) else None
  }

  /** Python's `s[i:j]` for non-negative bounds: both clamp to `|s|`, and the window is empty once `i >= j`. */
  function Slice<R>(s: seq<R>, i: nat, j: nat): (r: seq<R>)
    ensures |r| == if i < j && i < |s| then Min(j, |s|) - i else 0
    ensures forall k :: 0 <= k < |r| ==> r[k] == s[i + k]
  {
    var lo := Min(i, |s|);
    var hi := Min(j, |s|);
    if lo < hi then s[lo..hi] else []
  }

  lemma PositiveFactor(limit: int, page: int)
    requires page > 1 && limit * page > 0
    ensures limit > 0
  {
  }

  /** The rows of one page, as the three list reads compute them. */
  function Paginate<R>(rows: seq<R>, page: int, limit: int): (r: Option<seq<R>>)
    ensures r.Some? <==> ValidLimit(if page > 1 then limit * page else limit)
    ensures r.Some? ==> |r.value| <= limit
    ensures r.Some? ==> forall k :: 0 <= k < |r.value| ==> r.value[k] in rows
  {
    if page > 1 then
      match Scan(rows, limit * page)
      case None => None
      case Some(fetched) =>
        PositiveFactor(limit, page);
        Some(Slice(fetched, (page - 1) * limit, (page - 1) * limit + limit))
    else
      Scan(rows, limit)
  }

  lemma MulMonotone(a: int, b: int, c: int)
    requires 0 <= a <= b && c >= 0
    ensures a * c <= b * c
  {
  }

  /**
   * For page >= 1 and limit >= 1, a page is the contiguous window of the
   * ordered partition starting at offset (page - 1) * limit, cut at the end
   * of the partition; the page-1 branch agrees with the general formula.
   */
  lemma PageWindow<R>(rows: seq<R>, page: int, limit: int)
    requires page >= 1 && limit >= 1 && ValidLimit(limit * page)
    ensures Paginate(rows, page, limit)
         == Some(rows[Min((page - 1) * limit, |rows|)..Min(page * limit, |rows|)])
  {
    var lo, hi := Min((page - 1) * limit, |rows|), Min(page * limit, |rows|);
    MulMonotone(page - 1, page, limit);
    if page > 1 {
      var fetched := rows[..Min(limit * page, |rows|)];
      assert Scan(rows, limit * page) == Some(fetched);
      var offset := (page - 1) * limit;
      assert offset + limit == page * limit == limit * page;
      var s := Slice(fetched, offset, offset + limit);
      assert Paginate(rows, page, limit) == Some(s);
      assert |s| == hi - lo;
      forall k | 0 <= k < |s|
        ensures s[k] == rows[lo..hi][k]
      {
      }
      assert s == rows[lo..hi];
    } else {
      assert page == 1 && lo == 0 && hi == Min(limit, |rows|);
    }
  }

  /**
   * Size of a page: never more than `limit`, exactly `limit` while the
   * partition reaches past the page's end, and empty exactly when the
   * offset is at or past the end of the partition (not an error).
   */
  lemma PageSize<R>(rows: seq<R>, page: int, limit: int)
    requires page >= 1 && limit >= 1 && ValidLimit(limit * page)
    ensures Paginate(rows, page, limit).Some?
    ensures |Paginate(rows, page, limit).value| <= limit
    ensures page * limit <= |rows| ==> |Paginate(rows, page, limit).value| == limit
    ensures Paginate(rows, page, limit).value == [] <==> (page - 1) * limit >= |rows|
  {
    PageWindow(rows, page, limit);
    MulMonotone(page - 1, page, limit);
    assert page * limit == (page - 1) * limit + limit;
  }

  /** Pages 1..n laid end to end. */
  function PagesUpTo<R>(rows: seq<R>, n: nat, limit: int): seq<R>
    requires limit >= 1 && limit * n <= MaxCqlInt
  {
    if n == 0 then []
    else
      MulMonotone(n - 1, n, limit);
      var p := Paginate(rows, n, limit);
      PagesUpTo(rows, n - 1, limit) + (if p.Some? then p.value else [])
  }

  /** Consecutive pages neither skip nor repeat a row: pages 1..n together are the first n * limit rows. */
  lemma {:induction false} PagesTile<R>(rows: seq<R>, n: nat, limit: int)
    requires limit >= 1 && limit * n <= MaxCqlInt
    ensures PagesUpTo(rows, n, limit) == rows[..Min(n * limit, |rows|)]
  {
    if n > 0 {
      MulMonotone(n - 1, n, limit);
      var before, upTo := (n - 1) * limit, n * limit;
      assert upTo == limit * n && limit * (n - 1) == before <= upTo;
      PagesTile(rows, n - 1, limit);
      PageWindow(rows, n, limit);
      var lo, hi := Min(before, |rows|), Min(upTo, |rows|);
      var p := Paginate(rows, n, limit);
      assert p == Some(rows[lo..hi]);
      assert PagesUpTo(rows, n, limit) == PagesUpTo(rows, n - 1, limit) + p.value;
      assert PagesUpTo(rows, n - 1, limit) == rows[..lo];
      assert rows[..lo] + rows[lo..hi] == rows[..hi];
    }
  }

  /** A partition of 45 rows read 20 at a time gives pages of 20, 20, 5 and 0 rows. */
  lemma FortyFiveRowsByTwenty<R>(rows: seq<R>)
    requires |rows| == 45
    ensures |Paginate(rows, 1, 20).value| == 20
    ensures |Paginate(rows, 2, 20).value| == 20
    ensures |Paginate(rows, 3, 20).value| == 5
    ensures Paginate(rows, 4, 20) == Some([])
  {
    PageWindow(rows, 1, 20);
    PageWindow(rows, 2, 20);
    PageWindow(rows, 3, 20);
    PageWindow(rows, 4, 20);
  }
}
