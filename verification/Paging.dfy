/**
  Paging of query results with 64-bit arithmetic.
 */
module Paging {

  const TWO63: int := 0x8000_0000_0000_0000

  type Int64 = x: int | -TWO63 <= x < TWO63

  datatype QueryParam = QueryParam(pageNo: Int64, pageSize: Int64)
  datatype Page = Page(pageNo: Int64, pageSize: Int64, totalPage: Int64, totalCount: Int64)

  /** The value a 64-bit result wraps around to. */
  function Wrap(x: int): Int64 {
    (x + TWO63) % (2 * TWO63) - TWO63
  }

  function Offset(q: QueryParam): Int64 {
    var offset := Wrap(Wrap(q.pageNo - 1) * q.pageSize);
    if offset < 0 then 0 else offset
  }

  function Limit(q: QueryParam): Int64 {
    q.pageSize
  }

  /** Quotient rounded up, for a positive page size and a count that is not negative. */
  function NewPage(q: QueryParam, count: Int64): Page
    requires q.pageSize > 0 && count >= 0
  {
    QuotientFits(count, q.pageSize);
    var tp := if count % q.pageSize > 0 then count / q.pageSize + 1 else count / q.pageSize;
    Page(q.pageNo, q.pageSize, tp, count)
  }

  lemma MulMonotone(a: int, b: int, s: int)
    requires a <= b && s > 0
    ensures a * s <= b * s
  {
    assert (b - a) * s >= 0;
    assert (b - a) * s == b * s - a * s;
  }

  lemma Division(x: int, d: int)
    requires d > 0
    ensures x / d * d <= x < x / d * d + d && x % d == x - x / d * d
  {
    assert x == d * (x / d) + x % d;
  }

  lemma OnlyQuotient(x: int, d: int, q: int)
    requires d > 0 && q * d <= x < q * d + d
    ensures q == x / d
  {
    var q' := x / d;
    Division(x, d);
    if q < q' { MulMonotone(q + 1, q', d); }
    if q' < q { MulMonotone(q' + 1, q, d); }
  }

  lemma QuotientFits(count: Int64, size: Int64)
    requires size > 0 && count >= 0
    ensures 0 <= count / size <= count && (count % size > 0 ==> count / size + 1 <= count)
  {
    Division(count, size);
    var q := count / size;
    if q < 0 { MulMonotone(q, -1, size); }
    if q > 0 {
      MulMonotone(1, size, q);
      assert q * size == size * q;
    }
  }

  /** The page as it is reported: what was asked for, and as many pages as the results fill, the
      last one perhaps only in part. */
  lemma NewPageIs(q: QueryParam, count: Int64)
    requires q.pageSize > 0 && count >= 0
    ensures var p := NewPage(q, count);
      && p.pageNo == q.pageNo && p.pageSize == q.pageSize && p.totalCount == count
      && (p.totalPage - 1) * q.pageSize < count <= p.totalPage * q.pageSize
  {
    Division(count, q.pageSize);
    var n := count / q.pageSize;
    assert (n + 1) * q.pageSize == n * q.pageSize + q.pageSize;
    assert (n - 1) * q.pageSize == n * q.pageSize - q.pageSize;
  }

  /** Whether result i is on the page the parameters ask for. */
  predicate OnPage(q: QueryParam, i: int) {
    Offset(q) <= i < Offset(q) + Limit(q)
  }

  lemma NoWrap(x: int)
    requires -TWO63 <= x < TWO63
    ensures Wrap(x) == x
  {}

  ghost predicate ProductFits(q: QueryParam) {
    -TWO63 < q.pageNo && -TWO63 <= (q.pageNo - 1) * q.pageSize < TWO63
  }

  lemma OffsetFits(q: QueryParam)
    requires ProductFits(q)
    ensures Offset(q) == if (q.pageNo - 1) * q.pageSize < 0 then 0 else (q.pageNo - 1) * q.pageSize
  {
    NoWrap(q.pageNo - 1);
    NoWrap((q.pageNo - 1) * q.pageSize);
  }

  /** Up to the last page the product stays below the count, so nothing wraps around. */
  lemma {:induction false} OffsetIsExact(q: QueryParam, count: Int64)
    requires q.pageSize > 0 && count >= 0 && 1 <= q.pageNo <= NewPage(q, count).totalPage
    ensures Offset(q) == (q.pageNo - 1) * q.pageSize < count
  {
    BeforeTheCount(count, q.pageSize, q.pageNo - 1);
    OffsetFits(q);
  }

  lemma BeforeTheCount(count: int, size: int, before: int)
    requires size > 0 && 0 <= before < if count % size > 0 then count / size + 1 else count / size
    ensures 0 <= before * size < count
  {
    Division(count, size);
    MulMonotone(0, before, size);
    if count % size > 0 {
      MulMonotone(before, count / size, size);
    } else {
      MulMonotone(before + 1, count / size, size);
      assert (before + 1) * size == before * size + size;
    }
  }

  /** Every result is on exactly one page, and pages hold the results in order: result i is on
      page i / size + 1. */
  lemma {:induction false} PagesPartition(q: QueryParam, count: Int64, i: int)
    requires q.pageSize > 0 && count >= 0 && 0 <= i < count
    requires 1 <= q.pageNo <= NewPage(q, count).totalPage
    ensures 1 <= i / q.pageSize + 1 <= NewPage(q, count).totalPage
    ensures OnPage(q, i) <==> q.pageNo == i / q.pageSize + 1
  {
    OffsetIsExact(q, count);
    var size := q.pageSize;
    PageOf(i, count, size);
    if OnPage(q, i) { OnlyQuotient(i, size, q.pageNo - 1); } else { Division(i, size); }
  }

  /** The page that holds result i is a page of the result. */
  lemma PageOf(i: int, count: int, size: int)
    requires size > 0 && 0 <= i < count
    ensures 0 <= i / size <= count / size && (count % size == 0 ==> i / size < count / size)
  {
    Division(i, size);
    Division(count, size);
    var k, n := i / size, count / size;
    if k < 0 { MulMonotone(k, -1, size); }
    if k > n { MulMonotone(n + 1, k, size); }
    if k == n { assert i - k * size < count - n * size; }
  }

  /** No page up to the last one is empty. */
  lemma {:induction false} PagesAreNotEmpty(q: QueryParam, count: Int64)
    requires q.pageSize > 0 && count >= 0 && 1 <= q.pageNo <= NewPage(q, count).totalPage
    ensures OnPage(q, Offset(q)) && 0 <= Offset(q) < count
  {
    OffsetIsExact(q, count);
    MulMonotone(0, q.pageNo - 1, q.pageSize);
  }

  lemma BehindTheLast(count: int, size: int, before: int)
    requires size > 0 && count >= 0
    requires before >= if count % size > 0 then count / size + 1 else count / size
    ensures before * size >= count
  {
    Division(count, size);
    MulMonotone(if count % size > 0 then count / size + 1 else count / size, before, size);
  }

  /** A page behind the last one is empty exactly when the distance to page one, cut to 64 bits,
      is neither negative nor below the count; in particular whenever the product fits. */
  lemma {:induction false} LaterPageIsEmptyIff(q: QueryParam, count: Int64)
    requires q.pageSize > 0 && count >= 0 && q.pageNo > NewPage(q, count).totalPage
    ensures (forall i | 0 <= i < count :: !OnPage(q, i))
      <==> count == 0 || count <= (q.pageNo - 1) * q.pageSize % (2 * TWO63) < TWO63
    ensures ProductFits(q) ==> forall i | 0 <= i < count :: !OnPage(q, i)
  {
    QuotientFits(count, q.pageSize);
    if count > 0 {
      NoWrap(q.pageNo - 1);
      WrapIs((q.pageNo - 1) * q.pageSize);
      if Offset(q) < count { assert OnPage(q, Offset(q)); }
      if ProductFits(q) {
        OffsetFits(q);
        BehindTheLast(count, q.pageSize, q.pageNo - 1);
      }
    }
  }

  lemma WrapIs(x: int)
    ensures var m := x % (2 * TWO63); Wrap(x) == if m < TWO63 then m else m - 2 * TWO63
  {}

  /** Far enough behind the last page the results come again. */
  lemma WrappedLaterPage(count: Int64)
    requires count > 0
    ensures var q := QueryParam(0x4000_0000_0000_0001, 4); q.pageNo > NewPage(q, count).totalPage && OnPage(q, 0)
  {
    var q := QueryParam(0x4000_0000_0000_0001, 4);
    QuotientFits(count, 4);
    assert (q.pageNo - 1) * q.pageSize == 2 * TWO63;
    assert count / 4 < 0x2000_0000_0000_0000;
    assert Offset(q) == 0;
  }

  /** A non-positive page number acts as page one exactly when the distance to page one, cut to
      64 bits, is not above 2^63; in particular whenever the product fits. */
  lemma {:induction false} NonPositiveIsPageOneIff(q: QueryParam)
    requires q.pageSize > 0 && q.pageNo <= 0
    ensures Offset(q.(pageNo := 1)) == 0
    ensures Offset(q) == 0 <==> (1 - q.pageNo) * q.pageSize % (2 * TWO63) <= TWO63
    ensures ProductFits(q) ==> Offset(q) == 0
  {
    NoWrap(0);
    var before, size := q.pageNo - 1, q.pageSize;
    WrapOfProduct(before, size);
    assert (1 - q.pageNo) * size == -(before * size);
    WrapIsNotPositive(before * size);
    if ProductFits(q) {
      OffsetFits(q);
      MulMonotone(before, -1, size);
    }
  }

  /** Wrapping a factor first does not change the wrapped product. */
  lemma WrapOfProduct(a: int, b: int)
    ensures Wrap(Wrap(a) * b) == Wrap(a * b)
  {
    var k := (a + TWO63) / (2 * TWO63);
    assert Wrap(a) == a - 2 * TWO63 * k;
    assert Wrap(a) * b == a * b - 2 * TWO63 * (k * b);
    WrapShift(a * b, k * b);
  }

  lemma WrapShift(x: int, k: int)
    ensures Wrap(x - 2 * TWO63 * k) == Wrap(x)
  {
    var d := 2 * TWO63;
    Division(x + TWO63, d);
    var q := (x + TWO63) / d;
    assert (q - k) * d == q * d - d * k;
    OnlyQuotient(x + TWO63 - d * k, d, q - k);
    Division(x + TWO63 - d * k, d);
  }

  lemma WrapIsNotPositive(x: int)
    ensures Wrap(x) <= 0 <==> -x % (2 * TWO63) <= TWO63
  {}

  /** A non-positive page that skips results. The HTTP parameters never ask for one, as page
      numbers below one are rejected there; a direct caller can. */
  lemma WrappedPage()
    ensures var q := QueryParam(-0x4000_0000_0000_0000, 3);
      q.pageNo <= 0 && Offset(q) > 0
  {
    assert (-0x4000_0000_0000_0000 - 1) * 3 == -0xC000_0000_0000_0003;
  }
}
