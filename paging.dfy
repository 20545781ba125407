/**
 * Paging arithmetic: how many pages a record count makes, where a page
 * starts, and the summary handed to a client grid.
 */
module Paging {

  /** `GetPageOffset`'s three results. */
  datatype PageOffset = PageOffset(totalPages: int, offset: int, pageNo: int)

  /** The number of pages of `pageSize` records that hold `recordCount` records. */
  predicate IsPageCount(recordCount: int, pageSize: int, totalPages: int)
    requires pageSize >= 1
  {
    totalPages >= 1 && (totalPages - 1) * pageSize < recordCount <= totalPages * pageSize
  }

  /**
   * `GetPageOffset` as written: the page number is clamped to the page
   * count; page 1 starts at 0 and any later page n at n * pageSize, or at
   * recordCount - pageSize when that is past the end.
   */
  function GetPageOffset(recordCount: int, pageSize: int, pageNo: int): (r: PageOffset)
    ensures pageSize < 1 || recordCount < 1 ==> r == PageOffset(0, 0, 0)
    ensures pageSize >= 1 && recordCount >= 1 ==>
      IsPageCount(recordCount, pageSize, r.totalPages) &&
      1 <= r.pageNo <= r.totalPages &&
      r.pageNo == (if pageNo > r.totalPages then r.totalPages else if pageNo < 1 then 1 else pageNo) &&
      0 <= r.offset <= recordCount &&
      (r.pageNo == 1 ==> r.offset == 0) &&
      (r.pageNo >= 2 && pageSize * r.pageNo <= recordCount ==> r.offset == pageSize * r.pageNo) &&
      (r.pageNo >= 2 && pageSize * r.pageNo > recordCount ==> r.offset == recordCount - pageSize)
  {
    if pageSize < 1 || recordCount < 1 then PageOffset(0, 0, 0)
    else
      var quotient := recordCount / pageSize;
      var totalPages := if recordCount % pageSize > 0 then quotient + 1 else quotient;
      CeilingDivision(recordCount, pageSize);
      var page := if pageNo > totalPages then totalPages else pageNo;
      var offset0 := if page == 1 then 0 else pageSize * page;
      var offset1 := if offset0 % pageSize > 0 then offset0 + pageSize else offset0;
      var offset2 := if offset1 < 0 then 0 else offset1;
      var offset := if offset2 > recordCount then recordCount - pageSize else offset2;
      OffsetBounds(recordCount, pageSize, totalPages, page);
      MultipleMod(pageSize, page);
      MultipleSign(pageSize, page);
      PageOffset(
        if totalPages < 1 then 1 else totalPages,
        offset,
        if page < 1 then 1 else page)
  }

  lemma SmallMultiple(d: int, n: int)
    requires n >= 1 && 0 <= d * n < n
    ensures d == 0
  {
  }

  /** A multiple of `n` leaves no remainder. */
  lemma MultipleMod(n: int, k: int)
    requires n >= 1
    ensures (n * k) % n == 0
  {
    var x := n * k;
    assert x == (x / n) * n + x % n;
    assert (k - x / n) * n == x % n;
    SmallMultiple(k - x / n, n);
  }

  lemma MultipleSign(n: int, k: int)
    requires n >= 1
    ensures k <= 0 ==> n * k <= 0
    ensures k >= 1 ==> n * k >= n
  {
  }

  lemma FactorLess(a: int, b: int, n: int)
    requires n >= 1 && a * n < b * n
    ensures a < b
  {
    assert (b - a) * n == b * n - a * n;
  }

  lemma ScaleMonotone(a: int, b: int, n: int)
    requires 0 <= a <= b && n >= 1
    ensures 0 <= a * n <= b * n
  {
    assert b * n - a * n == (b - a) * n;
  }

  /** Division rounded up gives the page count. */
  lemma CeilingDivision(recordCount: int, pageSize: int)
    requires recordCount >= 1 && pageSize >= 1
    ensures var q := recordCount / pageSize;
      IsPageCount(recordCount, pageSize, if recordCount % pageSize > 0 then q + 1 else q)
  {
    var q := recordCount / pageSize;
    var m := recordCount % pageSize;
    assert recordCount == q * pageSize + m;
    if m > 0 {
      assert (q + 1) * pageSize == q * pageSize + pageSize;
    } else {
      assert q >= 1;
      assert (q - 1) * pageSize == q * pageSize - pageSize;
    }
  }

  /** A later page that runs past the end moves back by one page and stays at or after 0. */
  lemma OffsetBounds(recordCount: int, pageSize: int, totalPages: int, page: int)
    requires pageSize >= 1 && IsPageCount(recordCount, pageSize, totalPages)
    ensures 2 <= page <= totalPages ==> recordCount - pageSize >= 0
  {
    if 2 <= page <= totalPages {
      assert (totalPages - 1) * pageSize >= pageSize;
    }
  }

  /**
   * With 20 records of 10 per page, page 2 starts at record 20, past the
   * last record; records 10 to 19 are on no page.
   */
  lemma PageTwoSkipsAPage()
    ensures GetPageOffset(20, 10, 1) == PageOffset(2, 0, 1)
    ensures GetPageOffset(20, 10, 2) == PageOffset(2, 20, 2)
    ensures forall p :: 1 <= p <= 2 ==>
      !(GetPageOffset(20, 10, p).offset <= 15 < GetPageOffset(20, 10, p).offset + 10)
  {
    CeilingDivision(20, 10);
    assert GetPageOffset(20, 10, 1).offset == 0;
    assert GetPageOffset(20, 10, 2).offset == 20;
  }

  /** The page offset with page n starting after n - 1 full pages. */
  function IntendedPageOffset(recordCount: int, pageSize: int, pageNo: int): (r: PageOffset)
    ensures pageSize < 1 || recordCount < 1 ==> r == PageOffset(0, 0, 0)
    ensures pageSize >= 1 && recordCount >= 1 ==>
      IsPageCount(recordCount, pageSize, r.totalPages) &&
      1 <= r.pageNo <= r.totalPages &&
      r.offset == (r.pageNo - 1) * pageSize &&
      0 <= r.offset < recordCount
  {
    if pageSize < 1 || recordCount < 1 then PageOffset(0, 0, 0)
    else
      var quotient := recordCount / pageSize;
      var totalPages := if recordCount % pageSize > 0 then quotient + 1 else quotient;
      CeilingDivision(recordCount, pageSize);
      var page := if pageNo > totalPages then totalPages else if pageNo < 1 then 1 else pageNo;
      ScaleMonotone(page - 1, totalPages - 1, pageSize);
      PageOffset(totalPages, (page - 1) * pageSize, page)
  }

  /** With the intended offset every record lies on exactly the page that holds it. */
  lemma IntendedPagesCoverEveryRecord(recordCount: int, pageSize: int, record: int)
    requires pageSize >= 1 && 0 <= record < recordCount
    ensures var p := record / pageSize + 1;
      var r := IntendedPageOffset(recordCount, pageSize, p);
      r.pageNo == p && r.offset <= record < r.offset + pageSize
  {
    var q := record / pageSize;
    QuotientBounds(record, pageSize);
    var r := IntendedPageOffset(recordCount, pageSize, q + 1);
    var t := r.totalPages;
    assert q * pageSize < t * pageSize;
    FactorLess(q, t, pageSize);
    assert r.pageNo == q + 1;
  }

  /** The record's page starts at or before the record and ends after it. */
  lemma QuotientBounds(record: int, pageSize: int)
    requires pageSize >= 1 && record >= 0
    ensures var q := record / pageSize; q * pageSize <= record < q * pageSize + pageSize
  {
    assert record == (record / pageSize) * pageSize + record % pageSize;
  }

  /** The outcome of the record count query. */
  datatype CountResult = CountFailed | CountNull | Count(value: int)

  /** `CollectionInfo`: the grid summary. */
  datatype CollectionInfo = CollectionInfo(
    recordCount: int,
    totalPages: int,
    pageSize: int,
    pageNo: int,
    positionFrom: int,
    positionTo: int)

  const ZeroInfo: CollectionInfo := CollectionInfo(0, 0, 0, 0, 0, 0)

  /** `GetPagingInfo`'s three results. */
  datatype PagingInfo = PagingInfo(pageSize: int, offset: int, info: CollectionInfo)

  /** The record count the summary uses: a null count reads as 0. */
  function RecordCount(count: CountResult): int
  {
    match count
    case Count(n) => n
    case _ => 0
  }

  /**
   * `GetPagingInfo` once the count query has run: page size 10 when none is
   * given, offset -1 and an empty summary when the count fails, otherwise
   * the summary built from `GetPageOffset`.
   */
  function GetPagingInfo(pageSize: int, pageNo: int, count: CountResult): (r: PagingInfo)
    ensures r.pageSize == (if pageSize < 1 then 10 else pageSize)
    ensures count.CountFailed? ==> r.offset == -1 && r.info == ZeroInfo
    ensures !count.CountFailed? ==>
      var recordCount := RecordCount(count);
      var po := GetPageOffset(recordCount, r.pageSize, if pageNo < 1 then 1 else pageNo);
      r.offset == po.offset &&
      r.info.recordCount == recordCount &&
      r.info.totalPages == po.totalPages &&
      r.info.pageNo == po.pageNo &&
      r.info.pageSize == r.pageSize &&
      r.info.positionFrom >= 1 &&
      r.info.positionFrom == (if po.offset < 1 then 1 else po.offset) &&
      r.info.positionTo == (if po.offset + r.pageSize > recordCount then recordCount else po.offset + r.pageSize)
    ensures !count.CountFailed? && r.info.recordCount >= 1 ==>
      1 <= r.info.pageNo <= r.info.totalPages && 0 <= r.offset <= r.info.recordCount
  {
    var size := if pageSize < 1 then 10 else pageSize;
    var page := if pageNo < 1 then 1 else pageNo;
    if count.CountFailed? then PagingInfo(size, -1, ZeroInfo)
    else
      var recordCount := RecordCount(count);
      var po := GetPageOffset(recordCount, size, page);
      var pageNo' := if po.pageNo > po.totalPages then po.totalPages else po.pageNo;
      var from := if po.offset < 1 then 1 else po.offset;
      var to := if po.offset + size > recordCount then recordCount else po.offset + size;
      PagingInfo(size, po.offset, CollectionInfo(recordCount, po.totalPages, size, pageNo', from, to))
  }
}
