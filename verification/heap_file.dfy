/** Page addressing of a heap file: how many whole pages the backing file holds and how a
    page number becomes a byte offset and a materialised page. The file is an immutable
    byte sequence; the page size is the process-wide `BufferPool` page size. */
module HeapFiles {
  import opened Wrappers
  import opened JavaInt
  import opened Pages

  /** `BufferPool.getPageSize()`: a positive `int`. */
  type PageSize = p: int | 0 < p <= IntMax witness DefaultPageSize

  const DefaultPageSize: int := 4096

  /** The backing file; `Length()` is `File.length()`. */
  datatype DiskFile = DiskFile(bytes: seq<byte>) {
    function Length(): nat {
      |bytes|
    }
  }

  lemma MulMonotone(a: int, b: int, p: nat)
    requires a <= b
    ensures a * p <= b * p
  {
  }

  lemma MulCancelLess(a: int, b: int, p: nat)
    requires a * p < b * p
    ensures a < b
  {
    if a >= b {
      MulMonotone(b, a, p);
    }
  }

  /** `numPages()` of a file of `length` bytes: the length divided by the page size in `long` arithmetic, which
      already floors, so `Math.ceil` has nothing to round up; the cast of that `double`
      back to `int` saturates at `Integer.MAX_VALUE`. */
  function NumPages(length: nat, pageSize: PageSize): (n: Int32)
    ensures 0 <= n
    ensures n * pageSize <= length
    ensures n < IntMax ==> length < (n + 1) * pageSize
    ensures n == IntMax <==> length >= IntMax * pageSize
  {
    var whole := length / pageSize;
    FloorBounds(length, pageSize, whole);
    if whole > IntMax then IntMax else whole
  }

  lemma FloorBounds(length: nat, pageSize: PageSize, whole: int)
    requires whole == length / pageSize
    ensures whole * pageSize <= length < (whole + 1) * pageSize
    ensures whole >= IntMax ==> IntMax * pageSize <= length
    ensures whole < IntMax ==> length < IntMax * pageSize
  {
    assert whole * pageSize <= length < (whole + 1) * pageSize;
    if whole >= IntMax {
      MulMonotone(IntMax, whole, pageSize);
    } else {
      MulMonotone(whole + 1, IntMax, pageSize);
    }
  }

  /** Page `k` lies wholly inside the file exactly when `k` is below `numPages()` (short of saturation). */
  lemma PageWithinFile(f: DiskFile, pageSize: PageSize, k: int)
    ensures 0 <= k < NumPages(f.Length(), pageSize) ==> (k + 1) * pageSize <= f.Length()
    ensures k >= NumPages(f.Length(), pageSize) && NumPages(f.Length(), pageSize) < IntMax ==> (k + 1) * pageSize > f.Length()
  {
    var n := NumPages(f.Length(), pageSize);
    if 0 <= k < n {
      MulMonotone(k + 1, n, pageSize);
    } else if k >= n && n < IntMax {
      MulMonotone(n + 1, k + 1, pageSize);
    }
  }

  /** A trailing partial page is never counted: `k` whole pages plus `r < pageSize` bytes is `k` pages. */
  lemma NumPagesIgnoresPartialPage(length: nat, pageSize: PageSize, k: nat, r: nat)
    requires k <= IntMax && r < pageSize
    requires length == k * pageSize + r
    ensures NumPages(length, pageSize) == k
  {
    var n := NumPages(length, pageSize);
    if n < k {
      MulMonotone(n + 1, k, pageSize);
    } else if n > k {
      MulMonotone(k + 1, n, pageSize);
    }
  }

  /** The byte offset `readPage` computes: `pageSize * pageNumber` in `int` arithmetic. */
  function PageOffset(pageSize: PageSize, pageNumber: Int32): Int32
  {
    Wrap32(pageSize * pageNumber)
  }

  /** `readPage(pid)`: `None` is the `null` returned once the exception is swallowed, either
      because the offset is negative or past the end of the file, or because `readFully`
      reaches the end of the file before a whole page is read. */
  function ReadPage(f: DiskFile, pageSize: PageSize, pid: HeapPageId): (r: Option<HeapPage>)
    ensures var offset := PageOffset(pageSize, pid.pageNumber);
      r.Some? <==> 0 <= offset && offset + pageSize <= f.Length()
    ensures r.Some? ==>
      var offset := PageOffset(pageSize, pid.pageNumber);
      && r.value.pid == pid
      && 0 <= offset
      && r.value.data == f.bytes[offset..offset + pageSize]
  {
    var offset := PageOffset(pageSize, pid.pageNumber);
    if offset < 0 || offset >= f.Length() then None
    else if offset + pageSize > f.Length() then None
    else Some(HeapPage(pid, f.bytes[offset..offset + pageSize]))
  }

  /** While `pageSize * pageNumber` fits an `int`, `readPage` succeeds exactly on the page
      numbers below `numPages()`, and then returns that page's bytes. Only one-byte pages
      need the count to be short of saturation. */
  lemma ReadPageWithoutOverflow(f: DiskFile, pageSize: PageSize, pid: HeapPageId)
    requires InInt32(pageSize * pid.pageNumber)
    requires pageSize > 1 || NumPages(f.Length(), pageSize) < IntMax
    ensures ReadPage(f, pageSize, pid).Some? <==> 0 <= pid.pageNumber < NumPages(f.Length(), pageSize)
    ensures ReadPage(f, pageSize, pid).Some? ==>
      var offset := pageSize * pid.pageNumber;
      ReadPage(f, pageSize, pid).value.data == f.bytes[offset..offset + pageSize]
  {
    var k := pid.pageNumber;
    assert PageOffset(pageSize, k) == k * pageSize;
    assert k * pageSize + pageSize == (k + 1) * pageSize;
    if k < 0 {
      MulMonotone(k, -1, pageSize);
    } else {
      MulMonotone(0, k, pageSize);
      PageWithinFile(f, pageSize, k);
      var n := NumPages(f.Length(), pageSize);
      if n == IntMax {
        // With pages of two bytes or more an in-range product keeps `k` below the saturated count.
        MulMonotone(2, pageSize, k);
        MulMonotone(k + 1, IntMax, pageSize);
      }
    }
  }

  /** The product `pageSize * pageNumber` wraps: with 4096-byte pages, page 2^20 of any file
      shorter than 4 GiB lies past the last page, yet `readPage` returns the bytes of page 0. */
  lemma ReadPageWrapsAround(f: DiskFile, tableId: Int32)
    requires DefaultPageSize <= f.Length() < TwoTo32
    ensures var pid := HeapPageId(tableId, 0x10_0000);
      && NumPages(f.Length(), DefaultPageSize) < pid.pageNumber
      && ReadPage(f, DefaultPageSize, pid) == Some(HeapPage(pid, f.bytes[0..DefaultPageSize]))
  {
    var pid := HeapPageId(tableId, 0x10_0000);
    assert DefaultPageSize * pid.pageNumber == TwoTo32;
    WrapShift(0, 1);
    assert PageOffset(DefaultPageSize, pid.pageNumber) == 0;
    var n := NumPages(f.Length(), DefaultPageSize);
    MulCancelLess(n, pid.pageNumber, DefaultPageSize);
  }

  /** The same wrap makes real pages unreadable: with 4096-byte pages, page 2^19 of any file
      of at least 2 GiB plus one page lies below `numPages()`, yet its offset wraps to
      `Integer.MIN_VALUE` and `readPage` returns `null`. */
  lemma ReadPageFailsBelowNumPages(f: DiskFile, tableId: Int32)
    requires (0x8_0000 + 1) * DefaultPageSize <= f.Length()
    ensures var pid := HeapPageId(tableId, 0x8_0000);
      && pid.pageNumber < NumPages(f.Length(), DefaultPageSize)
      && ReadPage(f, DefaultPageSize, pid).None?
  {
    var pid := HeapPageId(tableId, 0x8_0000);
    assert DefaultPageSize * pid.pageNumber == TwoTo31;
    assert PageOffset(DefaultPageSize, pid.pageNumber) == IntMin;
  }

  /** Past 4 GiB the wrap lands on another page without any error: with 4096-byte pages,
      page 2^20 of a file of at least 4 GiB plus one page lies below `numPages()`, and
      `readPage` hands back the bytes of page 0 tagged with the requested pid, where the
      corrected read returns the page's own bytes. */
  lemma ReadPageReturnsWrongPage(f: DiskFile, tableId: Int32)
    requires (0x10_0000 + 1) * DefaultPageSize <= f.Length()
    ensures var pid := HeapPageId(tableId, 0x10_0000);
      && pid.pageNumber < NumPages(f.Length(), DefaultPageSize)
      && ReadPage(f, DefaultPageSize, pid) == Some(HeapPage(pid, f.bytes[0..DefaultPageSize]))
      && ReadPageChecked(f, DefaultPageSize, pid) == Some(HeapPage(pid, f.bytes[TwoTo32..TwoTo32 + DefaultPageSize]))
  {
    var pid := HeapPageId(tableId, 0x10_0000);
    assert DefaultPageSize * pid.pageNumber == TwoTo32;
    WrapShift(0, 1);
    assert PageOffset(DefaultPageSize, pid.pageNumber) == 0;
  }

  /** `readPage` with the offset computed in `long` arithmetic, as intended: a page exists
      exactly when all of its bytes lie inside the file. */
  function ReadPageChecked(f: DiskFile, pageSize: PageSize, pid: HeapPageId): (r: Option<HeapPage>)
    ensures var k := pid.pageNumber as int;
      r.Some? <==> 0 <= k && (k + 1) * pageSize <= f.Length()
    ensures r.Some? ==>
      var k := pid.pageNumber as int;
      && r.value.pid == pid
      && r.value.data == f.bytes[k * pageSize..(k + 1) * pageSize]
  {
    var k := pid.pageNumber as int;
    if k < 0 then None
    else
      var offset := k * pageSize;
      assert offset + pageSize == (k + 1) * pageSize;
      if offset + pageSize > f.Length() then None
      else Some(HeapPage(pid, f.bytes[offset..offset + pageSize]))
  }

  /** The corrected read accepts exactly the page numbers below `numPages()` (short of saturation). */
  lemma ReadPageCheckedMatchesNumPages(f: DiskFile, pageSize: PageSize, pid: HeapPageId)
    ensures 0 <= pid.pageNumber < NumPages(f.Length(), pageSize) ==> ReadPageChecked(f, pageSize, pid).Some?
    ensures ReadPageChecked(f, pageSize, pid).Some? && NumPages(f.Length(), pageSize) < IntMax ==>
      0 <= pid.pageNumber < NumPages(f.Length(), pageSize)
  {
    PageWithinFile(f, pageSize, pid.pageNumber as int);
  }
}
