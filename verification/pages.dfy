/** The page identity and page value a heap file hands out. The on-disk slot layout of a
    heap page is not part of this model: a page is its identifier plus its raw bytes. */
module Pages {
  import opened JavaInt

  /** One byte of file content. */
  newtype byte = x: int | 0 <= x < 256

  /** A heap page identifier: the owning table's id and the zero-based page number. */
  datatype HeapPageId = HeapPageId(tableId: Int32, pageNumber: Int32)

  /** A page materialised from its identifier and exactly one page of raw bytes. */
  datatype HeapPage = HeapPage(pid: HeapPageId, data: seq<byte>)
}
