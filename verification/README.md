# Heap-file page addressing, scan cursor and record ids

A Dafny model of two pieces of a teaching database's heap-file storage layer.

- **`HeapFile`** turns a file length into a page count (`numPages`). It turns a page number
  into a byte offset and a page, or `null` (`readPage`). Its inner `HeapFileIterator` is the
  sequential-scan cursor. The cursor walks the pages through the buffer pool, skips empty
  pages and throws on misuse.
- **`RecordId`** is a (page id, tuple number) pair. Its `hashCode()` concatenates the decimal
  text of two hashes and parses the result back with `Integer.parseInt`. Its `equals`
  compares those hash codes.

Modules:

- `Wrappers`: `Option` (Java `null`), `Result` and `Outcome` (a return or a thrown exception),
  and the Java exceptions involved.
- `JavaInt`: Java `int` wrap-around, and `Integer.toString`, `Integer.parseInt` and
  `String.hashCode` on ASCII text.
- `Pages`: bytes, `HeapPageId`, and a `HeapPage` as an identifier plus raw bytes.
- `HeapFiles`: `numPages` and `readPage` over an immutable byte sequence.
- `HeapFileIterator`: the cursor as a state record `Cursor(isOpen, currentPage, pageIterator)`
  with one step function per method. The buffer pool's pages are a `seq<seq<T>>`, one
  sequence of tuples per page in slot order, so `numPages()` is its length.
- `RecordIds`: the record id, its getters, `hashCode()` and `equals`, and a corrected,
  structural equality.

Error handling follows the code:
- `readPage` swallows every exception and returns `null`. `ReadPage` returns `None` in those
  cases.
- The cursor throws `NoSuchElementException` (with the message "Tterator is not open.",
  spelled as in the code) and `DbException`. The step functions return those exceptions.

## Model

| member | source | states |
|---|---|---|
| JavaInt.ParseIntToString | src/java/simpledb/storage/RecordId.java:84-85 | `Integer.parseInt` reads back what `Integer.toString` wrote, for every `int` |
| JavaInt.IntToString | src/java/simpledb/storage/RecordId.java:84-85 | `Integer.toString` writes a '-' exactly for negative values, followed by the decimal digits of the magnitude with no leading zero |
| JavaInt.ParseInt | src/java/simpledb/storage/RecordId.java:85 | `Integer.parseInt` throws on empty text. Text it accepts without a sign is all digits and reads as its decimal value. Text it accepts with a '-' is digits after the sign and reads as minus their value. Conversely, non-empty digit text whose value fits an `int` is accepted with that value, and so is '-' followed by digits whose negated value fits |
| JavaInt.JavaStringHash | src/java/simpledb/storage/RecordId.java:84 | `String.hashCode`, which wraps at each step, equals the exact polynomial s[0]·31^(n-1)+…+s[n-1] wrapped once to 32 bits |
| HeapFiles.NumPages | src/java/simpledb/storage/HeapFile.java:108-111 | the page count is the largest n with n·P ≤ length (floor, never ceiling), and it saturates at `Integer.MAX_VALUE` exactly when length ≥ MAX_VALUE·P |
| HeapFiles.NumPagesIgnoresPartialPage | src/java/simpledb/storage/HeapFile.java:110 | a file of k whole pages plus r < P trailing bytes has exactly k pages |
| HeapFiles.ReadPage | src/java/simpledb/storage/HeapFile.java:77-97 | with offset = P·pageNumber wrapped to `int`, a page comes back iff 0 ≤ offset and offset+P ≤ length; it carries the requested pid and exactly bytes [offset, offset+P) of the file |
| HeapFiles.ReadPageWithoutOverflow | src/java/simpledb/storage/HeapFile.java:80-96 | when the product does not overflow, `readPage` succeeds iff 0 ≤ pageNumber < numPages(), and returns bytes [k·P, (k+1)·P). For one-byte pages this also needs numPages() below `Integer.MAX_VALUE`. Without it, page `Integer.MAX_VALUE` of a file of 2^31 bytes or more reads although it is not below the count |
| HeapFiles.ReadPageWrapsAround | src/java/simpledb/storage/HeapFile.java:80-92 | for 4096-byte pages and any file of 4096 bytes up to 4 GiB, page 2^20 lies beyond numPages(), yet `readPage` returns the bytes of page 0 |
| HeapFiles.ReadPageFailsBelowNumPages | src/java/simpledb/storage/HeapFile.java:80-86 | for 4096-byte pages and any file of at least 2^31 + 4096 bytes, page 2^19 lies below numPages(), yet its offset wraps to `Integer.MIN_VALUE` and `readPage` returns `null` |
| HeapFiles.ReadPageReturnsWrongPage | src/java/simpledb/storage/HeapFile.java:80-92 | for 4096-byte pages and any file of at least 2^32 + 4096 bytes, page 2^20 lies below numPages(), yet `readPage` returns page 0's bytes under the requested pid, while the corrected read returns bytes [2^32, 2^32 + 4096) |
| HeapFiles.ReadPageChecked | src/java/simpledb/storage/HeapFile.java:77-97 | with the offset computed exactly, a page comes back iff 0 ≤ k and (k+1)·P ≤ length, and it holds bytes [k·P, (k+1)·P) |
| HeapFiles.ReadPageCheckedMatchesNumPages | src/java/simpledb/storage/HeapFile.java:84-89 | the corrected read succeeds on every page number below numPages(). When the count is not saturated, it succeeds on no other page number |
| HeapFileIterator.Closed | src/java/simpledb/storage/HeapFile.java:131-138 | a freshly constructed iterator is not open, on page 0, with a `null` page iterator |
| HeapFileIterator.UseNextPageIterator | src/java/simpledb/storage/HeapFile.java:164-180 | the skip loop only moves forward. It stops on a page with a pending tuple or past the last page. Every page it passed over was empty, and it changes nothing when a tuple is pending |
| HeapFileIterator.SkipKeepsRemaining | src/java/simpledb/storage/HeapFile.java:164-180 | skipping loses no tuple: the pending tuples followed by all later pages are the same before and after the skip |
| HeapFileIterator.Open | src/java/simpledb/storage/HeapFile.java:145-161 | after `open()` the cursor is open and keeps the pending-tuple invariant. Every leading empty page is skipped. It is on the first non-empty page with that page's full iterator, and what remains is every tuple of the table. On a file with no pages the iterator field is left as it was |
| HeapFileIterator.HasNext | src/java/simpledb/storage/HeapFile.java:184-190 | `hasNext()` is false when not open. On every state satisfying the pending-tuple invariant, it is true exactly when some tuple remains to be delivered |
| HeapFileIterator.OpenOnEmptyTable | src/java/simpledb/storage/HeapFile.java:146-151 | on a zero-page file `open()` leaves `hasNext()` false, and `next()` then throws "No more tuples." without changing the state |
| HeapFileIterator.Next | src/java/simpledb/storage/HeapFile.java:200-217 | `next()` throws `NoSuchElementException` when not open and when exhausted, with the source's messages. Every failure leaves the state unchanged |
| HeapFileIterator.NextDeliversFirstRemaining | src/java/simpledb/storage/HeapFile.java:209-216 | from a valid state with `hasNext()` true, `next()` succeeds with the first remaining tuple. The rest stay pending in order, and the invariant is kept |
| HeapFileIterator.Close | src/java/simpledb/storage/HeapFile.java:237-241 | `close()` yields the not-open, page-0, no-iterator state whatever the prior state |
| HeapFileIterator.Rewind | src/java/simpledb/storage/HeapFile.java:224-231 | `rewind()` throws `DbException` and changes nothing when not open. Otherwise it is `close()` followed by `open()` |
| HeapFileIterator.RewindRestartsScan | src/java/simpledb/storage/HeapFile.java:224-231 | after a rewind of an open cursor, the tuples still to come are the whole table again, from the first tuple |
| HeapFileIterator.Scan | src/java/simpledb/storage/HeapFile.java:145-217 | `open()` then `next()` while `hasNext()` yields exactly the concatenation of all pages, page-ascending and slot-ascending, and ends with `hasNext()` false |
| RecordIds.RecordId.GetPageId | src/java/simpledb/storage/RecordId.java:43-46 | `getPageId()` returns the page id the record id was built from: rebuilding with it and the tuple number gives the same record id |
| RecordIds.RecordId.GetTupleNumber | src/java/simpledb/storage/RecordId.java:35-38 | `getTupleNumber()` returns the tuple number the record id was built from: rebuilding with the page id and it gives the same record id |
| RecordIds.NewRecordId | src/java/simpledb/storage/RecordId.java:26-46 | the getters return exactly the constructor's arguments |
| RecordIds.GettersDetermineRecordId | src/java/simpledb/storage/RecordId.java:12-13 | nothing but the page id and the tuple number is stored: two record ids are equal iff their getters agree |
| RecordIds.MinusInsideFails | src/java/simpledb/storage/RecordId.java:85 | a negative tuple hash puts a '-' inside the text, and `parseInt` throws |
| RecordIds.HashCode | src/java/simpledb/storage/RecordId.java:81-88 | the only exception `hashCode()` throws is `NumberFormatException`, carrying the concatenated text, and it always throws when the tuple number's string hash is negative |
| RecordIds.HashCodeSpec | src/java/simpledb/storage/RecordId.java:81-88 | `hashCode()` succeeds iff the tuple-number hash is non-negative and the number spelled by the two hashes' digits fits an `int`. That number is the page hash's digits shifted past the tuple hash's, with the page hash's sign. On success it is the result |
| RecordIds.HashCodeDependsOnComponentHashes | src/java/simpledb/storage/RecordId.java:83-85 | two record ids with the same page hash and the same tuple-number hash have the same `hashCode()` outcome |
| RecordIds.Equals | src/java/simpledb/storage/RecordId.java:55-72 | `equals` is false for a non-record-id. For a record id it throws iff either `hashCode()` throws, and it is true iff both succeed with equal values |
| RecordIds.EqualsIsEquivalence | src/java/simpledb/storage/RecordId.java:55-72 | wherever `hashCode()` is defined, `equals` is reflexive, symmetric and transitive. Whether it throws does not depend on argument order |
| RecordIds.EqualsImpliesEqualHashCode | src/java/simpledb/storage/RecordId.java:74-78 | record ids that compare equal have equal `hashCode()` |
| RecordIds.EqualsNotStructural | src/java/simpledb/storage/RecordId.java:63 | tuple 74 on a page hashing to 1 equals tuple 9 on a page hashing to 117: both spell 11757 |
| RecordIds.NegativeTupleHash | src/java/simpledb/storage/RecordId.java:84 | the string hash of "1700000" wraps to −2136549942 |
| RecordIds.HashCodeThrowsOnNegativeTupleHash | src/java/simpledb/storage/RecordId.java:84-85 | every record id with tuple number 1700000 throws from `hashCode()`, so `equals` throws even against itself |
| RecordIds.HashCodeThrowsOnOverflow | src/java/simpledb/storage/RecordId.java:85 | a page hash of `Integer.MAX_VALUE` makes `hashCode()` throw even for tuple 0 |
| RecordIds.HashCodeThrowsOnLongPageHash | src/java/simpledb/storage/RecordId.java:85 | a page hash of magnitude 10^8 or more makes `hashCode()` throw whenever the tuple number's string hash has two or more digits |
| RecordIds.StructuralEqualsSpec | src/java/simpledb/storage/RecordId.java:48-53 | the corrected equality holds iff the components are equal. It is false for other objects, it is an equivalence, and equal record ids have equal `31·pageHash + tupleNumber` hashes |

## Left out

- The file itself: `RandomAccessFile`, seek, `readFully` and close are not modelled. The file is an immutable byte sequence, and an I/O error other than a short read has no counterpart.
- The buffer pool, `Permissions` and transactions: a page fetch is a lookup into `seq<seq<T>>`. Locking and pinning belong to the buffer pool.
- The `HeapPage` slot layout and its `iterator()`: a page's tuples are an opaque sequence, and a page read from disk is its id plus its bytes.
- `HeapPageId.hashCode()`: not part of this model. The record-id members take it as a function parameter `pageHash`.
- `getId()`: it hashes the file's absolute path, and the cursor's pages are already those of one table.
- `getFile`, `getTupleDesc`: accessors with no behaviour to state.
- `writePage`, `insertTuple`, `deleteTuple`: empty stubs.
- `iterator(tid)` and the transaction id the iterator's constructor stores: page fetches are lookups that do not depend on it.
- File growth during a scan: the pages are fixed for the whole life of a cursor.
- `Serializable` and `serialVersionUID`.
- `Integer.parseInt` also accepts non-ASCII Unicode digits. `JavaInt.ParseInt` accepts ASCII digits only, which is all `Integer.toString` produces.
- HeapFiles.ReadPage: states success through the wrapped offset, not through page numbers. The page-number form holds only without overflow, and `HeapFiles.ReadPageWithoutOverflow` states it under that condition.
- HeapFileIterator.HasNext: the link to the remaining tuples holds only on states satisfying the pending-tuple invariant. Those are the states `open()` and `next()` produce.
- HeapFileIterator.Scan: assumes that page k, for every k below `numPages()`, can be fetched and holds that page's own tuples. With `readPage` as written this fails for page numbers at or above 2^31/P, in files of 2 GiB or more. Some such pages read as `null` (`HeapFiles.ReadPageFailsBelowNumPages`). In files of 4 GiB plus one page or more, others silently read an earlier page's bytes under the requested pid (`HeapFiles.ReadPageReturnsWrongPage`), so a scan would deliver that earlier page's tuples again with no error. What the buffer pool does with a `null` page is not part of this model.
- HeapFiles.ReadPage: takes a `HeapPageId`. The Java method also accepts a `PageId` of another class, or `null`; the cast at HeapFile.java:92 or the call at line 80 then throws inside the `try`, and `null` is returned. Those arguments are not modelled.
- RecordIds.RecordId: the page id is never `null`. The Java constructor accepts a `null` page id (RecordId.java:26-30). Its `hashCode()` then throws `NullPointerException` at line 83, and so does `equals`. That path is not modelled.
- HeapFiles.ReadPageCheckedMatchesNumPages: cannot exclude page numbers at or beyond `Integer.MAX_VALUE`. Once the count saturates, `numPages()` no longer bounds the pages of the file.

## Findings

| source | as written | input that shows it | evidently intended | confidence | as-written member | corrected member |
|---|---|---|---|---|---|---|
| src/java/simpledb/storage/HeapFile.java:80 | `int offset = BufferPool.getPageSize() * pid.getPageNumber()` overflows | page size 4096, page number 1048576 (2^20), any file of 4096 bytes to 4 GiB: the offset wraps to 0 and page 0 is returned | the offset computed in `long`, so pages past the end return `null` | not executed | HeapFiles.ReadPageWrapsAround | HeapFiles.ReadPageChecked |
| src/java/simpledb/storage/HeapFile.java:80-86 | the same `int` overflow turns real pages into `null` | page size 4096, page number 524288 (2^19), any file of at least 2^31 + 4096 bytes: the page is below numPages(), but the offset wraps to `Integer.MIN_VALUE` and fails the `offset < 0` check | the offset computed in `long`, so every page below numPages() is read | not executed | HeapFiles.ReadPageFailsBelowNumPages | HeapFiles.ReadPageCheckedMatchesNumPages |
| src/java/simpledb/storage/HeapFile.java:80-92 | the same `int` overflow silently returns another page's bytes | page size 4096, page number 1048576 (2^20), any file of at least 2^32 + 4096 bytes: the page is below numPages(), but the offset wraps to 0 and page 0's bytes come back tagged with the requested pid | the offset computed in `long`, so page 2^20 holds bytes [2^32, 2^32 + 4096) | not executed | HeapFiles.ReadPageReturnsWrongPage | HeapFiles.ReadPageChecked |
| src/java/simpledb/storage/RecordId.java:63 | `equals` compares only `hashCode()` values, and `hashCode()` collides by digit juxtaposition | tuple 74 on a page whose hash is 1, and tuple 9 on a page whose hash is 117: both give 11757 | the same page id and the same tuple number | not executed | RecordIds.EqualsNotStructural | RecordIds.StructuralEqualsSpec |
| src/java/simpledb/storage/RecordId.java:85 | `Integer.parseInt` of the concatenation throws for a negative string hash or an out-of-range number | tuple number 1700000 (its string hash is −2136549942); a page whose hash is `Integer.MAX_VALUE`; more generally any page hash of magnitude 10^8 or more with a tuple number whose string hash has two or more digits, such as every tuple number from 0 to 9 | a total hash such as 31·pageHash + tupleNumber | not executed | RecordIds.HashCodeThrowsOnNegativeTupleHash | RecordIds.StructuralEqualsSpec |
