/** The sequential-scan cursor of a heap file (`HeapFile.HeapFileIterator`) as an explicit
    state record and step functions. The buffer pool's answer for page `k` is `pages[k]`, the
    tuples of that page in slot order, so `numPages()` is `|pages|`. Every step returns the
    new state together with the value or the exception, so a failing step can be seen to
    leave the state alone. */
module HeapFileIterator {
  import opened Wrappers

  /** The fields `isOpen`, `currentPage` and `heapPageIterator`; the iterator is the list of
      tuples it has yet to return, and `None` is the `null` it holds before the first `open()`
      and after `close()`. */
  datatype Cursor<T> = Cursor(isOpen: bool, currentPage: nat, pageIterator: Option<seq<T>>)

  /** The state of a freshly constructed iterator, and the state `close()` leaves. */
  function Closed<T>(): (c: Cursor<T>)
    ensures !c.isOpen && c.currentPage == 0 && c.pageIterator.None?
  {
    Cursor(false, 0, None)
  }

  /** All tuples of the pages, page by page and each page in slot order. */
  function Flatten<T>(pages: seq<seq<T>>): seq<T>
  {
    if |pages| == 0 then [] else pages[0] + Flatten(pages[1..])
  }

  lemma FlattenFrom<T>(pages: seq<seq<T>>, i: nat)
    requires i < |pages|
    ensures Flatten(pages[i..]) == pages[i] + Flatten(pages[i + 1..])
  {
    assert pages[i..][1..] == pages[i + 1..];
  }

  /** Tuples an iterator field has yet to return. */
  function Pending<T>(it: Option<seq<T>>): seq<T>
  {
    match it
    case None => []
    case Some(tuples) => tuples
  }

  /** The tuples a cursor still has to deliver: the rest of the current page, then every
      later page. Nothing once it is closed or past the last page. */
  function Remaining<T>(pages: seq<seq<T>>, c: Cursor<T>): seq<T>
  {
    if !c.isOpen || c.currentPage >= |pages| then []
    else Pending(c.pageIterator) + Flatten(pages[c.currentPage + 1..])
  }

  /** The invariant the skip loop keeps: an open cursor is never past the end, and whenever it
      is on a page it holds a pending tuple. */
  predicate Valid<T>(pages: seq<seq<T>>, c: Cursor<T>)
  {
    c.isOpen ==>
      && c.currentPage <= |pages|
      && (c.currentPage < |pages| ==> c.pageIterator.Some? && |c.pageIterator.value| > 0)
  }

  /** `UseNextPageIterator`: while the iterator is exhausted, move to the next page and take
      its iterator, stopping once the page number reaches `numPages()`. */
  function UseNextPageIterator<T>(pages: seq<seq<T>>, page: nat, it: seq<T>): (r: (nat, seq<T>))
    ensures page <= r.0
    ensures r.0 < |pages| ==> |r.1| > 0
    ensures page < |pages| ==> r.0 <= |pages|
    ensures r.0 > page ==> |it| == 0 && forall j :: page < j < r.0 && j < |pages| ==> |pages[j]| == 0
    ensures r.0 == page ==> r.1 == it
    ensures page < r.0 < |pages| ==> r.1 == pages[r.0]
    decreases |pages| - page
  {
    if |it| > 0 then (page, it)
    else if page + 1 < |pages| then UseNextPageIterator(pages, page + 1, pages[page + 1])
    else (page + 1, it)
  }

  /** Skipping empty pages loses no tuple: what was pending before the skip is what is
      pending after it. */
  lemma {:induction false} SkipKeepsRemaining<T>(pages: seq<seq<T>>, page: nat, it: seq<T>)
    requires page < |pages|
    ensures var r := UseNextPageIterator(pages, page, it);
      it + Flatten(pages[page + 1..]) == if r.0 < |pages| then r.1 + Flatten(pages[r.0 + 1..]) else []
    decreases |pages| - page
  {
    if |it| == 0 {
      if page + 1 < |pages| {
        FlattenFrom(pages, page + 1);
        SkipKeepsRemaining(pages, page + 1, pages[page + 1]);
      } else {
        assert pages[page + 1..] == [];
      }
    }
  }

  /** `open()`: page 0, then skip forward over empty pages; with no pages at all the iterator
      field is left as it was. */
  function Open<T>(pages: seq<seq<T>>, c: Cursor<T>): (r: Cursor<T>)
    ensures r.isOpen && Valid(pages, r)
    ensures Remaining(pages, r) == Flatten(pages)
    ensures forall j :: 0 <= j < r.currentPage && j < |pages| ==> |pages[j]| == 0
    ensures r.currentPage < |pages| ==> |pages[r.currentPage]| > 0 && r.pageIterator == Some(pages[r.currentPage])
    ensures |pages| == 0 ==> r == Cursor(true, 0, c.pageIterator)
  {
    if |pages| == 0 then Cursor(true, 0, c.pageIterator)
    else
      FlattenFrom(pages, 0);
      assert pages[0..] == pages;
      SkipKeepsRemaining(pages, 0, pages[0]);
      var (page, it) := UseNextPageIterator(pages, 0, pages[0]);
      Cursor(true, page, Some(it))
  }

  /** `hasNext()`: false when not open, otherwise whether the current page is below
      `numPages()`. On every state the cursor can reach, that is exactly whether tuples remain. */
  function HasNext<T>(pages: seq<seq<T>>, c: Cursor<T>): (r: bool)
    ensures !c.isOpen ==> !r
    ensures Valid(pages, c) ==> (r <==> |Remaining(pages, c)| > 0)
  {
    c.isOpen && c.currentPage < |pages|
  }

  /** On a file with no pages, `open()` leaves `hasNext()` false and `next()` throws, every time. */
  lemma OpenOnEmptyTable<T>(pages: seq<seq<T>>, c: Cursor<T>)
    requires |pages| == 0
    ensures !HasNext(pages, Open(pages, c))
    ensures Next(pages, Open(pages, c)) == (Open(pages, c), Failure(NoSuchElementException("No more tuples.")))
  {
  }

  /** `next()`: the two `NoSuchElementException`s, then the page iterator's next tuple and the
      skip over empty pages. A `null` page iterator throws `NullPointerException`; an exhausted
      one is assumed to throw `NoSuchElementException`, with its message not modelled (written
      as ""). No reachable state gets to either. */
  function Next<T>(pages: seq<seq<T>>, c: Cursor<T>): (r: (Cursor<T>, Result<T, JavaException>))
    ensures !c.isOpen ==> r == (c, Failure(NoSuchElementException("Tterator is not open.")))
    ensures c.isOpen && !HasNext(pages, c) ==> r == (c, Failure(NoSuchElementException("No more tuples.")))
    ensures r.1.Failure? ==> r.0 == c
  {
    if !c.isOpen then (c, Failure(NoSuchElementException("Tterator is not open.")))
    else if !HasNext(pages, c) then (c, Failure(NoSuchElementException("No more tuples.")))
    else
      match c.pageIterator
      case None => (c, Failure(NullPointerException))
      case Some(it) =>
        if |it| == 0 then (c, Failure(NoSuchElementException("")))
        else
          var (page, rest) := UseNextPageIterator(pages, c.currentPage, it[1..]);
          (Cursor(true, page, Some(rest)), Success(it[0]))
  }

  /** From a reachable state with `hasNext()` true, `next()` returns the first remaining tuple,
      the rest stay pending, and the pending-tuple invariant still holds. */
  lemma NextDeliversFirstRemaining<T>(pages: seq<seq<T>>, c: Cursor<T>)
    requires Valid(pages, c) && HasNext(pages, c)
    ensures var r := Next(pages, c);
      && r.1.Success?
      && r.0.isOpen
      && Valid(pages, r.0)
      && [r.1.value] + Remaining(pages, r.0) == Remaining(pages, c)
  {
    var it, p := c.pageIterator.value, c.currentPage;
    var (page, rest) := UseNextPageIterator(pages, p, it[1..]);
    assert Next(pages, c) == (Cursor(true, page, Some(rest)), Success(it[0]));
    assert Remaining(pages, c) == it + Flatten(pages[p + 1..]);
    TakeFirstPending(pages, p, it);
  }

  /** Taking the first pending tuple and skipping on keeps the invariant, and the taken tuple
      followed by what then remains is what was pending before. */
  lemma TakeFirstPending<T>(pages: seq<seq<T>>, p: nat, it: seq<T>)
    requires p < |pages| && |it| > 0
    ensures var (page, rest) := UseNextPageIterator(pages, p, it[1..]);
      var after := Cursor(true, page, Some(rest));
      && Valid(pages, after)
      && [it[0]] + Remaining(pages, after) == it + Flatten(pages[p + 1..])
  {
    var later := Flatten(pages[p + 1..]);
    var (page, rest) := UseNextPageIterator(pages, p, it[1..]);
    var after := Cursor(true, page, Some(rest));
    SkipKeepsRemaining(pages, p, it[1..]);
    assert Remaining(pages, after) == it[1..] + later;
    ConsAppend(it, later);
  }

  lemma ConsAppend<T>(s: seq<T>, t: seq<T>)
    requires |s| > 0
    ensures s + t == [s[0]] + (s[1..] + t)
  {
    assert s == [s[0]] + s[1..];
  }

  /** `close()`: not open, page 0, iterator dropped, whatever the state was. */
  function Close<T>(c: Cursor<T>): (r: Cursor<T>)
    ensures r == Closed()
  {
    Cursor(false, 0, None)
  }

  /** `rewind()`: a `DbException` when not open, otherwise `close()` then `open()`. */
  function Rewind<T>(pages: seq<seq<T>>, c: Cursor<T>): (r: (Cursor<T>, Outcome<JavaException>))
    ensures !c.isOpen ==> r == (c, Fail(DbException("Iterator is not yet open.")))
    ensures c.isOpen ==> r == (Open(pages, Close(c)), Pass)
  {
    if !c.isOpen then (c, Fail(DbException("Iterator is not yet open.")))
    else (Open(pages, Close(c)), Pass)
  }

  /** After a rewind the cursor replays the whole table from the first tuple. */
  lemma RewindRestartsScan<T>(pages: seq<seq<T>>, c: Cursor<T>)
    requires c.isOpen
    ensures Rewind(pages, c).1 == Pass
    ensures Remaining(pages, Rewind(pages, c).0) == Flatten(pages)
  {
  }

  /** A full scan: `open()`, then `next()` while `hasNext()`. It yields every tuple of every
      page, pages ascending and slots ascending, and ends with `hasNext()` false. */
  method Scan<T>(pages: seq<seq<T>>) returns (tuples: seq<T>, c: Cursor<T>)
    ensures tuples == Flatten(pages)
    ensures c.isOpen && !HasNext(pages, c)
  {
    c := Open(pages, Closed());
    tuples := [];
    while HasNext(pages, c)
      invariant c.isOpen && Valid(pages, c)
      invariant tuples + Remaining(pages, c) == Flatten(pages)
      decreases |Remaining(pages, c)|
    {
      var step := Next(pages, c);
      ScanStep(pages, c, tuples);
      tuples := tuples + [step.1.value];
      c := step.0;
    }
  }

  /** One round of the scan loop keeps the loop invariant and shrinks what remains. */
  lemma ScanStep<T>(pages: seq<seq<T>>, c: Cursor<T>, tuples: seq<T>)
    requires Valid(pages, c) && HasNext(pages, c)
    requires tuples + Remaining(pages, c) == Flatten(pages)
    ensures var step := Next(pages, c);
      && step.1.Success? && step.0.isOpen && Valid(pages, step.0)
      && (tuples + [step.1.value]) + Remaining(pages, step.0) == Flatten(pages)
      && |Remaining(pages, step.0)| < |Remaining(pages, c)|
  {
    NextDeliversFirstRemaining(pages, c);
    var step := Next(pages, c);
    assert (tuples + [step.1.value]) + Remaining(pages, step.0) == tuples + ([step.1.value] + Remaining(pages, step.0));
  }
}
