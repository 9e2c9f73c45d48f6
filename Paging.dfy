/**
 The page arithmetic of the SpaceClearer window: a page start index over a
 list of a given length, the range of rows the pane renders, and the
 conditions under which the Next and Previous buttons are offered.
 */
module Paging {

  /** Rows per page, the constant 5 of the row loop and of both page buttons. */
  const PageSize: nat := 5

  /** A page start the page buttons can produce from 0. */
  predicate Aligned(start: int)
  {
    start >= 0 && start % PageSize == 0
  }

  /** Whether the row loop visits index i: it counts up from start while i < start + 5 and i < total. */
  predicate LoopVisits(start: int, total: nat, i: int)
  {
    start <= i && i < start + PageSize && i < total
  }

  /** The half-open range [lo, hi) of row indices. */
  datatype Range = Range(lo: int, hi: int) {
    predicate Contains(i: int)
    {
      lo <= i < hi
    }

    function Length(): int
    {
      hi - lo
    }
  }

  function Min(a: int, b: int): (m: int)
  {
    if a <= b then a else b
  }

  /** The rows rendered for this page start: at most a page, none past the list, none before start. */
  function VisibleRange(start: int, total: nat): (r: Range)
    ensures r.lo == start && 0 <= r.Length() <= PageSize
    ensures r.Length() > 0 ==> r.hi <= total
    ensures forall i :: r.Contains(i) <==> LoopVisits(start, total, i)
  {
    if start < total then Range(start, Min(start + PageSize, total)) else Range(start, start)
  }

  /** "Next Page" is offered exactly when the page after this one would render at least one row. */
  predicate HasNext(start: int, total: nat): (b: bool)
    ensures b <==> VisibleRange(Advance(start), total).Length() > 0
  {
    start + PageSize < total
  }

  /** "Previous Page" is offered exactly when going back a page keeps the start non-negative. */
  predicate HasPrev(start: int): (b: bool)
    ensures b <==> Retreat(start) >= 0
  {
    start >= PageSize
  }

  /** The Next Page handler: from an aligned start, a later aligned start. */
  function Advance(start: int): (r: int)
    ensures r > start
    ensures Aligned(start) ==> Aligned(r)
  {
    start + PageSize
  }

  /**
   The Previous Page handler: an earlier start, aligned when the old start
   was aligned and at least a page in, negative when it was on the first page.
   */
  function Retreat(start: int): (r: int)
    ensures r < start
    ensures Aligned(start) && start >= PageSize ==> Aligned(r)
    ensures 0 <= start < PageSize ==> r < 0
  {
    start - PageSize
  }

  /** Next is offered exactly when some entry lies past the rows of the current page. */
  lemma HasNextIffRowsBeyondPage(start: int, total: nat)
    requires 0 <= start <= total
    ensures HasNext(start, total) <==> VisibleRange(start, total).hi < total
  {
  }

  /** Past the end of the list Next is hidden although the rendered range does not end at the list's end. */
  lemma NextHiddenPastTheEnd(start: int, total: nat)
    requires start > total
    ensures !HasNext(start, total) && VisibleRange(start, total).hi != total
  {
  }

  /** From an aligned start, Previous is offered on every page but the first. */
  lemma HasPrevIffNotFirstPage(start: int)
    requires Aligned(start)
    ensures HasPrev(start) <==> start != 0
  {
  }

  /** Taking an offered page button keeps the page start aligned. */
  lemma MovesKeepAligned(start: int, total: nat)
    requires Aligned(start)
    ensures HasNext(start, total) ==> Aligned(Advance(start))
    ensures HasPrev(start) ==> Aligned(Retreat(start))
  {
  }

  /** On an empty list the row loop renders nothing from a non-negative start. */
  lemma EmptyListRendersNoRows(start: int)
    requires start >= 0
    ensures VisibleRange(start, 0).Length() == 0
    ensures !HasNext(start, 0)
  {
  }

  /** Only a negative start (which an offered Previous never produces) lets the row loop run over an empty list. */
  lemma NegativeStartVisitsEmptyList(start: int)
    requires start < 0
    ensures LoopVisits(start, 0, start)
    ensures VisibleRange(start, 0).Length() > 0
  {
  }

  /** Twelve files: pages of 5, 5 and 2 rows; after two Next the last page has no Next. */
  lemma TwelveFiles()
    ensures VisibleRange(0, 12).Length() == 5 && HasNext(0, 12) && !HasPrev(0)
    ensures Advance(0) == 5 && VisibleRange(5, 12).Length() == 5 && HasNext(5, 12) && HasPrev(5)
    ensures Advance(Advance(0)) == 10
    ensures VisibleRange(10, 12) == Range(10, 12) && !HasNext(10, 12) && HasPrev(10)
  {
  }
}
