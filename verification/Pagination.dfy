/** computePagination and buildPageList: the page buttons of the downloads page. */
module Pagination {
  import opened Common

  const BUILDS_PER_PAGE: int := 10
  const WINDOW: int := 5
  const ELLIPSIS_THRESHOLD: int := 3

  datatype PageLink = PageLink(number: int, offset: int, active: bool) | Ellipsis

  function LinkTo(n: int, currentPage: int): PageLink {
    PageLink(n, (n - 1) * BUILDS_PER_PAGE, n == currentPage)
  }

  function Links(from: int, to: int, currentPage: int): (s: seq<PageLink>)
    requires from <= to + 1
    ensures |s| == to - from + 1
    ensures forall i :: 0 <= i < |s| ==> s[i] == LinkTo(from + i, currentPage)
  {
    seq(to - from + 1, i requires 0 <= i < to - from + 1 => LinkTo(from + i, currentPage))
  }

  /** Slot i of seven when there are more than seven pages: the first and the last page at the ends, three pages around
      the current one in the middle (kept clear of the ends), and in between a page where it closes the gap, else an
      ellipsis. */
  function Slot(currentPage: int, totalPages: int, i: nat): PageLink
    requires i < 7
  {
    var middle := if currentPage <= 4 then 4 else if currentPage >= totalPages - 3 then totalPages - 3 else currentPage;
    if i == 0 then LinkTo(1, currentPage)
    else if i == 6 then LinkTo(totalPages, currentPage)
    else if i == 1 then (if middle == 4 then LinkTo(2, currentPage) else Ellipsis)
    else if i == 5 then (if middle == totalPages - 3 then LinkTo(totalPages - 1, currentPage) else Ellipsis)
    else LinkTo(middle - 3 + i, currentPage)
  }

  function PageList(currentPage: int, totalPages: int): (pages: seq<PageLink>)
    ensures |pages| == if totalPages <= 0 then 0 else Min(totalPages, 7)
  {
    if totalPages <= 0 then []
    else if totalPages <= 7 then Links(1, totalPages, currentPage)
    else seq(7, i requires 0 <= i < 7 => Slot(currentPage, totalPages, i))
  }

  /** First and last number of the window of links, and whether an ellipsis precedes and follows it. */
  method PageWindow(currentPage: int, totalPages: int)
    returns (startNumber: int, windowEnd: int, showFirstDots: bool, showLastDots: bool)
    requires totalPages > 0
    ensures startNumber == (if totalPages <= 7 || currentPage <= 4 then 1
                            else if currentPage >= totalPages - 3 then totalPages - 4 else currentPage - 1)
    ensures windowEnd == (if totalPages <= 7 || (currentPage > 4 && currentPage >= totalPages - 3) then totalPages
                          else if currentPage <= 4 then 5 else currentPage + 1)
    ensures showFirstDots <==> totalPages > 7 && currentPage > 4
    ensures showLastDots <==> totalPages > 7 && currentPage < totalPages - 3
  {
    showFirstDots, showLastDots := false, false;
    var numberOfLinks;
    startNumber := 1;
    if totalPages <= WINDOW {
      numberOfLinks := totalPages;
    } else if currentPage < WINDOW - 1 && WINDOW > ELLIPSIS_THRESHOLD {
      showLastDots := true;
      numberOfLinks := WINDOW;
    } else if totalPages - currentPage + 2 < WINDOW && WINDOW > ELLIPSIS_THRESHOLD {
      showFirstDots := true;
      numberOfLinks := WINDOW;
      startNumber := totalPages - numberOfLinks + 1;
    } else {
      numberOfLinks := WINDOW - 2;
      showFirstDots, showLastDots := true, true;
      startNumber := currentPage - numberOfLinks / 2;
    }

    if startNumber < 1 {
      startNumber := 1;
      showFirstDots := false;
    } else if startNumber > totalPages - numberOfLinks {
      startNumber := totalPages - numberOfLinks + 1;
      showLastDots := false;
    }

    if showFirstDots && startNumber < 4 {
      numberOfLinks := numberOfLinks + 2;
      startNumber := 1;
      showFirstDots := false;
    }

    var lastPageNumber := startNumber + numberOfLinks - 1;
    if showLastDots && lastPageNumber > totalPages - 3 {
      if lastPageNumber == totalPages - 2 {
        numberOfLinks := numberOfLinks + 2;
      } else {
        numberOfLinks := numberOfLinks + 3;
      }
      showLastDots := false;
    }

    if numberOfLinks > totalPages - startNumber + 1 {
      numberOfLinks := totalPages - startNumber + 1;
    }
    windowEnd := startNumber + numberOfLinks - 1;
  }

  method BuildPageList(currentPage: int, totalPages: int) returns (pages: seq<PageLink>)
    ensures pages == PageList(currentPage, totalPages)
  {
    if totalPages <= 0 { return []; }
    var startNumber, windowEnd, showFirstDots, showLastDots := PageWindow(currentPage, totalPages);
    pages := [];
    if startNumber != 1 { pages := pages + [LinkTo(1, currentPage)]; }
    if showFirstDots { pages := pages + [Ellipsis]; }
    ghost var front := pages;
    var n := startNumber;
    while n <= windowEnd
      invariant startNumber <= n <= windowEnd + 1
      invariant pages == front + Links(startNumber, n - 1, currentPage)
    {
      pages := pages + [LinkTo(n, currentPage)];
      n := n + 1;
    }
    if showLastDots { pages := pages + [Ellipsis]; }
    if windowEnd != totalPages { pages := pages + [LinkTo(totalPages, currentPage)]; }
  }

  datatype PaginationData = PaginationData(
    currentPage: int, totalPages: int, pages: seq<PageLink>, hasPrev: bool, hasNext: bool, prevOffset: int,
      nextOffset: int)

  /** Offsets are parsed non-negative and totals are counts. */
  method ComputePagination(offset: nat, total: nat) returns (p: PaginationData)
    ensures total == 0 ==> p == PaginationData(0, 0, [], false, false, 0, 0)
    ensures total > 0 ==>
      && (p.currentPage - 1) * 10 <= offset < p.currentPage * 10 && p.pages == PageList(p.currentPage, p.totalPages)
      && (p.totalPages - 1) * 10 < total <= p.totalPages * 10
      && (p.hasNext <==> p.currentPage < p.totalPages)
      && (p.hasPrev <==> p.currentPage > 1)
      && BeginsPage(p.nextOffset, p.currentPage + 1) && BeginsPage(p.prevOffset, p.currentPage - 1)
      && (offset < total ==> 1 <= p.currentPage <= p.totalPages)
  {
    if total == 0 {
      return PaginationData(0, 0, [], false, false, 0, 0);
    }
    var currentPage := offset / BUILDS_PER_PAGE + 1;
    var totalPages := (total + BUILDS_PER_PAGE - 1) / BUILDS_PER_PAGE;
    var pages := BuildPageList(currentPage, totalPages);
    return PaginationData(currentPage, totalPages, pages, currentPage > 1, currentPage < totalPages,
                          (currentPage - 2) * BUILDS_PER_PAGE, currentPage * BUILDS_PER_PAGE);
  }

  /** The first build of a page of ten. */
  predicate BeginsPage(offset: int, page: int) {
    offset % 10 == 0 && offset / 10 == page - 1
  }

  // ---------- what a reader of the list can rely on ----------

  /** No two neighbours are ellipses, numbers next to each other are consecutive,
      and the numbers around an ellipsis leave out at least two pages. */
  predicate WellSpaced(pages: seq<PageLink>) {
    && (forall i :: 0 <= i < |pages| - 1 && pages[i].PageLink? && pages[i + 1].PageLink? ==>
          pages[i + 1].number == pages[i].number + 1)
    && (forall i :: 0 <= i < |pages| && pages[i].Ellipsis? ==>
          && 0 < i < |pages| - 1 && pages[i - 1].PageLink? && pages[i + 1].PageLink?
          && pages[i + 1].number - pages[i - 1].number >= 3)
  }

  predicate Shows(pages: seq<PageLink>, n: int) {
    exists i :: 0 <= i < |pages| && pages[i].PageLink? && pages[i].number == n
  }

  lemma ShowsAt(pages: seq<PageLink>, i: nat)
    requires i < |pages| && pages[i].PageLink?
    ensures Shows(pages, pages[i].number)
  {
  }

  lemma LinkFields(n: int, currentPage: int)
    ensures LinkTo(n, currentPage).active <==> n == currentPage
    ensures LinkTo(n, currentPage).number == n && BeginsPage(LinkTo(n, currentPage).offset, n)
  {
  }

  lemma PageListSpacing(currentPage: int, totalPages: int)
    requires 1 <= totalPages
    ensures WellSpaced(PageList(currentPage, totalPages))
  {
    var pages := PageList(currentPage, totalPages);
    if totalPages > 7 {
      assert forall i :: 0 <= i < 7 ==> pages[i] == Slot(currentPage, totalPages, i);
    }
  }

  lemma PageListShape(currentPage: int, totalPages: int)
    requires 1 <= currentPage <= totalPages
    ensures
      var pages := PageList(currentPage, totalPages);
      && |pages| == Min(totalPages, 7)
      && pages[0].PageLink? && pages[0].number == 1
      && pages[|pages| - 1].PageLink? && pages[|pages| - 1].number == totalPages
      && WellSpaced(pages)
      && (forall i :: 0 <= i < |pages| && pages[i].PageLink? ==>
            && (pages[i].active <==> pages[i].number == currentPage)
            && BeginsPage(pages[i].offset, pages[i].number))
  {
    var pages := PageList(currentPage, totalPages);
    PageListSpacing(currentPage, totalPages);
    forall i | 0 <= i < |pages| && pages[i].PageLink?
      ensures pages[i].active <==> pages[i].number == currentPage
      ensures BeginsPage(pages[i].offset, pages[i].number)
    {
      assert pages[i] == LinkTo(pages[i].number, currentPage);
      LinkFields(pages[i].number, currentPage);
    }
  }

  /** The current page and the pages next to it are always there. */
  lemma NeighboursShown(currentPage: int, totalPages: int, n: int)
    requires 1 <= currentPage <= totalPages && 1 <= n <= totalPages && currentPage - 1 <= n <= currentPage + 1
    ensures Shows(PageList(currentPage, totalPages), n)
  {
    var pages := PageList(currentPage, totalPages);
    var middle := if currentPage <= 4 then 4 else if currentPage >= totalPages - 3 then totalPages - 3 else currentPage;
    var i := if totalPages <= 7 then n - 1 else if n == 1 then 0 else if n == totalPages then 6 else n - middle + 3;
    ShowsAt(pages, i);
  }

  /** Well-spaced numbers ascend. */
  lemma {:induction false} NumbersAscend(pages: seq<PageLink>, i: nat, j: nat)
    requires WellSpaced(pages) && i < j < |pages| && pages[i].PageLink? && pages[j].PageLink?
    ensures pages[i].number < pages[j].number
    decreases j - i
  {
    if pages[j - 1].PageLink? {
      if i < j - 1 { NumbersAscend(pages, i, j - 1); }
    } else if i < j - 2 {
      NumbersAscend(pages, i, j - 2);
    }
  }

  /** The link seen from the other end. */
  function Mirror(link: PageLink, totalPages: int): PageLink {
    match link
    case Ellipsis => Ellipsis
    case PageLink(n, _, active) => PageLink(totalPages + 1 - n, (totalPages - n) * BUILDS_PER_PAGE, active)
  }

  lemma SlotMirror(currentPage: int, totalPages: int, i: nat)
    requires totalPages > 7 && i < 7
    ensures Slot(totalPages + 1 - currentPage, totalPages, i) ==
            Mirror(Slot(currentPage, totalPages, 6 - i), totalPages)
  {
  }

  /** Counting pages from the other end gives the same list backwards. */
  lemma PageListMirror(currentPage: int, totalPages: int)
    requires totalPages > 0
    ensures
      var pages, mirrored := PageList(currentPage, totalPages), PageList(totalPages + 1 - currentPage, totalPages);
      && |mirrored| == |pages|
      && forall i :: 0 <= i < |pages| ==> mirrored[i] == Mirror(pages[|pages| - 1 - i], totalPages)
  {
    var pages, mirrored := PageList(currentPage, totalPages), PageList(totalPages + 1 - currentPage, totalPages);
    forall i | 0 <= i < |pages| ensures mirrored[i] == Mirror(pages[|pages| - 1 - i], totalPages) {
      if totalPages > 7 { SlotMirror(currentPage, totalPages, i); }
    }
  }
}
