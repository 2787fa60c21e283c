/** The pagination cursor of the product list view: a window `[start, end)`
    over the filtered products, the page number shown to the user, and the
    product currently selected. There is no clamping: the window may move
    before the first product or past the last one. */
module Pagination {
  import opened Optional
  import opened Catalog

  /** The page size the view starts with; no operation changes it. */
  const DefaultPageSize: int := 5

  datatype Pager = Pager(
    pageSize: int,
    start: int,
    end: int,
    currentPage: int,
    selected: Option<Product>)

  /** Where page `page` starts, counting pages from 1 in either direction
      without bound: page 1 starts at 0 and each page starts `size` after the
      one before it. `PageStartIsProduct` gives the closed form. */
  function PageStart(page: int, size: int): int
    decreases if page >= 1 then page - 1 else 1 - page
  {
    if page == 1 then 0
    else if page > 1 then PageStart(page - 1, size) + size
    else PageStart(page + 1, size) - size
  }

  /** Consecutive pages start `size` apart. */
  lemma PageStartStep(page: int, size: int)
    ensures PageStart(page + 1, size) == PageStart(page, size) + size
  {
  }

  /** Page `page` starts at `(page - 1) * size`. */
  lemma {:induction false} PageStartIsProduct(page: int, size: int)
    ensures PageStart(page, size) == (page - 1) * size
    decreases if page >= 1 then page - 1 else 1 - page
  {
    if page > 1 {
      PageStartIsProduct(page - 1, size);
    } else if page < 1 {
      PageStartIsProduct(page + 1, size);
    }
  }

  /** The window is one page wide and starts where page `currentPage` starts. */
  predicate Aligned(s: Pager) {
    && s.end - s.start == s.pageSize
    && s.start == PageStart(s.currentPage, s.pageSize)
  }

  /** `Aligned` in closed form: `end - start == pageSize` and
      `start == (currentPage - 1) * pageSize`. */
  lemma AlignedMeans(s: Pager)
    ensures Aligned(s) <==>
      s.end - s.start == s.pageSize && s.start == (s.currentPage - 1) * s.pageSize
  {
    PageStartIsProduct(s.currentPage, s.pageSize);
  }

  /** Back to the first page; the selection is not touched. */
  function Reset(s: Pager): (r: Pager)
    ensures Aligned(r)
    ensures r.pageSize == s.pageSize && r.selected == s.selected
    ensures r.currentPage == 1
  {
    s.(start := 0, end := s.pageSize, currentPage := 1)
  }

  /** The state of a freshly created view: page 1 of the default size, with
      nothing selected. */
  function Initial(): (r: Pager)
    ensures r.pageSize == DefaultPageSize
    ensures r.selected == None
    ensures r.currentPage == 1
  {
    Pager(DefaultPageSize, 0, DefaultPageSize, 1, None)
  }

  /** A fresh view's cursor is the one `Reset` produces. */
  lemma InitialIsReset()
    ensures Reset(Initial()) == Initial()
  {
  }

  /** One page back; clears the selection. */
  function PreviousPage(s: Pager): (r: Pager)
    ensures r.pageSize == s.pageSize
    ensures r.end - r.start == s.end - s.start
    ensures r.currentPage == s.currentPage - 1
    ensures Aligned(s) ==> Aligned(r)
    ensures r.selected == None
  {
    PageStartStep(s.currentPage - 1, s.pageSize);
    s.(start := s.start - s.pageSize,
       end := s.end - s.pageSize,
       currentPage := s.currentPage - 1,
       selected := None)
  }

  /** One page forward; clears the selection. */
  function NextPage(s: Pager): (r: Pager)
    ensures r.pageSize == s.pageSize
    ensures r.end - r.start == s.end - s.start
    ensures r.currentPage == s.currentPage + 1
    ensures Aligned(s) ==> Aligned(r)
    ensures r.selected == None
  {
    PageStartStep(s.currentPage, s.pageSize);
    s.(start := s.start + s.pageSize,
       end := s.end + s.pageSize,
       currentPage := s.currentPage + 1,
       selected := None)
  }

  /** Selecting a product records it and leaves the cursor where it is. */
  function Select(s: Pager, p: Product): (r: Pager)
    ensures r.selected == Some(p)
    ensures r.(selected := s.selected) == s
  {
    s.(selected := Some(p))
  }

  /** Going forward then back restores the cursor (the selection is cleared). */
  lemma NextThenPrevious(s: Pager)
    ensures PreviousPage(NextPage(s)) == s.(selected := None)
  {
  }

  /** Going back then forward restores the cursor (the selection is cleared). */
  lemma PreviousThenNext(s: Pager)
    ensures NextPage(PreviousPage(s)) == s.(selected := None)
  {
  }

  datatype PageEvent = Next | Previous | SelectProduct(p: Product)

  function Apply(s: Pager, e: PageEvent): Pager {
    match e
    case Next => NextPage(s)
    case Previous => PreviousPage(s)
    case SelectProduct(p) => Select(s, p)
  }

  /** The cursor after a sequence of events, applied in order. */
  function Walk(s: Pager, events: seq<PageEvent>): Pager
    decreases |events|
  {
    if events == [] then s
    else Apply(Walk(s, events[..|events| - 1]), events[|events| - 1])
  }

  /** Forward moves minus backward moves. */
  function NetMoves(events: seq<PageEvent>): int
    decreases |events|
  {
    if events == [] then 0
    else
      var e := events[|events| - 1];
      NetMoves(events[..|events| - 1])
        + (if e.Next? then 1 else if e.Previous? then -1 else 0)
  }

  /** Whatever the events, the window stays one page wide and aligned with
      the page number, and the page number is the net number of moves away
      from where it started, with no lower or upper bound. */
  lemma {:induction false} WalkKeepsAlignment(s: Pager, events: seq<PageEvent>)
    requires Aligned(s)
    ensures var r := Walk(s, events);
      && Aligned(r)
      && r.pageSize == s.pageSize
      && r.currentPage == s.currentPage + NetMoves(events)
    decreases |events|
  {
    if events != [] {
      WalkKeepsAlignment(s, events[..|events| - 1]);
    }
  }

  /** Every event is a previous-page click. */
  predicate AllPrevious(events: seq<PageEvent>) {
    forall i :: 0 <= i < |events| ==> events[i].Previous?
  }

  /** `k` previous-page clicks from a fresh view put the window at `-k * 5`,
      on page `1 - k`: nothing stops the cursor at the first page. */
  lemma {:induction false} NoClampingBackwards(events: seq<PageEvent>)
    requires AllPrevious(events)
    ensures var r := Walk(Initial(), events);
      r.start == -(|events| as int) * DefaultPageSize && r.currentPage == 1 - |events|
    decreases |events|
  {
    if events != [] {
      var prefix := events[..|events| - 1];
      assert AllPrevious(prefix) by {
        forall i | 0 <= i < |prefix| ensures prefix[i].Previous? {
          assert prefix[i] == events[i];
        }
      }
      NoClampingBackwards(prefix);
      WalkKeepsAlignment(Initial(), prefix);
      var q := Walk(Initial(), prefix);
      assert events[|events| - 1].Previous?;
      assert Walk(Initial(), events) == PreviousPage(q);
      assert PreviousPage(q).start == q.start - DefaultPageSize;
    }
  }
}
