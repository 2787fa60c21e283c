/** The product list view as a state machine. Its state is the pagination
    cursor together with the filter state: the value `distinctUntilChanged`
    remembers and the filter in force. Events are settled filter inputs, the
    two page buttons and product clicks. */
module ProductList {
  import opened Optional
  import opened Catalog
  import opened Text
  import opened Pagination
  import opened FilterPipeline

  datatype FilterState = FilterState(remembered: Option<string>, filter: string)

  /** Before any input: nothing remembered, and `startWith("")` puts the
      empty filter in force. */
  const NoFilter: FilterState := FilterState(None, "")

  /** The filter text a remembered value stands for. */
  function FilterOf(remembered: Option<string>): string {
    match remembered
    case None => ""
    case Some(t) => t
  }

  /** The value `filter$` emits, if any, when `text` settles in the box: its
      trimmed form, provided it passes the length gate and differs from the
      remembered value. */
  function Emission(fs: FilterState, text: string): (r: Option<string>)
    ensures r.Some? <==> Accepted(Trim(text)) && fs.remembered != Some(Trim(text))
    ensures r.Some? ==> r.value == Trim(text) && IsTrimmed(r.value)
    ensures 1 <= |Trim(text)| <= 2 ==> r.None?
  {
    var t := Trim(text);
    if Accepted(t) && fs.remembered != Some(t) then Some(t) else None
  }

  /** The filter state after `text` settles: an emitted value is remembered
      and put in force; otherwise nothing changes. */
  function OnSettled(fs: FilterState, text: string): (r: FilterState)
    ensures Emission(fs, text).Some? ==> r.filter == Emission(fs, text).value
    ensures Emission(fs, text).None? ==> r == fs
    ensures Accepted(Trim(text)) ==> r.remembered == Some(Trim(text))
    ensures fs.filter == FilterOf(fs.remembered) ==> r.filter == FilterOf(r.remembered)
  {
    match Emission(fs, text)
    case Some(t) => FilterState(Some(t), t)
    case None => fs
  }

  /** The filter state after a sequence of settled inputs. */
  function RunFilter(fs: FilterState, inputs: seq<string>): FilterState
    decreases |inputs|
  {
    if inputs == [] then fs
    else OnSettled(RunFilter(fs, inputs[..|inputs| - 1]), inputs[|inputs| - 1])
  }

  /** What `filter$` emits along the way, after its leading empty filter. */
  function EmittedBy(fs: FilterState, inputs: seq<string>): seq<string>
    decreases |inputs|
  {
    if inputs == [] then []
    else
      var before := inputs[..|inputs| - 1];
      EmittedBy(fs, before)
        + match Emission(RunFilter(fs, before), inputs[|inputs| - 1])
          case Some(t) => [t]
          case None => []
  }

  /** Input by input, the remembered value is the last accepted trimmed
      input and the filter in force is that value (no filter before any
      input is accepted). */
  lemma {:induction false} RunFilterRemembersLastAccepted(inputs: seq<string>)
    ensures RunFilter(NoFilter, inputs).remembered == LastSeen(None, KeepAccepted(MapTrim(inputs)))
    ensures RunFilter(NoFilter, inputs).filter == FilterOf(RunFilter(NoFilter, inputs).remembered)
    decreases |inputs|
  {
    if inputs == [] {
      assert MapTrim(inputs) == [];
    } else {
      var before := inputs[..|inputs| - 1];
      var x := inputs[|inputs| - 1];
      assert inputs == before + [x];
      RunFilterRemembersLastAccepted(before);
      AcceptedSnoc(before, x);
    }
  }

  /** Input by input, the emissions are those of the trim, gate and
      `distinctUntilChanged` stages. */
  lemma {:induction false} EmittedByIsDistinct(inputs: seq<string>)
    ensures EmittedBy(NoFilter, inputs) == DistinctFrom(None, KeepAccepted(MapTrim(inputs)))
    decreases |inputs|
  {
    if inputs == [] {
      assert MapTrim(inputs) == [];
    } else {
      var before := inputs[..|inputs| - 1];
      var x := inputs[|inputs| - 1];
      assert inputs == before + [x];
      var kept := KeepAccepted(MapTrim(before));
      var t := Trim(x);
      var fs := RunFilter(NoFilter, before);
      EmittedByIsDistinct(before);
      RunFilterRemembersLastAccepted(before);
      AcceptedSnoc(before, x);
      var added := match Emission(fs, x) case Some(t) => [t] case None => [];
      assert EmittedBy(NoFilter, inputs) == EmittedBy(NoFilter, before) + added;
      if Accepted(t) {
        assert KeepAccepted(MapTrim(inputs)) == kept + [t];
        DistinctSnoc(None, kept, t);
        if fs.remembered == Some(t) {
          assert added == [];
        } else {
          assert added == [t];
        }
      } else {
        assert KeepAccepted(MapTrim(inputs)) == kept + [];
        assert kept + [] == kept;
        assert added == [];
      }
    }
  }

  /** Input by input, the emissions are exactly `filter$` after its leading
      empty filter. */
  lemma RunFilterEmitsFilterStream(inputs: seq<string>)
    ensures [""] + EmittedBy(NoFilter, inputs) == FilterStream(inputs)
  {
    EmittedByIsDistinct(inputs);
  }

  /** Input by input, the filter in force is the last element of `filter$`. */
  lemma RunFilterIsCurrent(inputs: seq<string>)
    ensures RunFilter(NoFilter, inputs).filter == CurrentFilter(inputs)
  {
    RunFilterRemembersLastAccepted(inputs);
    CurrentFilterIsLastAccepted(inputs);
  }

  datatype View = View(pager: Pager, filterState: FilterState)

  datatype ViewEvent =
    | FilterSettled(text: string)
    | NextClicked
    | PreviousClicked
    | ProductClicked(product: Product)

  /** A freshly created view: first page, nothing selected, no filter. */
  function Init(): (v: View)
    ensures Aligned(v.pager) && v.pager.pageSize == DefaultPageSize
    ensures v.pager.start == 0 && v.pager.end == DefaultPageSize && v.pager.currentPage == 1
    ensures v.pager.selected == None
    ensures v.filterState == NoFilter
  {
    View(Pagination.Initial(), NoFilter)
  }

  /** One event. A settled input that `filter$` emits updates the filter
      and sends the cursor back to the first page (the selection is kept);
      any other settled input changes nothing. The page buttons and product
      clicks leave the filter state alone. */
  function Step(v: View, e: ViewEvent): (r: View)
    ensures r.pager.pageSize == v.pager.pageSize
    ensures Aligned(v.pager) ==> Aligned(r.pager)
    ensures e.FilterSettled? ==> r.filterState == OnSettled(v.filterState, e.text)
    ensures e.FilterSettled? && Emission(v.filterState, e.text).Some? ==> r.pager == Reset(v.pager)
    ensures e.FilterSettled? && Emission(v.filterState, e.text).None? ==> r == v
    ensures !e.FilterSettled? ==> r.filterState == v.filterState
    ensures e.NextClicked? ==> r.pager == NextPage(v.pager)
    ensures e.NextClicked? ==> r.pager.currentPage == v.pager.currentPage + 1 && r.pager.selected == None
    ensures e.PreviousClicked? ==> r.pager == PreviousPage(v.pager)
    ensures e.PreviousClicked? ==> r.pager.currentPage == v.pager.currentPage - 1 && r.pager.selected == None
    ensures e.ProductClicked? ==> r.pager == Select(v.pager, e.product)
    ensures e.ProductClicked? ==> r.pager.selected == Some(e.product) && r.pager.currentPage == v.pager.currentPage
  {
    match e
    case FilterSettled(text) =>
      if Emission(v.filterState, text).Some?
      then View(Reset(v.pager), OnSettled(v.filterState, text))
      else v
    case NextClicked => v.(pager := NextPage(v.pager))
    case PreviousClicked => v.(pager := PreviousPage(v.pager))
    case ProductClicked(p) => v.(pager := Select(v.pager, p))
  }

  /** The view after a sequence of events, applied in order. */
  function Run(v: View, events: seq<ViewEvent>): View
    decreases |events|
  {
    if events == [] then v
    else Step(Run(v, events[..|events| - 1]), events[|events| - 1])
  }

  /** The settled filter inputs among the events, in order. */
  function InputsOf(events: seq<ViewEvent>): seq<string>
    decreases |events|
  {
    if events == [] then []
    else
      var e := events[|events| - 1];
      InputsOf(events[..|events| - 1]) + if e.FilterSettled? then [e.text] else []
  }

  /** Whatever the events, the cursor keeps its page size and stays aligned
      with the page number; it is never clamped. */
  lemma {:induction false} RunKeepsAlignment(v: View, events: seq<ViewEvent>)
    requires Aligned(v.pager)
    ensures Aligned(Run(v, events).pager)
    ensures Run(v, events).pager.pageSize == v.pager.pageSize
    decreases |events|
  {
    if events != [] {
      RunKeepsAlignment(v, events[..|events| - 1]);
    }
  }

  /** Page buttons and product clicks do not disturb the filter: the filter
      state after any events is the one the settled inputs alone produce. */
  lemma {:induction false} RunTracksFilter(v: View, events: seq<ViewEvent>)
    ensures Run(v, events).filterState == RunFilter(v.filterState, InputsOf(events))
    decreases |events|
  {
    if events != [] {
      var before := events[..|events| - 1];
      var e := events[|events| - 1];
      RunTracksFilter(v, before);
      assert Run(v, events) == Step(Run(v, before), e);
      var inputs := InputsOf(events);
      if e.FilterSettled? {
        assert inputs == InputsOf(before) + [e.text];
        assert inputs[..|inputs| - 1] == InputsOf(before);
      } else {
        assert inputs == InputsOf(before) + [];
        assert inputs == InputsOf(before);
      }
    }
  }

  /** The filter in force after any events, starting from a fresh view, is
      the last element of `filter$` for the settled inputs among them. */
  lemma ViewFilterIsCurrent(events: seq<ViewEvent>)
    ensures Run(Init(), events).filterState.filter == CurrentFilter(InputsOf(events))
  {
    RunTracksFilter(Init(), events);
    RunFilterIsCurrent(InputsOf(events));
  }

  /** The cursor event a page button or product click stands for. */
  function PageEventOf(e: ViewEvent): PageEvent
    requires !e.FilterSettled?
  {
    match e
    case NextClicked => Next
    case PreviousClicked => Previous
    case ProductClicked(p) => SelectProduct(p)
  }

  /** The cursor events of a sequence of page buttons and product clicks. */
  function PageEventsOf(events: seq<ViewEvent>): (r: seq<PageEvent>)
    requires forall i :: 0 <= i < |events| ==> !events[i].FilterSettled?
    ensures |r| == |events|
    decreases |events|
  {
    if events == [] then []
    else PageEventsOf(events[..|events| - 1]) + [PageEventOf(events[|events| - 1])]
  }

  /** Without settled inputs, the view's cursor moves exactly as the
      pagination cursor walks through the same clicks, and the filter state
      stays as it was. */
  lemma {:induction false} RunWithoutInputsIsWalk(v: View, events: seq<ViewEvent>)
    requires forall i :: 0 <= i < |events| ==> !events[i].FilterSettled?
    ensures Run(v, events).pager == Walk(v.pager, PageEventsOf(events))
    ensures Run(v, events).filterState == v.filterState
    decreases |events|
  {
    if events != [] {
      var before := events[..|events| - 1];
      var e := events[|events| - 1];
      assert forall i :: 0 <= i < |before| ==> before[i] == events[i];
      RunWithoutInputsIsWalk(v, before);
      var pes := PageEventsOf(events);
      assert pes[..|pes| - 1] == PageEventsOf(before);
      assert pes[|pes| - 1] == PageEventOf(e);
    }
  }
}
