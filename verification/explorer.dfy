/** The explorer tab as a state machine: the page and the selected dataset kept in
    session state, the button clicks that change them, and the lookup of the
    selected dataset in the full table for the detail panel. */
module Explorer {
  import opened Wrappers
  import opened Numbers
  import opened Records
  import opened Filter
  import opened Pagination
  import opened PageWindow

  /** `current_page` and `selected_dataset_id`. */
  datatype ViewState = ViewState(page: int, selected: Option<string>)

  /** The state of a fresh session: page 1, nothing selected. */
  function Initial(): (s: ViewState)
    ensures s.page == 1 && s.selected.None?
  {
    ViewState(1, None)
  }

  /** What starts a rerun: a click on "← Previous", "Next →", a page-number button
      or a dataset-id button, or a change to a sidebar widget (a filter control or
      the page size) that clicks no button. */
  datatype Event = PrevClicked | NextClicked | PageClicked(target: int) | RowClicked(id: string) | Rerun

  /** The page a rerun renders: the stored page, validated against the page count
      of the filtered table. */
  function RenderedPage(s: ViewState, n: nat, size: nat): (p: int)
    requires size > 0
    ensures s.page >= 1 ==> 1 <= p <= Max(1, TotalPages(n, size))
    ensures 1 <= s.page <= TotalPages(n, size) ==> p == s.page
  {
    ValidatePage(s.page, TotalPages(n, size))
  }

  /** The rows the table shows on a rerun. */
  function VisibleRows(s: ViewState, rows: seq<Row>, size: nat): (r: seq<Row>)
    requires s.page >= 1 && size > 0
    ensures |r| <= size
    ensures forall x :: x in r ==> x in rows
  {
    var r := PageRows(rows, RenderedPage(s, |rows|, size), size);
    assert forall k :: 0 <= k < |r| ==> r[k] in rows;
    r
  }

  /** Some visible row carries the id. */
  predicate IdVisible(id: string, visible: seq<Row>) {
    exists k :: 0 <= k < |visible| && visible[k].rec.datasetId == id
  }

  /** The effect of one click on the filtered table `rows` at `size` rows per page,
      from the page `p` the rerun rendered. Previous moves back one page unless `p`
      is the first; Next moves on one page exactly when a later page exists; a shown
      page button moves to its page; a visible dataset-id button selects its
      dataset. A click on a disabled or absent button leaves the state at `p`. A
      rerun without a click saves `p`, the reset of app.py:278-279, and nothing else. */
  function Step(s: ViewState, ev: Event, rows: seq<Row>, size: nat): (t: ViewState)
    requires s.page >= 1 && size > 0
    ensures t.page >= 1
    ensures !ev.RowClicked? ==> t.selected == s.selected
    ensures ev.PrevClicked? && RenderedPage(s, |rows|, size) > 1 ==>
      t.page == RenderedPage(s, |rows|, size) - 1
    ensures ev.PrevClicked? && RenderedPage(s, |rows|, size) == 1 ==> t.page == 1
    ensures ev.NextClicked? && RenderedPage(s, |rows|, size) < TotalPages(|rows|, size) ==>
      t.page == RenderedPage(s, |rows|, size) + 1
    ensures ev.NextClicked? && RenderedPage(s, |rows|, size) >= TotalPages(|rows|, size) ==>
      t.page == RenderedPage(s, |rows|, size)
    ensures ev.PageClicked? ==>
      t.page == if Number(ev.target) in Shown(TotalPages(|rows|, size), RenderedPage(s, |rows|, size))
                then ev.target else RenderedPage(s, |rows|, size)
    ensures ev.RowClicked? ==> t.page == RenderedPage(s, |rows|, size)
    ensures ev.RowClicked? ==>
      t.selected == if IdVisible(ev.id, VisibleRows(s, rows, size)) then Some(ev.id) else s.selected
    ensures ev.Rerun? ==> t == ViewState(RenderedPage(s, |rows|, size), s.selected)
  {
    var total := TotalPages(|rows|, size);
    var p := RenderedPage(s, |rows|, size);
    match ev
    case PrevClicked =>
      if PrevEnabled(p) then ViewState(p - 1, s.selected) else ViewState(p, s.selected)
    case NextClicked =>
      if PagerDrawn(total) && NextEnabledAsWritten(p, total) then
        ViewState(p + 1, s.selected)
      else ViewState(p, s.selected)
    case PageClicked(target) =>
      if Number(target) in Shown(total, p) && GotoEnabled(target, p) then
        WindowAscendingWithin(total, p);
        ShownTargetIsPage(total, p, target);
        ViewState(target, s.selected)
      else ViewState(p, s.selected)
    case RowClicked(id) =>
      if IdVisible(id, VisibleRows(s, rows, size)) then ViewState(p, Some(id)) else ViewState(p, s.selected)
    case Rerun =>
      ViewState(p, s.selected)
  }

  /** After a rerun without a click the stored page is a page of the filtered table
      (page 1 when it has none), and a second such rerun on the same table changes
      nothing. */
  lemma RerunStoresValidPage(s: ViewState, rows: seq<Row>, size: nat)
    requires s.page >= 1 && size > 0
    ensures 1 <= Step(s, Rerun, rows, size).page <= Max(1, TotalPages(|rows|, size))
    ensures Step(s, Rerun, rows, size).selected == s.selected
    ensures Step(Step(s, Rerun, rows, size), Rerun, rows, size) == Step(s, Rerun, rows, size)
  {
  }

  /** The reset is saved: once a filter change leaves fewer pages than the stored
      page, the session stays on page 1 when the result grows again, and Next then
      goes to page 2 whenever the grown result has one. */
  lemma StaleResetIsKept(s: ViewState, narrow: seq<Row>, wide: seq<Row>, size: nat)
    requires s.page >= 1 && size > 0
    requires TotalPages(|narrow|, size) < s.page
    ensures Step(s, Rerun, narrow, size).page == 1
    ensures RenderedPage(Step(s, Rerun, narrow, size), |wide|, size) == 1
    ensures TotalPages(|wide|, size) > 1 ==>
      Step(Step(s, Rerun, narrow, size), NextClicked, wide, size).page == 2
  {
  }

  /** Previous undoes Next: from a page before the last, Next then Previous returns
      to the page, with the selection unchanged. */
  lemma NextThenPrevReturns(s: ViewState, rows: seq<Row>, size: nat)
    requires s.page >= 1 && size > 0
    requires RenderedPage(s, |rows|, size) < TotalPages(|rows|, size)
    ensures Step(Step(s, NextClicked, rows, size), PrevClicked, rows, size)
      == ViewState(RenderedPage(s, |rows|, size), s.selected)
  {
    var p := RenderedPage(s, |rows|, size);
    var u := Step(s, NextClicked, rows, size);
    assert u.page == p + 1;
    assert RenderedPage(u, |rows|, size) == p + 1;
  }

  /** Next undoes Previous: from a page after the first, Previous then Next returns
      to the page, with the selection unchanged. */
  lemma PrevThenNextReturns(s: ViewState, rows: seq<Row>, size: nat)
    requires s.page >= 1 && size > 0
    requires RenderedPage(s, |rows|, size) > 1
    ensures Step(Step(s, PrevClicked, rows, size), NextClicked, rows, size)
      == ViewState(RenderedPage(s, |rows|, size), s.selected)
  {
    var p := RenderedPage(s, |rows|, size);
    var u := Step(s, PrevClicked, rows, size);
    assert u.page == p - 1;
    assert RenderedPage(u, |rows|, size) == p - 1;
  }

  lemma ShownTargetIsPage(total: nat, current: int, target: int)
    requires NumbersWithin(Window(total, current), 1, total)
    requires Number(target) in Shown(total, current)
    ensures 1 <= target <= total
  {
    var sh := Shown(total, current);
    var k :| 0 <= k < |sh| && sh[k] == Number(target);
    assert Window(total, current)[k] == Number(target);
  }

  /** A click never leaves the table's pages: from any page at least 1 the next
      state's page is a page of the filtered table (page 1 when it has none). */
  lemma StepKeepsPageInRange(s: ViewState, ev: Event, rows: seq<Row>, size: nat)
    requires s.page >= 1 && size > 0
    ensures 1 <= Step(s, ev, rows, size).page <= Max(1, TotalPages(|rows|, size))
  {
    var total := TotalPages(|rows|, size);
    var p := RenderedPage(s, |rows|, size);
    match ev
    case PrevClicked =>
    case NextClicked =>
    case PageClicked(target) =>
      if Number(target) in Shown(total, p) && GotoEnabled(target, p) {
        WindowAscendingWithin(total, p);
        ShownTargetIsPage(total, p, target);
      }
    case RowClicked(id) =>
    case Rerun =>
  }

  /** A click on a visible dataset-id button selects that dataset. */
  lemma RowClickSelects(s: ViewState, rows: seq<Row>, size: nat, k: int)
    requires s.page >= 1 && size > 0
    requires 0 <= k < |VisibleRows(s, rows, size)|
    ensures Step(s, RowClicked(VisibleRows(s, rows, size)[k].rec.datasetId), rows, size).selected
      == Some(VisibleRows(s, rows, size)[k].rec.datasetId)
  {
  }

  /** A sequence of reruns on one filtered table. */
  function Replay(s: ViewState, evs: seq<Event>, rows: seq<Row>, size: nat): (t: ViewState)
    requires s.page >= 1 && size > 0
    ensures t.page >= 1
    decreases |evs|
  {
    if |evs| == 0 then s else Replay(Step(s, evs[0], rows, size), evs[1..], rows, size)
  }

  /** Navigation and widget changes never change the selection. */
  lemma {:induction false} NavigationKeepsSelection(s: ViewState, evs: seq<Event>, rows: seq<Row>, size: nat)
    requires s.page >= 1 && size > 0
    requires forall i :: 0 <= i < |evs| ==> !evs[i].RowClicked?
    ensures Replay(s, evs, rows, size).selected == s.selected
    decreases |evs|
  {
    if |evs| > 0 {
      NavigationKeepsSelection(Step(s, evs[0], rows, size), evs[1..], rows, size);
    }
  }

  // ---------------------------------------------------------------------------
  // the detail panel

  /** `df[df['dataset_id'] == id]` and its first row: the index of the first row of
      the table with that id, if any. */
  function FindById(table: seq<Row>, id: string): (r: Option<nat>)
    ensures r.Some? ==> r.value < |table| && table[r.value].rec.datasetId == id
    ensures r.Some? ==> forall j :: 0 <= j < r.value ==> table[j].rec.datasetId != id
    ensures r.None? ==> forall j :: 0 <= j < |table| ==> table[j].rec.datasetId != id
  {
    if |table| == 0 then None
    else if table[0].rec.datasetId == id then Some(0)
    else
      match FindById(table[1..], id)
      case None => None
      case Some(i) => Some(i + 1)
  }

  /** The row the detail panel shows: none while nothing is selected (an empty id is
      falsy, too), otherwise the first row of the full table with the selected id.
      The panel is drawn below the pager, so only when the filtered table has a page. */
  function Detail(table: seq<Row>, s: ViewState): (r: Option<Row>)
    ensures r.Some? ==> r.value in table && s.selected.Some? && r.value.rec.datasetId == s.selected.value
    ensures r.Some? ==> s.selected.value != ""
  {
    match s.selected
    case None => None
    case Some(id) =>
      if id == "" then None
      else
        match FindById(table, id)
        case None => None
        case Some(i) => Some(table[i])
  }

  /** A selected id that some row of the full table carries always has a detail
      row: the first row with that id. */
  lemma DetailOfSelected(table: seq<Row>, s: ViewState, x: Row)
    requires x in table && x.rec.datasetId != ""
    requires s.selected == Some(x.rec.datasetId)
    ensures Detail(table, s).Some?
    ensures FindById(table, x.rec.datasetId).Some?
    ensures Detail(table, s).value == table[FindById(table, x.rec.datasetId).value]
  {
    var j :| 0 <= j < |table| && table[j] == x;
  }

  /** A dataset selected from the rows some filter let through is found in the full
      table, whatever the filter, its modality reading and the page are. */
  lemma SelectedRowFound(table: seq<Row>, c: Criteria, v: Reading, s: ViewState, size: nat, k: int)
    requires s.page >= 1 && size > 0
    requires 0 <= k < |VisibleRows(s, ApplyFilter(table, c, v), size)|
    requires VisibleRows(s, ApplyFilter(table, c, v), size)[k].rec.datasetId != ""
    ensures var x := VisibleRows(s, ApplyFilter(table, c, v), size)[k];
      var t := Step(s, RowClicked(x.rec.datasetId), ApplyFilter(table, c, v), size);
      Detail(table, t).Some? && Detail(table, t).value.rec.datasetId == x.rec.datasetId
  {
    var rows := ApplyFilter(table, c, v);
    var x := VisibleRows(s, rows, size)[k];
    RowClickSelects(s, rows, size, k);
    var t := Step(s, RowClicked(x.rec.datasetId), rows, size);
    assert x in rows;
    DetailOfSelected(table, t, x);
  }

  /** Once selected, the detail stays the same through any navigation, on any
      filtered table. */
  lemma DetailSurvivesNavigation(table: seq<Row>, rows: seq<Row>, s: ViewState, evs: seq<Event>, size: nat)
    requires s.page >= 1 && size > 0
    requires forall i :: 0 <= i < |evs| ==> !evs[i].RowClicked?
    ensures Detail(table, Replay(s, evs, rows, size)) == Detail(table, s)
  {
    NavigationKeepsSelection(s, evs, rows, size);
  }
}
