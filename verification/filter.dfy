/** The sidebar filter: the task, area, modality, year-range and search predicates,
    applied one after another to the loaded table, and the task selector's
    "task (count)" labels. */
module Filter {
  import opened Wrappers
  import opened Text
  import opened CommaLists
  import opened Records
  import opened Sequences

  /** The selector entry meaning "no constraint" for task and area. */
  const All: string := "All"

  /** What the sidebar hands to the filter. `task` and `area` are `All` or an exact
      value; an empty `modalities` selection and an empty `search` constrain
      nothing; the year range is always applied. */
  datatype Criteria = Criteria(
    task: string,
    area: string,
    modalities: seq<string>,
    yearFrom: int,
    yearTo: int,
    search: string)

  // ---------------------------------------------------------------------------
  // the single predicates

  predicate TaskOk(r: DatasetRecord, task: string) {
    task == All || r.task == Some(task)
  }

  predicate AreaOk(r: DatasetRecord, area: string) {
    area == All || r.area == Some(area)
  }

  /** `any(tag.strip() in pool for tag in selected)`. */
  predicate AnyTagIn(selected: seq<string>, pool: seq<string>) {
    |selected| > 0 && (Strip(selected[0]) in pool || AnyTagIn(selected[1..], pool))
  }

  /** The modality test as app.py writes it: some selected tag, stripped, must
      equal one of the row's comma-separated pieces as they stand, unstripped. */
  predicate ModalityOkAsWritten(r: DatasetRecord, selected: seq<string>) {
    |selected| == 0 ||
    (r.modalities.Some? && AnyTagIn(selected, Split(r.modalities.value, Comma)))
  }

  /** The modality test the sidebar's option list calls for: some selected tag,
      stripped, must be one of the row's trimmed modality tokens. */
  predicate ModalityOk(r: DatasetRecord, selected: seq<string>) {
    |selected| == 0 ||
    (r.modalities.Some? && AnyTagIn(selected, FieldTokens(r.modalities)))
  }

  /** Both bounds inclusive; a missing year compares false against either bound. */
  predicate YearOk(r: DatasetRecord, from: int, to: int) {
    match r.yearPublished
    case Some(y) => from <= y <= to
    case None => false
  }

  /** Case-insensitive substring search on the dataset id; an empty term is no
      search. */
  predicate SearchOk(r: DatasetRecord, term: string) {
    term == "" || Contains(Lower(r.datasetId), Lower(term))
  }

  /** Which modality test the filter's third step uses: app.py's comparison
      with the raw pieces, or the corrected comparison with the trimmed tokens. */
  datatype Reading = AsWritten | Corrected

  predicate ModalityPasses(r: DatasetRecord, selected: seq<string>, v: Reading) {
    match v
    case AsWritten => ModalityOkAsWritten(r, selected)
    case Corrected => ModalityOk(r, selected)
  }

  /** A row the filter keeps: every predicate holds. */
  predicate Matches(row: Row, c: Criteria, v: Reading) {
    && TaskOk(row.rec, c.task)
    && AreaOk(row.rec, c.area)
    && ModalityPasses(row.rec, c.modalities, v)
    && YearOk(row.rec, c.yearFrom, c.yearTo)
    && SearchOk(row.rec, c.search)
  }

  /** The "Research Area" choices: `All`, then every area some row has, sorted and
      without repeats. */
  function AreaOptions(rows: seq<Row>): (r: seq<string>)
    ensures |r| > 0 && r[0] == All
    ensures StrictlySorted(r[1..])
    ensures forall a :: a in r[1..] <==> exists i :: 0 <= i < |rows| && rows[i].rec.area == Some(a)
  {
    var r := [All] + SortedDistinct(AreaValues(rows));
    assert r[1..] == SortedDistinct(AreaValues(rows));
    r
  }

  // ---------------------------------------------------------------------------
  // the staged pipeline

  /** The five narrowing steps, in the order app.py applies them. */
  datatype Stage = TaskStage | AreaStage | ModalityStage | YearStage | SearchStage

  predicate Passes(row: Row, c: Criteria, stage: Stage, v: Reading) {
    match stage
    case TaskStage => TaskOk(row.rec, c.task)
    case AreaStage => AreaOk(row.rec, c.area)
    case ModalityStage => ModalityPasses(row.rec, c.modalities, v)
    case YearStage => YearOk(row.rec, c.yearFrom, c.yearTo)
    case SearchStage => SearchOk(row.rec, c.search)
  }

  /** One boolean-mask step: the rows that pass `stage`, in their order. */
  function Keep(rows: seq<Row>, c: Criteria, stage: Stage, v: Reading): (r: seq<Row>)
    ensures |r| <= |rows|
    ensures forall x :: x in r <==> x in rows && Passes(x, c, stage, v)
  {
    if |rows| == 0 then []
    else
      assert forall x :: x in rows <==> x == rows[0] || x in rows[1..];
      (if Passes(rows[0], c, stage, v) then [rows[0]] else []) + Keep(rows[1..], c, stage, v)
  }

  /** `create_filter_panel`'s filtering: task, then area, then modality, then year,
      then search, each narrowing the previous result. With `AsWritten` this is
      app.py's filter; with `Corrected` the modality step compares trimmed tokens. */
  function ApplyFilter(rows: seq<Row>, c: Criteria, v: Reading): (r: seq<Row>)
    ensures |r| <= |rows|
    ensures forall x :: x in r <==> x in rows && Matches(x, c, v)
  {
    var byTask := Keep(rows, c, TaskStage, v);
    var byArea := Keep(byTask, c, AreaStage, v);
    var byModality := Keep(byArea, c, ModalityStage, v);
    var byYear := Keep(byModality, c, YearStage, v);
    var r := Keep(byYear, c, SearchStage, v);
    assert forall x :: x in r <==> x in rows && Matches(x, c, v) by {
      forall x
        ensures x in r <==> x in rows && Matches(x, c, v)
      {
        assert x in r <==> x in byYear && Passes(x, c, SearchStage, v);
        assert x in byYear <==> x in byModality && Passes(x, c, YearStage, v);
        assert x in byModality <==> x in byArea && Passes(x, c, ModalityStage, v);
        assert x in byArea <==> x in byTask && Passes(x, c, AreaStage, v);
        assert x in byTask <==> x in rows && Passes(x, c, TaskStage, v);
      }
    }
    r
  }

  // ---------------------------------------------------------------------------
  // reference: one pass with the conjunction

  /** The rows that satisfy the whole conjunction, selected in one pass. */
  function Select(rows: seq<Row>, c: Criteria, v: Reading): (r: seq<Row>)
    ensures IsSubsequence(r, rows)
    ensures forall x :: x in r <==> x in rows && Matches(x, c, v)
  {
    if |rows| == 0 then []
    else
      var rest := Select(rows[1..], c, v);
      assert forall x :: x in rows <==> x == rows[0] || x in rows[1..];
      if Matches(rows[0], c, v) then
        assert ([rows[0]] + rest)[1..] == rest;
        [rows[0]] + rest
      else
        rest
  }

  lemma {:induction false} KeepAppend(a: seq<Row>, b: seq<Row>, c: Criteria, stage: Stage, v: Reading)
    ensures Keep(a + b, c, stage, v) == Keep(a, c, stage, v) + Keep(b, c, stage, v)
    decreases |a|
  {
    if |a| == 0 {
      assert a + b == b;
    } else {
      assert (a + b)[0] == a[0];
      assert (a + b)[1..] == a[1..] + b;
      KeepCons(a + b, c, stage, v);
      KeepCons(a, c, stage, v);
      KeepAppend(a[1..], b, c, stage, v);
    }
  }

  /** One step of a filter step. */
  lemma KeepCons(rows: seq<Row>, c: Criteria, stage: Stage, v: Reading)
    requires |rows| > 0
    ensures Keep(rows, c, stage, v) ==
      (if Passes(rows[0], c, stage, v) then [rows[0]] else []) + Keep(rows[1..], c, stage, v)
  {
  }

  lemma ApplyFilterAppend(a: seq<Row>, b: seq<Row>, c: Criteria, v: Reading)
    ensures ApplyFilter(a + b, c, v) == ApplyFilter(a, c, v) + ApplyFilter(b, c, v)
  {
    KeepAppend(a, b, c, TaskStage, v);
    var a1, b1 := Keep(a, c, TaskStage, v), Keep(b, c, TaskStage, v);
    KeepAppend(a1, b1, c, AreaStage, v);
    var a2, b2 := Keep(a1, c, AreaStage, v), Keep(b1, c, AreaStage, v);
    KeepAppend(a2, b2, c, ModalityStage, v);
    var a3, b3 := Keep(a2, c, ModalityStage, v), Keep(b2, c, ModalityStage, v);
    KeepAppend(a3, b3, c, YearStage, v);
    var a4, b4 := Keep(a3, c, YearStage, v), Keep(b3, c, YearStage, v);
    KeepAppend(a4, b4, c, SearchStage, v);
  }

  lemma ApplyFilterSingle(x: Row, c: Criteria, v: Reading)
    ensures ApplyFilter([x], c, v) == if Matches(x, c, v) then [x] else []
  {
    assert [x][1..] == [];
  }

  /** Applying the five steps one after another selects exactly the rows that satisfy
      their conjunction, in table order and with their multiplicity: the staged
      filter is the one-pass conjunctive filter. */
  lemma {:induction false} StagedFilterIsConjunction(rows: seq<Row>, c: Criteria, v: Reading)
    ensures ApplyFilter(rows, c, v) == Select(rows, c, v)
    decreases |rows|
  {
    if |rows| > 0 {
      var x, tail := rows[0], rows[1..];
      assert ApplyFilter(rows, c, v) == ApplyFilter([x], c, v) + ApplyFilter(tail, c, v) by {
        assert rows == [x] + tail;
        ApplyFilterAppend([x], tail, c, v);
      }
      ApplyFilterSingle(x, c, v);
      StagedFilterIsConjunction(tail, c, v);
      SelectCons(rows, c, v);
    }
  }

  /** One step of the one-pass selection. */
  lemma SelectCons(rows: seq<Row>, c: Criteria, v: Reading)
    requires |rows| > 0
    ensures Select(rows, c, v) == (if Matches(rows[0], c, v) then [rows[0]] else []) + Select(rows[1..], c, v)
  {
  }

  /** The filter result is an order-preserving subsequence of the table: it never
      invents, duplicates or reorders rows. */
  lemma FilterIsSubsequence(rows: seq<Row>, c: Criteria, v: Reading)
    ensures IsSubsequence(ApplyFilter(rows, c, v), rows)
  {
    StagedFilterIsConjunction(rows, c, v);
  }

  /** The one-pass selection keeps each matching row as often as the table holds it,
      and no other row. */
  lemma {:induction false} SelectCounts(rows: seq<Row>, c: Criteria, v: Reading)
    ensures forall x :: multiset(Select(rows, c, v))[x] == if Matches(x, c, v) then multiset(rows)[x] else 0
    decreases |rows|
  {
    if |rows| > 0 {
      var h, tail := rows[0], rows[1..];
      var kept := if Matches(h, c, v) then [h] else [];
      SelectCounts(tail, c, v);
      SelectCons(rows, c, v);
      assert multiset(rows) == multiset([h]) + multiset(tail) by {
        assert rows == [h] + tail;
      }
      assert multiset(Select(rows, c, v)) == multiset(kept) + multiset(Select(tail, c, v));
      forall x
        ensures multiset(Select(rows, c, v))[x] == if Matches(x, c, v) then multiset(rows)[x] else 0
      {
        if x == h {
          assert multiset(kept)[x] == if Matches(x, c, v) then 1 else 0;
        } else {
          assert multiset(kept)[x] == 0 && multiset([h])[x] == 0;
        }
      }
    }
  }

  /** Boolean masks keep duplicates: a row that meets the criteria appears in the
      result as many times as in the table, and any other row not at all. */
  lemma FilterKeepsMultiplicity(rows: seq<Row>, c: Criteria, v: Reading)
    ensures forall x ::
      multiset(ApplyFilter(rows, c, v))[x] == if Matches(x, c, v) then multiset(rows)[x] else 0
  {
    StagedFilterIsConjunction(rows, c, v);
    SelectCounts(rows, c, v);
  }

  lemma {:induction false} SelectAllMatching(rows: seq<Row>, c: Criteria, v: Reading)
    requires forall i :: 0 <= i < |rows| ==> Matches(rows[i], c, v)
    ensures Select(rows, c, v) == rows
    decreases |rows|
  {
    if |rows| > 0 {
      assert Matches(rows[0], c, v);
      SelectAllMatching(rows[1..], c, v);
      SelectCons(rows, c, v);
      assert rows == [rows[0]] + rows[1..];
    }
  }

  // ---------------------------------------------------------------------------
  // properties of the single predicates

  /** Every row the filter keeps has the chosen task and area (unless `All`), a
      year in the range, a modality cell when modalities are chosen, and, for a
      non-empty search term, an id that contains the term in any letter case. */
  lemma KeptRowsMeetCriteria(rows: seq<Row>, c: Criteria, v: Reading, x: Row)
    requires x in ApplyFilter(rows, c, v)
    ensures x in rows
    ensures c.task != All ==> x.rec.task == Some(c.task)
    ensures c.area != All ==> x.rec.area == Some(c.area)
    ensures x.rec.yearPublished.Some? && c.yearFrom <= x.rec.yearPublished.value <= c.yearTo
    ensures |c.modalities| > 0 ==> x.rec.modalities.Some?
    ensures c.search != "" ==> Contains(Lower(x.rec.datasetId), Lower(c.search))
  {
  }

  /** The year bounds are inclusive: a row published in either bound year passes
      the year step. */
  lemma YearBoundsInclusive(r: DatasetRecord, from: int, to: int)
    requires from <= to
    requires r.yearPublished == Some(from) || r.yearPublished == Some(to)
    ensures YearOk(r, from, to)
  {
  }

  /** A row with no year never survives the filter, whatever the criteria, even when
      the range spans every year in the table. */
  lemma MissingYearAlwaysDropped(rows: seq<Row>, c: Criteria, v: Reading, x: Row)
    requires x.rec.yearPublished.None?
    ensures x !in ApplyFilter(rows, c, v)
  {
  }

  /** The criteria of a session that has touched no control: `All`, `All`, no
      modality, the given year range, no search text. */
  function NoConstraints(from: int, to: int): (c: Criteria)
    ensures c.task == All && c.area == All && c.modalities == [] && c.search == ""
    ensures c.yearFrom == from && c.yearTo == to
  {
    Criteria(All, All, [], from, to, "")
  }

  /** Untouched controls leave only the year range: a row matches them exactly
      when its year lies in the range, whichever modality test is used. */
  lemma NoConstraintsIsYearRange(x: Row, from: int, to: int, v: Reading)
    ensures Matches(x, NoConstraints(from, to), v) <==> YearOk(x.rec, from, to)
  {
  }

  /** Without constraints the filter still applies the year range: over a table whose
      known years all lie in the range it keeps exactly the rows that have a year,
      and when every row has one it returns the table unchanged. */
  lemma UnconstrainedFilter(rows: seq<Row>, from: int, to: int, v: Reading)
    requires forall i :: 0 <= i < |rows| && rows[i].rec.yearPublished.Some? ==>
      from <= rows[i].rec.yearPublished.value <= to
    ensures forall x :: x in ApplyFilter(rows, NoConstraints(from, to), v) <==>
      x in rows && x.rec.yearPublished.Some?
    ensures (forall i :: 0 <= i < |rows| ==> rows[i].rec.yearPublished.Some?) ==>
      ApplyFilter(rows, NoConstraints(from, to), v) == rows
  {
    var c := NoConstraints(from, to);
    forall x | x in rows && x.rec.yearPublished.Some?
      ensures Matches(x, c, v)
    {
      var i :| 0 <= i < |rows| && rows[i] == x;
      NoConstraintsIsYearRange(x, from, to, v);
    }
    if forall i :: 0 <= i < |rows| ==> rows[i].rec.yearPublished.Some? {
      SelectAllMatching(rows, c, v);
      StagedFilterIsConjunction(rows, c, v);
    }
  }

  /** An empty modality selection constrains nothing; a non-empty one never keeps a
      row whose modality cell is missing. */
  lemma ModalitySelectionScope(r: DatasetRecord, selected: seq<string>)
    ensures |selected| == 0 ==> ModalityOk(r, selected) && ModalityOkAsWritten(r, selected)
    ensures |selected| > 0 && r.modalities.None? ==>
      !ModalityOk(r, selected) && !ModalityOkAsWritten(r, selected)
  {
  }

  /** A row lists a modality option: the option, chosen alone, keeps that row. Every
      option the sidebar offers therefore selects each row it was collected from. */
  lemma OptionSelectsItsRows(rows: seq<Row>, t: string, i: int)
    requires 0 <= i < |rows|
    requires t in FieldTokens(rows[i].rec.modalities)
    ensures t in ModalityOptions(rows)
    ensures ModalityOk(rows[i].rec, [t])
  {
    StripTrimmed(t);
    AnyTagInSingle(t, FieldTokens(rows[i].rec.modalities));
  }

  lemma AnyTagInSingle(x: string, pool: seq<string>)
    ensures AnyTagIn([x], pool) <==> Strip(x) in pool
  {
    assert [x][1..] == [];
  }

  lemma {:induction false} AnyTagInSamePools(selected: seq<string>, p: seq<string>, q: seq<string>)
    requires forall k :: 0 <= k < |selected| ==> (Strip(selected[k]) in p <==> Strip(selected[k]) in q)
    ensures AnyTagIn(selected, p) <==> AnyTagIn(selected, q)
    decreases |selected|
  {
    if |selected| > 0 {
      AnyTagInSamePools(selected[1..], p, q);
    }
  }

  /** On rows whose modality pieces carry no padding app.py's test and the
      token test agree, for any selection of non-blank tags. */
  lemma ModalityTestsAgreeOnUnpaddedCells(r: DatasetRecord, selected: seq<string>)
    requires r.modalities.Some?
    requires forall p :: p in Split(r.modalities.value, Comma) ==> Strip(p) == p
    requires forall k :: 0 <= k < |selected| ==> Strip(selected[k]) != ""
    ensures ModalityOk(r, selected) <==> ModalityOkAsWritten(r, selected)
  {
    var m := r.modalities.value;
    forall k | 0 <= k < |selected|
      ensures Strip(selected[k]) in Split(m, Comma) <==> Strip(selected[k]) in Tokens(m)
    {
      var t := Strip(selected[k]);
      TokenIffPiece(m, t);
      if t in Split(m, Comma) {
        assert Strip(t) == t;
      }
      if t in Tokens(m) {
        var p :| p in Split(m, Comma) && Strip(p) == t;
        assert p == t;
      }
    }
    AnyTagInSamePools(selected, Split(m, Comma), Tokens(m));
  }

  /** A cell written with a space after a comma (say `"Text, Image"`, whose pieces
      are `"Text"` and `" Image"`) lists `b` only in padded form. The sidebar offers
      the option `b` because of this row, yet app.py's test does not keep the row
      when that option is chosen; the token test does. */
  lemma PaddedModalityMissedAsWritten(r: DatasetRecord, padded: string, b: string, selected: seq<string>)
    requires r.modalities.Some?
    requires |padded| > 0 && IsSpace(padded[0]) && padded[1..] == b
    requires b != [] && IsTrimmed(b)
    requires padded in Split(r.modalities.value, Comma)
    requires b !in Split(r.modalities.value, Comma)
    requires |selected| == 1 && selected[0] == b
    ensures b in FieldTokens(r.modalities)
    ensures !ModalityOkAsWritten(r, selected)
    ensures ModalityOk(r, selected)
  {
    var m := r.modalities.value;
    assert padded == [padded[0]] + b;
    StripLeadingSpace(padded[0], b);
    StripTrimmed(b);
    assert Strip(padded) == b;
    TokenOfPiece(m, padded);
    assert selected == [b];
    AnyTagInSingle(b, Split(m, Comma));
    AnyTagInSingle(b, FieldTokens(r.modalities));
  }

  /** With the token test, choosing any one of a row's listed modalities alone,
      every other control untouched and the row's year in range, keeps the row. */
  lemma OptionKeepsItsRows(rows: seq<Row>, t: string, i: int, from: int, to: int)
    requires 0 <= i < |rows|
    requires t in FieldTokens(rows[i].rec.modalities)
    requires YearOk(rows[i].rec, from, to)
    ensures t in ModalityOptions(rows)
    ensures rows[i] in ApplyFilter(rows, Criteria(All, All, [t], from, to, ""), Corrected)
  {
    OptionSelectsItsRows(rows, t, i);
    var c := Criteria(All, All, [t], from, to, "");
    assert Matches(rows[i], c, Corrected);
    KeptWhenMatching(rows, c, Corrected, rows[i]);
  }

  lemma KeptWhenMatching(rows: seq<Row>, c: Criteria, v: Reading, x: Row)
    requires x in rows && Matches(x, c, v)
    ensures x in ApplyFilter(rows, c, v)
  {
  }

  /** A row whose cell reads `a, b` (a space after the comma) makes the sidebar offer
      `b`; choosing `b` alone drops that row from app.py's filter and keeps it in
      the corrected one. */
  lemma PaddedRowDroppedAsWritten(rows: seq<Row>, i: int, a: string, b: string, from: int, to: int)
    requires 0 <= i < |rows|
    requires rows[i].rec.modalities == Some(a + [Comma, ' '] + b)
    requires Comma !in a && Comma !in b
    requires b != [] && IsTrimmed(b) && a != b
    requires YearOk(rows[i].rec, from, to)
    ensures b in ModalityOptions(rows)
    ensures rows[i] !in ApplyFilter(rows, Criteria(All, All, [b], from, to, ""), AsWritten)
    ensures rows[i] in ApplyFilter(rows, Criteria(All, All, [b], from, to, ""), Corrected)
  {
    var r := rows[i].rec;
    var padded := [' '] + b;
    assert Comma !in padded;
    assert a + [Comma, ' '] + b == a + [Comma] + padded;
    SplitTwo(a, padded);
    assert b !in Split(r.modalities.value, Comma) by {
      assert Split(r.modalities.value, Comma) == [a, padded];
      assert |padded| != |b|;
    }
    PaddedModalityMissedAsWritten(r, padded, b, [b]);
    OptionKeepsItsRows(rows, b, i, from, to);
  }

  /** The cell `"Text, Image"`: the option `"Image"` drops its row as written. */
  lemma TextImageRowDroppedAsWritten(rows: seq<Row>, i: int, from: int, to: int)
    requires 0 <= i < |rows|
    requires rows[i].rec.modalities == Some("Text, Image")
    requires YearOk(rows[i].rec, from, to)
    ensures "Image" in ModalityOptions(rows)
    ensures rows[i] !in ApplyFilter(rows, Criteria(All, All, ["Image"], from, to, ""), AsWritten)
    ensures rows[i] in ApplyFilter(rows, Criteria(All, All, ["Image"], from, to, ""), Corrected)
  {
    assert "Text, Image" == "Text" + [Comma, ' '] + "Image";
    assert IsTrimmed("Image");
    PaddedRowDroppedAsWritten(rows, i, "Text", "Image", from, to);
  }

  /** Search ignores the letter case of the term. */
  lemma SearchIgnoresTermCase(r: DatasetRecord, term: string)
    ensures SearchOk(r, term) <==> SearchOk(r, Lower(term))
  {
    LowerIdempotent(term);
  }

  /** Within a filtered table a task holds at most as many rows as in the full table,
      and none at all when another task is selected. */
  lemma FilteredTaskCount(rows: seq<Row>, c: Criteria, v: Reading, task: string)
    ensures TaskCount(ApplyFilter(rows, c, v), task) <= TaskCount(rows, task)
    ensures c.task != All && c.task != task ==> TaskCount(ApplyFilter(rows, c, v), task) == 0
  {
    StagedFilterIsConjunction(rows, c, v);
    SelectTaskCount(rows, c, v, task);
  }

  lemma {:induction false} SelectTaskCount(rows: seq<Row>, c: Criteria, v: Reading, task: string)
    ensures TaskCount(Select(rows, c, v), task) <= TaskCount(rows, task)
    ensures c.task != All && c.task != task ==> TaskCount(Select(rows, c, v), task) == 0
    decreases |rows|
  {
    if |rows| > 0 {
      SelectTaskCount(rows[1..], c, v, task);
      var rest := Select(rows[1..], c, v);
      var sel := Select(rows, c, v);
      SelectCons(rows, c, v);
      TaskCountCons(rows, task);
      if Matches(rows[0], c, v) {
        assert sel[0] == rows[0] && sel[1..] == rest;
        TaskCountCons(sel, task);
      } else {
        assert sel == rest;
      }
    }
  }

  // ---------------------------------------------------------------------------
  // the task selector

  const LabelOpen: string := " ("

  /** The option text `f"{task} ({count})"`. */
  function TaskLabel(task: string, count: nat): string {
    task + LabelOpen + NatToString(count) + ")"
  }

  /** app.py's decoding: `label.split(' (')[0]` unless the label is `All`. */
  function TaskOfLabelAsWritten(option: string): string {
    if option == All then All else BeforeFirst(option, LabelOpen)
  }

  /** Decoding at the last `" ("`, which is where the count part begins. */
  function TaskOfLabel(option: string): string {
    if option == All then All else BeforeLast(option, LabelOpen)
  }

  lemma LabelOpensAfterTask(task: string, count: nat)
    ensures OccursAt(TaskLabel(task, count), LabelOpen, |task|)
    ensures TaskLabel(task, count)[..|task|] == task
    ensures TaskLabel(task, count) != All
  {
    var l := TaskLabel(task, count);
    assert l[|task|..|task| + 2] == LabelOpen;
  }

  /** Past the task name a label holds "(", digits and ")": never a space. */
  lemma NoSpaceAfterTask(task: string, count: nat)
    ensures forall j :: |task| < j < |TaskLabel(task, count)| ==> TaskLabel(task, count)[j] != ' '
  {
    var d := NatToString(count);
    var l := TaskLabel(task, count);
    assert l == task + " (" + d + ")";
    forall j | |task| < j < |l|
      ensures l[j] != ' '
    {
      if j == |task| + 1 {
        assert l[j] == '(';
      } else if j < |task| + 2 + |d| {
        assert l[j] == d[j - |task| - 2];
      } else {
        assert l[j] == ')';
      }
    }
  }

  /** Every "task (count)" option decodes back to its task, whatever the task's
      name, and `All` decodes to `All`. */
  lemma TaskLabelRoundTrip(task: string, count: nat)
    ensures TaskOfLabel(TaskLabel(task, count)) == task
    ensures TaskOfLabel(All) == All
  {
    var l := TaskLabel(task, count);
    LabelOpensAfterTask(task, count);
    NoSpaceAfterTask(task, count);
    forall j: nat | |task| < j
      ensures !OccursAt(l, LabelOpen, j)
    {
      if j + 2 <= |l| {
        assert l[j..j + 2][0] == l[j];
      }
    }
    BeforeLastAt(l, LabelOpen, |task|);
  }

  lemma EveryTaskLabelRoundTrips()
    ensures forall task, count :: TaskOfLabel(TaskLabel(task, count)) == task
  {
    forall task, count
      ensures TaskOfLabel(TaskLabel(task, count)) == task
    {
      TaskLabelRoundTrip(task, count);
    }
  }

  /** app.py's decoding gives back the task when the task's name has no " (". */
  lemma TaskLabelRoundTripAsWritten(task: string, count: nat)
    requires !Contains(task, LabelOpen)
    ensures TaskOfLabelAsWritten(TaskLabel(task, count)) == task
  {
    var l := TaskLabel(task, count);
    LabelOpensAfterTask(task, count);
    forall j: nat | j < |task|
      ensures !OccursAt(l, LabelOpen, j)
    {
      if j + 1 < |task| {
        assert l[j..j + 2] == task[j..j + 2];
        assert !OccursAt(task, LabelOpen, j);
      } else {
        assert l[j + 1] == ' ';
      }
    }
    BeforeFirstAt(l, LabelOpen, |task|);
  }

  lemma EveryTaskLabelRoundTripsAsWritten()
    ensures forall task, count :: !Contains(task, LabelOpen) ==>
      TaskOfLabelAsWritten(TaskLabel(task, count)) == task
  {
    forall task, count | !Contains(task, LabelOpen)
      ensures TaskOfLabelAsWritten(TaskLabel(task, count)) == task
    {
      TaskLabelRoundTripAsWritten(task, count);
    }
  }

  /** A task named `"QA (open)"` is offered as `"QA (open) (3)"`; app.py decodes
      that option to `"QA"`, so choosing it filters on a task no row has. */
  lemma ParenthesisedTaskTruncatedAsWritten()
    ensures TaskOfLabelAsWritten(TaskLabel("QA (open)", 3)) == "QA"
    ensures TaskOfLabel(TaskLabel("QA (open)", 3)) == "QA (open)"
  {
    var l := TaskLabel("QA (open)", 3);
    assert NatToString(3) == "3";
    assert l == "QA (open) (3)";
    assert OccursAt(l, LabelOpen, 2);
    forall j: nat | j < 2
      ensures !OccursAt(l, LabelOpen, j)
    {
      assert l[j..j + 2][0] == l[j] != ' ';
    }
    BeforeFirstAt(l, LabelOpen, 2);
    TaskLabelRoundTrip("QA (open)", 3);
  }

  /** The criteria the sidebar builds from its controls, as app.py builds them:
      the task option is decoded at its first `" ("`, which gives back the task of
      every option whose task name has no `" ("`. */
  function SidebarCriteria(taskOption: string, area: string, modalities: seq<string>,
                           yearFrom: int, yearTo: int, search: string): (c: Criteria)
    ensures forall task, count :: !Contains(task, LabelOpen) && taskOption == TaskLabel(task, count) ==>
      c.task == task
    ensures taskOption == All ==> c.task == All
    ensures c.area == area && c.modalities == modalities && c.search == search
    ensures c.yearFrom == yearFrom && c.yearTo == yearTo
  {
    EveryTaskLabelRoundTripsAsWritten();
    Criteria(TaskOfLabelAsWritten(taskOption), area, modalities, yearFrom, yearTo, search)
  }

  /** The corrected sidebar criteria: decoding at the last `" ("` gives back the task
      of every option, whatever the task's name. */
  function SidebarCriteriaCorrected(taskOption: string, area: string, modalities: seq<string>,
                                    yearFrom: int, yearTo: int, search: string): (c: Criteria)
    ensures forall task, count :: taskOption == TaskLabel(task, count) ==> c.task == task
    ensures taskOption == All ==> c.task == All
    ensures c.area == area && c.modalities == modalities && c.search == search
    ensures c.yearFrom == yearFrom && c.yearTo == yearTo
  {
    EveryTaskLabelRoundTrips();
    Criteria(TaskOfLabel(taskOption), area, modalities, yearFrom, yearTo, search)
  }
}
