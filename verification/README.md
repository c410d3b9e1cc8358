# AI Benchmark Explorer — a Dafny model of its pure core

The AI Benchmark Explorer is a Streamlit dashboard over a CSV of AI dataset and
benchmark metadata. All of it lives in `app.py`. This project takes the computation
buried in its UI code and states it as pure Dafny functions, then proves what that
computation promises:

- **Comma-list cells** (`CommaLists`, `Records`). These are the load-time counts
  `benchmark_cnt` and `associated_task_cnt`, the trimmed token lists the detail
  panel shows, and the sorted, de-duplicated option lists for the sidebar. They
  rest on a model of Python's `strip`, `split(',')`, `join`, and string ordering
  (`Text`).
- **The sidebar filter** (`Filter`). It covers task, area, modality, year range and
  search. The five steps are applied one after another, as `create_filter_panel`
  does. The filter is proved equal to a one-pass conjunctive selection. The
  `"task (count)"` selector labels and their decoding are part of this module.
  The modality step takes a `Reading`. With `AsWritten` it is the test of
  app.py:169, against the raw comma-split pieces. With `Corrected` it compares the
  trimmed tokens the option list is built from. `SidebarCriteria` decodes the task
  label as app.py:137 does. `SidebarCriteriaCorrected` decodes it at the last `" ("`.
- **Pagination** (`Pagination`). This covers the page count, the reset of a stale
  page to 1, the slice a page shows, and when the Previous, Next and page buttons
  are enabled.
- **The page-number strip** (`PageWindow`). It shows up to seven page numbers
  and `...` markers around the current page.
- **The session** (`Explorer`). The current page and the selected dataset id form
  a state. Clicks are transitions on it. The detail panel looks the selection up in
  the full, unfiltered table.

A missing cell (pandas NaN) is `None`. Every NaN comparison is false, so the year
filter drops a row with no year. `str.contains(term, case=False)` is a literal
substring test on ASCII-lower-cased text. `str.isspace` keeps Python's full list of
white-space code points.

Three behaviours of `app.py` are easy to misread; the model keeps them:

- **The year filter.** `app.py` always applies the year filter, so even a session
  that touched no control drops rows with no year (`Filter.UnconstrainedFilter`).
- **Empty results.** An empty result has `total_pages = 0` and shows "Page 1 of 0"
  (`Pagination.EmptyTablePaging`).
- **Next with no pages.** With no page, `st.columns(0)` at app.py:377 raises before
  the page buttons, Next and the detail panel are drawn. The model therefore lets
  Next act only when the pager is drawn (`Pagination.PagerDrawn`). On every drawn
  page, Next's condition is the one at app.py:415
  (`Pagination.NextConditionsAgreeOnPages`).

One decision is the model's own. A selected id that no row carries makes `app.py`
raise at `iloc[0]`. The model returns no detail instead (`Explorer.Detail`).

## Model

| member | source | states |
|---|---|---|
| Text.StripEmptyIffBlank | app.py:117 | `piece.strip()` is falsy exactly when the piece is all white space |
| Text.Strip | app.py:146 | the stripped text has no white space at either end and is no longer than the input |
| Text.StripTrimmed | app.py:146 | stripping text without white space at its ends leaves it unchanged |
| Text.StripIdempotent | app.py:146 | stripping twice is stripping once |
| Text.StripLeadingSpace | app.py:168-170 | a piece padded with a leading space strips to the unpadded piece |
| Text.StripKeepsAbsent | app.py:146 | stripping never introduces a character, so a stripped piece stays comma-free |
| Text.TrimLeftDropsSpace | app.py:146 | everything the left trim removes is white space |
| Text.TrimRightDropsSpace | app.py:146 | everything the right trim removes is white space |
| Text.Split | app.py:117 | `split(',')` gives at least one piece and no piece holds the separator |
| Text.SplitCount | app.py:117 | n separators give exactly n + 1 pieces |
| Text.JoinSplit | app.py:117 | joining the pieces of a split with the separator gives back the cell |
| Text.SplitJoin | app.py:117 | splitting a join of separator-free parts gives back exactly those parts |
| Text.SplitPrefix | app.py:117 | a separator-free prefix becomes part of the first piece |
| Text.SplitCons | app.py:117 | a leading separator starts a new piece; any other character extends the first piece |
| Text.Lower | app.py:178 | lower-casing keeps the length and leaves no capital letter; each capital becomes its small letter, every other character is kept, and a string with no capitals comes back unchanged |
| Text.LowerIdempotent | app.py:178 | lower-casing twice is lower-casing once |
| Text.FirstIndex | app.py:137 | finds the first occurrence of a substring, or reports that there is none |
| Text.LastIndex | app.py:137 | finds the last occurrence of a substring, or reports that there is none |
| Text.BeforeFirstAt | app.py:137 | `split(sub)[0]` is the text before the first occurrence |
| Text.BeforeLastAt | app.py:137 | `rsplit(sub, 1)[0]` is the text before the last occurrence |
| Text.BeforeFirst | app.py:137 | `split(sub)[0]`: a prefix of the text that ends where the first occurrence of `sub` begins, or the whole text when `sub` does not occur |
| Text.BeforeLast | app.py:137 | the corrected decoding's cut: a prefix of the text that ends where the last occurrence of `sub` begins, or the whole text when `sub` does not occur |
| Text.NatToString | app.py:135 | `str(count)` is a non-empty string of decimal digits with no leading zero, and `"0"` for 0 |
| Text.NatToStringSpellsValue | app.py:135 | `str(count)` spells `count` in decimal |
| Text.LessIrreflexive | app.py:147 | code-point string order is irreflexive |
| Text.LessTransitive | app.py:147 | code-point string order is transitive |
| Text.LessTotal | app.py:147 | any two different strings are ordered one way or the other |
| CommaLists.CountNonBlank | app.py:116-121 | the count of non-blank pieces is at most the number of pieces |
| CommaLists.TokenCount | app.py:116-121 | a missing cell counts 0; a present one counts at most commas + 1 |
| CommaLists.TokenCountZero | app.py:116-121 | a cell counts 0 exactly when it holds only commas and white space |
| CommaLists.TokenCountOfJoin | app.py:116-121 | a cell built from comma-free parts counts its non-blank parts |
| CommaLists.TrailingCommaExample | app.py:116-118 | `"http://a, http://b,"` counts 2 benchmark URLs |
| CommaLists.TrailingCommaPieces | app.py:116-118 | that cell is the comma join of `"http://a"`, `" http://b"` and `""` |
| CommaLists.TrailingCommaPiecesCount | app.py:116-118 | two of those three pieces are non-blank |
| CommaLists.CountTwoOfThree | app.py:116-118 | two non-blank pieces and one blank piece count 2 |
| CommaLists.CountIsTokenLength | app.py:116-121 | the count of non-blank pieces is the length of the stripped non-blank list |
| CommaLists.TokenCountIsTokenLength | app.py:116-121 | the stored count equals the number of chips the detail panel lists for the same cell |
| CommaLists.NonEmpty | app.py:225 | `[x for x in xs if x]`: an order-preserving subsequence holding each non-empty entry as often as the input does, and no empty one |
| CommaLists.StripNonBlank | app.py:225 | the kept tokens are non-empty and trimmed, in piece order, each stripped piece kept as often as it occurs unless it is empty |
| CommaLists.PieceKept | app.py:225 | every non-blank piece contributes its stripped form |
| CommaLists.StrippedFromPiece | app.py:225 | every kept token is the stripped form of some piece |
| CommaLists.Tokens | app.py:225 | the chips of a cell are non-empty, trimmed and comma-free, in cell order and with repeats: every non-empty stripped piece as often as it occurs |
| CommaLists.TokensCommaFree | app.py:225 | tokens stripped from comma-free pieces are comma-free |
| CommaLists.TokenComesFromPiece | app.py:238 | every token is a stripped piece of the cell |
| CommaLists.TokenOfPiece | app.py:238 | every non-blank piece's stripped form is a token |
| CommaLists.TokenIffPiece | app.py:225 | a string is a token exactly when it is the non-empty stripped form of a piece |
| CommaLists.SplitTwo | app.py:168-170 | a cell of two comma-free entries splits into exactly those two pieces |
| CommaLists.Insert | app.py:147 | inserting into a strictly increasing list keeps it strictly increasing and adds exactly the new value |
| CommaLists.SortedDistinct | app.py:147 | `sorted(set(xs))` is strictly increasing and holds exactly the values of `xs` |
| CommaLists.SortedDistinctHasNoDuplicates | app.py:147 | the option list repeats no value |
| CommaLists.SortedHeadBelowRest | app.py:147 | the head of a strictly increasing list is below every later entry |
| CommaLists.PrependSmaller | app.py:147 | a value below the head can be put in front |
| Records.FieldTokens | app.py:225-236 | a missing cell has no tokens; a present one has as many tokens as its stored count |
| Records.Derive | app.py:116-121 | each derived count is the number of tokens of its cell |
| Records.Load | app.py:113-123 | loading keeps the rows in file order and adds both counts to each |
| Records.LoadIsConsistent | app.py:116-121 | every loaded row carries the counts its own cells give |
| Records.TaskCount | app.py:133 | `value_counts()[task]`: the number of occurrences of the task in the task column, so positive exactly when some row has that task and never above the row count |
| Records.AllModalityTokens | app.py:144-146 | the collected modalities are exactly the tokens of the rows' modality cells |
| Records.ModalityOptions | app.py:147-148 | the modality options are strictly sorted, non-empty, trimmed, and exactly the tokens some row lists |
| Records.AreaValues | app.py:140 | the collected areas are exactly the areas rows have |
| Filter.AreaOptions | app.py:140 | the area choices are `All` followed by the rows' areas, strictly sorted and each once |
| Filter.Keep | app.py:161-178 | one filter step keeps exactly the rows that pass it and never lengthens the table |
| Filter.TaskOk | app.py:161-162 | a row passes the task step when `All` is chosen or its task is the chosen one |
| Filter.AreaOk | app.py:164-165 | a row passes the area step when `All` is chosen or its area is the chosen one; a missing area never equals it |
| Filter.ModalityOkAsWritten | app.py:167-170 | as written: no selection passes every row; otherwise a row with a modality cell passes when some stripped selected tag equals one of its raw comma-split pieces |
| Filter.ModalityOk | app.py:146-170 | corrected: the same test against the row's trimmed tokens, the ones the options come from |
| Filter.ModalityPasses | app.py:167-170 | the modality step under the chosen reading |
| Filter.YearOk | app.py:172-175 | a row passes the year step when it has a year within both inclusive bounds |
| Filter.SearchOk | app.py:177-178 | an empty term passes every row; otherwise the lower-cased id contains the lower-cased term |
| Filter.AnyTagIn | app.py:169 | `any(mod.strip() in pool for mod in selected)`: some selected tag, stripped, is in the pool |
| Filter.Matches | app.py:161-178 | a row meets the criteria when it passes the task, area, modality (under the chosen reading), year and search tests |
| Filter.ApplyFilter | app.py:159-180 | under either reading, the staged filter keeps exactly the rows that meet every criterion and never lengthens the table |
| Filter.Select | app.py:159-180 | the one-pass selection is a subsequence of the table holding exactly the matching rows |
| Filter.KeepAppend | app.py:161-178 | a filter step distributes over concatenation of tables |
| Filter.ApplyFilterAppend | app.py:159-180 | the whole filter distributes over concatenation of tables |
| Filter.ApplyFilterSingle | app.py:159-180 | a one-row table keeps its row exactly when the row matches |
| Filter.StagedFilterIsConjunction | app.py:159-180 | the five steps in sequence equal the one-pass conjunctive filter, order and multiplicity included |
| Filter.FilterIsSubsequence | app.py:159-180 | the result is an order-preserving subsequence of the table and invents no row |
| Filter.SelectCounts | app.py:159-180 | the one-pass selection holds each matching row as often as the table does, and no other row |
| Filter.FilterKeepsMultiplicity | app.py:159-180 | the staged filter keeps duplicate rows: each matching row as often as in the table, any other row not at all |
| Filter.SelectAllMatching | app.py:159-180 | when every row matches, the table comes back unchanged |
| Filter.KeptRowsMeetCriteria | app.py:161-178 | every kept row has the chosen task and area unless `All`, an in-range year, and an id containing the search term in any letter case |
| Filter.YearBoundsInclusive | app.py:172-175 | a row whose year equals either bound passes the year step |
| Filter.MissingYearAlwaysDropped | app.py:172-175 | a row with no year is never kept, whatever the criteria |
| Filter.NoConstraintsIsYearRange | app.py:159-175 | with the controls untouched a row matches exactly when its year lies in the range, under either reading |
| Filter.UnconstrainedFilter | app.py:159-175 | with no constraint the filter keeps exactly the rows that have a year, and when all have one it returns the table |
| Filter.ModalitySelectionScope | app.py:167-170 | an empty selection constrains nothing; a row with no modality cell never matches a non-empty one |
| Filter.AnyTagInSingle | app.py:169 | a one-tag selection matches exactly when the stripped tag is in the pool |
| Filter.AnyTagInSamePools | app.py:169 | `any(...)` gives the same answer for two pools that agree on every selected tag |
| Filter.ModalityTestsAgreeOnUnpaddedCells | app.py:167-170 | on cells without padding, the test as written and the token test agree |
| Filter.PaddedModalityMissedAsWritten | app.py:167-170 | a cell listing `b` only as `" b"` offers option `b`, which the test as written rejects and the token test accepts |
| Filter.OptionKeepsItsRows | app.py:143-175 | corrected: any one modality a row lists is offered, and choosing it alone keeps the row whenever its year is in range |
| Filter.PaddedRowDroppedAsWritten | app.py:143-175 | a row whose cell reads `a, b` makes the sidebar offer `b`; choosing `b` drops the row as written and keeps it when corrected |
| Filter.TextImageRowDroppedAsWritten | app.py:143-175 | for the cell `"Text, Image"`, choosing `Image` drops the row as written and keeps it when corrected |
| Filter.OptionSelectsItsRows | app.py:143-170 | every option the sidebar offers is in the list and, chosen alone, keeps each row it came from |
| Filter.SearchIgnoresTermCase | app.py:177-178 | searching for a term and for its lower-cased form gives the same result |
| Filter.FilteredTaskCount | app.py:431 | in the filtered table a task never has more rows than in the full table, and none when another task is selected |
| Filter.SelectTaskCount | app.py:431 | the one-pass selection never raises a task's count, and zeroes the other tasks |
| Filter.TaskLabel | app.py:135 | an option reads `task (count)` |
| Filter.TaskOfLabelAsWritten | app.py:137 | as written: `All` stays `All`; any other option is cut at its first `" ("` |
| Filter.TaskOfLabel | app.py:137 | corrected: `All` stays `All`; any other option is cut at its last `" ("` |
| Filter.LabelOpensAfterTask | app.py:135 | a label starts with its task name, followed by `" ("` |
| Filter.NoSpaceAfterTask | app.py:135 | past the task name a label holds no space |
| Filter.TaskLabelRoundTrip | app.py:135-137 | every `"task (count)"` label decodes back to its task, whatever the name; `All` decodes to `All` |
| Filter.EveryTaskLabelRoundTrips | app.py:135-137 | the round trip holds for every task and count |
| Filter.TaskLabelRoundTripAsWritten | app.py:135-137 | app.py's decoding gives back the task when the name holds no `" ("` |
| Filter.EveryTaskLabelRoundTripsAsWritten | app.py:135-137 | that round trip holds for every such task and count |
| Filter.ParenthesisedTaskTruncatedAsWritten | app.py:137 | the label `"QA (open) (3)"` decodes to `"QA"` as written and to `"QA (open)"` when corrected |
| Filter.SidebarCriteria | app.py:136-178 | as written: the criteria carry the task the chosen label was built from when its name has no `" ("`, or `All`, and pass the other controls through |
| Filter.SidebarCriteriaCorrected | app.py:136-178 | corrected: the criteria carry the task the chosen label was built from, whatever its name, or `All` |
| Pagination.DefaultIsSecondOption | app.py:268-269 | the preselected page size is the second choice, 20, and every choice is positive |
| Pagination.TotalPages | app.py:271 | the page count holds every row, and one page fewer would not |
| Pagination.TotalPagesIsLeast | app.py:271 | no smaller page count holds every row |
| Pagination.NoRowsNoPages | app.py:271 | an empty result has 0 pages; a non-empty one has at least 1 |
| Pagination.ValidatePage | app.py:278-279 | a page within the count is kept and one beyond it becomes 1, so a page of at least 1 ends in `[1, max(1, total_pages)]`, and at 1 when there are no pages |
| Pagination.ValidateIdempotent | app.py:278-279 | validating twice is validating once |
| Pagination.PageStart | app.py:282 | `start_idx = (current_page - 1) * page_size` |
| Pagination.PageRows | app.py:282-284 | the slice holds at most `size` rows, row k being table row `(page - 1) * size + k`, and is full when the table reaches the page end |
| Pagination.PageHoldsItsIndexRange | app.py:282-284 | every table row with index in `[(page-1)*size, page*size)` is on that page, at its offset |
| Pagination.IndexPage | app.py:282-284 | index i lies on page `i / size + 1`, at offset `i % size` |
| Pagination.IndexPageUnique | app.py:282-284 | no other page's index range holds index i |
| Pagination.EveryRowOnOnePage | app.py:271-284 | every row is on exactly one page, and that page is one the table has |
| Pagination.ShownCount | app.py:287 | the shown count is at most the page size and the page length, and equals one of them |
| Pagination.ShownCountIsPageLength | app.py:287 | the "Showing n" count is the number of rows on the page |
| Pagination.ThirdPageOfFortyFive | app.py:271-284 | 45 rows at 20 per page make 3 pages, and page 3 shows rows 40 to 44 |
| Pagination.EmptyTablePaging | app.py:271-284 | an empty result has 0 pages, resets to page 1 and shows nothing |
| Pagination.PrevEnabled | app.py:371 | Previous is disabled on page 1 only |
| Pagination.NextEnabledAsWritten | app.py:415 | Next is disabled only on the page equal to the page count |
| Pagination.GotoEnabled | app.py:409-410 | a page-number button is disabled only for the current page |
| Pagination.PagerDrawn | app.py:377 | the page buttons and Next are drawn only when there is at least one page |
| Pagination.NextConditionsAgreeOnPages | app.py:415 | on a page between 1 and the page count, Next is enabled exactly when a later page exists |
| Pagination.NavigationStaysInRange | app.py:371-417 | from a valid page, an enabled Previous, or a drawn and enabled Next, lands on a valid page |
| PageWindow.Window | app.py:380-399 | the strip is empty without pages, and otherwise opens with page 1 and closes with the last page |
| PageWindow.Range | app.py:381 | `range(lo, hi + 1)` gives the pages lo to hi in order |
| PageWindow.RangeProperties | app.py:381 | a range of pages is ascending, within its bounds, without gaps, and holds each of its pages |
| PageWindow.SmallWindowIsEveryPage | app.py:380-381 | with at most 7 pages the strip is exactly pages 1 to total |
| PageWindow.Shown | app.py:377-404 | the entries that get a column are a prefix of the strip, at most `min(7, total_pages)` of them |
| PageWindow.LargeWindowIsFramed | app.py:383-399 | beyond 7 pages the strip is page 1, a marker when current > 3, the run around current, a marker when current < total - 2, and the last page |
| PageWindow.FramedLength | app.py:383-399 | the length of such a strip |
| PageWindow.FramedAt | app.py:383-399 | where the first page, the markers, the run and the last page sit in the strip |
| PageWindow.FramedEntries | app.py:383-399 | every entry of the strip is one of those parts, at that position |
| PageWindow.FramedAscending | app.py:383-399 | the numbers of such a strip ascend and lie in `[1, total]` |
| PageWindow.FramedNoSilentSkip | app.py:383-399 | neighbouring numbers in such a strip are consecutive pages |
| PageWindow.FramedMarkersMarkSkips | app.py:383-399 | each marker of such a strip separates numbers with at least one page between them |
| PageWindow.LargeWindowEnds | app.py:383-399 | beyond 7 pages the strip starts with page 1 and ends with the last page |
| PageWindow.WindowAscendingWithin | app.py:376-399 | page numbers strictly increase and lie in `[1, total_pages]` |
| PageWindow.WindowHasCurrent | app.py:376-399 | the current page is always on the strip |
| PageWindow.WindowFitsColumns | app.py:376-404 | the strip has at most `min(7, total_pages)` entries, so every entry gets a column |
| PageWindow.WindowMarksSkips | app.py:376-399 | `...` appears exactly where at least one page number is skipped |
| Explorer.Initial | app.py:274-275 | a fresh session is on page 1 with nothing selected |
| Explorer.RenderedPage | app.py:278-279 | the rendered page is the stored one when valid, and otherwise a page in `[1, max(1, total_pages)]` |
| Explorer.VisibleRows | app.py:282-284 | the visible rows are at most a page of rows, all from the filtered table |
| Explorer.Step | app.py:274-417 | from the rendered page p: Previous goes to p - 1 unless p is 1; Next goes to p + 1 exactly when p is before the last page; a shown page button goes to its page; anything else stays at p. Only a row click changes the selection, to its id when visible. A rerun without a click saves the validated page |
| Explorer.NextThenPrevReturns | app.py:370-417 | from a page before the last, Next then Previous returns to it, with the selection kept |
| Explorer.PrevThenNextReturns | app.py:370-417 | from a page after the first, Previous then Next returns to it, with the selection kept |
| Explorer.RerunStoresValidPage | app.py:278-279 | after a widget change the stored page is a page of the filtered table (1 when it has none), the selection is kept, and a second rerun on the same table changes nothing |
| Explorer.StaleResetIsKept | app.py:278-279 | once a filter change leaves fewer pages than the stored page, page 1 is saved: it is still shown when the result grows again, and Next then goes to page 2 |
| Explorer.ShownTargetIsPage | app.py:402-411 | a page button that is shown names a page of the table |
| Explorer.StepKeepsPageInRange | app.py:370-417 | after any click the page is one the filtered table has (1 when it has none) |
| Explorer.RowClickSelects | app.py:349-351 | clicking a visible dataset-id button selects that dataset |
| Explorer.Replay | app.py:274-417 | a run of reruns keeps the page at least 1 |
| Explorer.NavigationKeepsSelection | app.py:274-417 | Previous, Next and page clicks, and widget changes, never change the selection |
| Explorer.FindById | app.py:421 | the lookup returns the first row with the id, or reports that none has it |
| Explorer.Detail | app.py:420-423 | the detail row is in the full table, carries the selected id, and exists only for a non-empty selection |
| Explorer.DetailOfSelected | app.py:420-421 | a selected id that some table row carries always has a detail: the first row with that id |
| Explorer.SelectedRowFound | app.py:350-351 | a row picked from any filtered page, under either reading, is found in the full table after the click |
| Explorer.DetailSurvivesNavigation | app.py:370-423 | navigation never changes the detail shown |

## Left out

- Reading `data/datasets.csv`, and the fallback to an empty table on any exception (app.py:111-126), are file I/O. The model takes the table as a sequence of records.
- The Streamlit widgets, the layout, the CSS and HTML strings, `st.cache_data`, and `experimental_rerun` are left out. Session state is the `ViewState` value. Each rerun is one `Step`: a button click, or `Rerun` for a widget change that clicks no button. A change of filter or page size also changes the table the next `Step` receives.
- The Plotly charts (app.py:429-442) are foreign rendering calls. The per-task aggregate that feeds them is `Records.TaskCount`.
- The order of the task options follows `value_counts()`, which sorts by count. The model keeps only the labels and their decoding.
- `str.contains` uses regular expressions by default. The model tests for a literal substring.
- Case folding is ASCII only, with no Unicode case mapping.
- pandas float columns and NaN are modelled as `Option`. `int(year)` truncation is not modelled.
- `st.columns(min(7, total_pages))` with zero pages (app.py:377) is a framework call that raises. The model does not represent the exception. With zero pages the app draws neither the page buttons nor Next (`Pagination.PagerDrawn`, `PageWindow.Shown` is empty), nor the detail panel (app.py:420-423), nor the statistics tab (app.py:425-444). `Explorer.Detail` is computed regardless of the page count.
- The slider defaults `min_year` and `max_year` (app.py:151-153) are widget bounds. The year range is a parameter.
- Explorer.Detail: an id that no table row carries makes app.py raise an `IndexError` at `iloc[0]`. The model returns no detail instead.
- Explorer.Step: the selection is kept as an id only. Rows whose id is NaN are not modelled.

## Findings

| source | as written | input that shows it | evidently intended | confidence | as-written member | corrected member |
|---|---|---|---|---|---|---|
| app.py:168-170 | the selected tag is stripped but the row's comma-split pieces are not, so `" Image"` never equals `"Image"` | a row whose modalities are `"Text, Image"`; the sidebar offers `Image` because of that row, and choosing it drops the row | compare against the row's stripped tokens, the same ones the option list is built from (app.py:146) | high, not executed | Filter.PaddedRowDroppedAsWritten | Filter.OptionKeepsItsRows |
| app.py:137 | `split(' (')[0]` cuts the label at the first `" ("` | a task named `"QA (open)"` with 3 rows is offered as `"QA (open) (3)"` and decodes to `"QA"`, which no row has | cut at the last `" ("`, where the count begins | high, not executed | Filter.ParenthesisedTaskTruncatedAsWritten | Filter.SidebarCriteriaCorrected |

The program as written is `Filter.ApplyFilter` with the `AsWritten` reading and `Filter.SidebarCriteria`. The session lemmas in `Explorer` hold for any filtered table, so they cover both readings.
