/** Pagination of the filtered table: the page count, the reset of a page that no
    longer exists, the slice of rows a page shows, and when the Previous, Next and
    page-number buttons are enabled. */
module Pagination {
  import opened Numbers

  /** The "Entries per page" choices; the second one is preselected. */
  const PageSizeOptions: seq<nat> := [10, 20, 50, 100]
  const DefaultPageSize: nat := 20

  predicate IsPageSize(size: nat) {
    size in PageSizeOptions
  }

  lemma DefaultIsSecondOption()
    ensures IsPageSize(DefaultPageSize) && PageSizeOptions[1] == DefaultPageSize
    ensures forall size :: IsPageSize(size) ==> size > 0
  {
  }

  /** `math.ceil(n / size)`: the fewest pages of `size` rows that hold `n` rows, which
      is no page at all for an empty table. */
  function TotalPages(n: nat, size: nat): (t: nat)
    requires size > 0
    ensures t * size >= n
    ensures t == 0 || (t - 1) * size < n
  {
    var q := (n + size - 1) / size;
    var m := (n + size - 1) % size;
    assert q * size + m == n + size - 1;
    assert q * size >= n;
    q
  }

  /** The page count is the least one that holds every row. */
  lemma TotalPagesIsLeast(n: nat, size: nat, t: nat)
    requires size > 0 && t * size >= n
    ensures TotalPages(n, size) <= t
  {
    var tp := TotalPages(n, size);
    if tp > t {
      assert (tp - 1) * size >= t * size by {
        MulMono(t, tp - 1, size);
      }
      assert false;
    }
  }

  lemma MulMono(a: nat, b: nat, k: nat)
    requires a <= b
    ensures a * k <= b * k
  {
  }

  lemma NoRowsNoPages(size: nat)
    requires size > 0
    ensures TotalPages(0, size) == 0
    ensures forall n: nat :: n > 0 ==> TotalPages(n, size) >= 1
  {
  }

  /** The page kept in session state, checked against the current page count: a page
      beyond the last one falls back to the first, any other is kept. A page that is
      at least 1 is, once validated, a page of the table, or the first page when the
      table has no page at all. */
  function ValidatePage(page: int, total: nat): (p: int)
    ensures page <= total ==> p == page
    ensures page > total ==> p == 1
    ensures page >= 1 ==> 1 <= p <= Max(1, total)
    ensures page >= 1 && total == 0 ==> p == 1
  {
    if page > total then 1 else page
  }

  /** Validating twice is validating once. */
  lemma ValidateIdempotent(page: int, total: nat)
    requires page >= 1
    ensures ValidatePage(ValidatePage(page, total), total) == ValidatePage(page, total)
  {
  }

  /** First row index of a page. */
  function PageStart(page: int, size: nat): int {
    (page - 1) * size
  }

  /** `iloc[start:start + size]` for page `page`: the rows from `(page - 1) * size`
      on, at most `size` of them, clipped to the table. */
  function PageRows<T>(rows: seq<T>, page: int, size: nat): (r: seq<T>)
    requires page >= 1
    ensures |r| <= size
    ensures forall k :: 0 <= k < |r| ==>
      0 <= PageStart(page, size) + k < |rows| && r[k] == rows[PageStart(page, size) + k]
    ensures PageStart(page, size) + size <= |rows| ==> |r| == size
    ensures PageStart(page, size) < |rows| ==> |r| > 0 || size == 0
  {
    var start := PageStart(page, size);
    assert start >= 0 by {
      MulMono(0, page - 1, size);
    }
    if start >= |rows| then [] else rows[start..Min(start + size, |rows|)]
  }

  /** The rows of a page are exactly the table rows whose index falls in
      `[(page - 1) * size, page * size)`. */
  lemma PageHoldsItsIndexRange<T>(rows: seq<T>, page: int, size: nat, i: int)
    requires page >= 1
    requires PageStart(page, size) <= i < PageStart(page, size) + size && 0 <= i < |rows|
    ensures i - PageStart(page, size) < |PageRows(rows, page, size)|
    ensures PageRows(rows, page, size)[i - PageStart(page, size)] == rows[i]
  {
  }

  lemma MulSucc(a: int, k: int)
    ensures (a + 1) * k == a * k + k
  {
  }

  /** Index `i` lies on page `i / size + 1`, at position `i % size`. */
  lemma IndexPage(size: nat, i: nat)
    requires size > 0
    ensures PageStart(i / size + 1, size) + i % size == i
    ensures 0 <= i % size < size
  {
    assert (i / size) * size + i % size == i;
  }

  /** No other page's index range holds `i`. */
  lemma IndexPageUnique(size: nat, i: nat, q: int)
    requires size > 0 && q >= 1
    requires PageStart(q, size) <= i < PageStart(q, size) + size
    ensures q == i / size + 1
  {
    var p := i / size + 1;
    IndexPage(size, i);
    MulSucc(q - 1, size);
    MulSucc(p - 1, size);
    if q < p {
      MulMono(q, p - 1, size);
    } else if q > p {
      MulMono(p, q - 1, size);
    }
  }

  /** Every row of the table is on exactly one page: page `i / size + 1`, at
      position `i % size`, and that page is one the table has. */
  lemma EveryRowOnOnePage<T>(rows: seq<T>, size: nat, i: int)
    requires size > 0 && 0 <= i < |rows|
    ensures var p := i / size + 1;
      && 1 <= p <= TotalPages(|rows|, size)
      && i % size < |PageRows(rows, p, size)|
      && PageRows(rows, p, size)[i % size] == rows[i]
    ensures forall q :: q >= 1 && PageStart(q, size) <= i < PageStart(q, size) + size ==> q == i / size + 1
  {
    var p := i / size + 1;
    IndexPage(size, i);
    var t := TotalPages(|rows|, size);
    if p > t {
      MulMono(t, p - 1, size);
    }
    PageHoldsItsIndexRange(rows, p, size, i);
    forall q | q >= 1 && PageStart(q, size) <= i < PageStart(q, size) + size
      ensures q == p
    {
      IndexPageUnique(size, i, q);
    }
  }

  /** The count the header shows, `min(page_size, len(page_data))`, is the number of
      rows on the page. */
  function ShownCount(size: nat, pageLength: nat): (n: nat)
    ensures n <= size && n <= pageLength
    ensures n == size || n == pageLength
  {
    Min(size, pageLength)
  }

  lemma ShownCountIsPageLength<T>(rows: seq<T>, page: int, size: nat)
    requires page >= 1
    ensures ShownCount(size, |PageRows(rows, page, size)|) == |PageRows(rows, page, size)|
  {
  }

  /** 45 rows at 20 per page: three pages, and the third shows rows 40 to 44. */
  lemma ThirdPageOfFortyFive<T>(rows: seq<T>)
    requires |rows| == 45
    ensures TotalPages(45, 20) == 3
    ensures PageRows(rows, 3, 20) == rows[40..45]
  {
    assert PageStart(3, 20) == 40;
  }

  /** An empty result has no page; the page resets to 1 and shows no row. */
  lemma EmptyTablePaging<T>(rows: seq<T>, page: int, size: nat)
    requires |rows| == 0 && page >= 1 && size > 0
    ensures TotalPages(|rows|, size) == 0
    ensures ValidatePage(page, TotalPages(|rows|, size)) == 1
    ensures PageRows(rows, ValidatePage(page, 0), size) == []
  {
  }

  // ---------------------------------------------------------------------------
  // the navigation buttons

  /** "← Previous" is disabled on page 1. */
  predicate PrevEnabled(page: int) {
    page != 1
  }

  /** "Next →" as app.py enables it: on every page but the one equal to the page
      count. */
  predicate NextEnabledAsWritten(page: int, total: nat) {
    page != total
  }

  /** Whether the page-number row, "Next →" and everything after them get drawn:
      `st.columns(min(7, total_pages))` raises for a result with no page, so only a
      non-empty result reaches them. */
  predicate PagerDrawn(total: nat) {
    total > 0
  }

  /** A page-number button is disabled for the page already shown. */
  predicate GotoEnabled(target: int, page: int) {
    target != page
  }

  /** Wherever "Next →" is drawn on a validated page, app.py's condition
      enables it exactly when a next page exists. */
  lemma NextConditionsAgreeOnPages(page: int, total: nat)
    requires 1 <= page <= total
    ensures NextEnabledAsWritten(page, total) <==> page < total
  {
  }

  /** From a validated page, an enabled Previous, or a Next that is drawn and
      enabled, lands on a page of the table again. */
  lemma NavigationStaysInRange(page: int, total: nat)
    requires 1 <= page <= Max(1, total)
    ensures PrevEnabled(page) ==> 1 <= page - 1 <= Max(1, total)
    ensures PagerDrawn(total) && NextEnabledAsWritten(page, total) ==> 1 <= page + 1 <= Max(1, total)
  {
  }
}
