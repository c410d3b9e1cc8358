/** The pager's page-number strip: at most seven entries, page numbers and "..."
    markers, built around the current page. */
module PageWindow {
  import opened Numbers

  /** One entry of the strip: a page-number button or the "..." marker. */
  datatype PagerItem = Number(page: int) | Ellipsis

  /** The number of columns the strip is given. */
  const MaxEntries: nat := 7

  /** `list(range(lo, hi + 1))` as page-number entries. */
  function Range(lo: int, hi: int): (r: seq<PagerItem>)
    ensures |r| == if lo <= hi then hi - lo + 1 else 0
    ensures forall k :: 0 <= k < |r| ==> r[k] == Number(lo + k)
    decreases hi - lo
  {
    if lo > hi then [] else [Number(lo)] + Range(lo + 1, hi)
  }

  /** `displayed_pages` for `total` pages and current page `current`: empty without
      pages, otherwise a strip that opens with page 1 and closes with the last page. */
  function Window(total: nat, current: int): (r: seq<PagerItem>)
    ensures total == 0 <==> r == []
    ensures total > 0 ==> r[0] == Number(1) && r[|r| - 1] == Number(total)
  {
    if total <= MaxEntries then Range(1, total)
    else
      var startPage := Max(2, current - 1);
      var endPage := Min(total - 1, current + 1);
      [Number(1)]
      + (if current > 3 then [Ellipsis] else [])
      + Range(startPage, endPage)
      + (if current < total - 2 then [Ellipsis] else [])
      + (if total > 1 then [Number(total)] else [])
  }

  /** The entries that get a column: `st.columns(min(7, total_pages))` columns, the
      i-th filled with the i-th entry while there is one. */
  function Shown(total: nat, current: int): (r: seq<PagerItem>)
    ensures |r| <= Min(MaxEntries, total)
    ensures r <= Window(total, current)
  {
    var w := Window(total, current);
    w[..Min(Min(MaxEntries, total), |w|)]
  }

  // ---------------------------------------------------------------------------
  // properties of a strip

  /** Page numbers strictly increase from left to right. */
  predicate Ascending(w: seq<PagerItem>) {
    forall i, j :: 0 <= i < j < |w| && w[i].Number? && w[j].Number? ==> w[i].page < w[j].page
  }

  /** Every page number lies in `[lo, hi]`. */
  predicate NumbersWithin(w: seq<PagerItem>, lo: int, hi: int) {
    forall i :: 0 <= i < |w| && w[i].Number? ==> lo <= w[i].page <= hi
  }

  /** Two neighbouring page numbers are consecutive pages: nothing is skipped
      without a marker. */
  predicate NoSilentSkip(w: seq<PagerItem>) {
    forall i :: 0 <= i < |w| - 1 && w[i].Number? && w[i + 1].Number? ==> w[i + 1].page == w[i].page + 1
  }

  /** Every marker sits between two page numbers with at least one page between
      them, and the strip begins and ends with a page number. */
  predicate MarkersMarkSkips(w: seq<PagerItem>) {
    && (|w| > 0 ==> w[0].Number? && w[|w| - 1].Number?)
    && forall i :: 0 < i < |w| - 1 && w[i].Ellipsis? ==>
         w[i - 1].Number? && w[i + 1].Number? && w[i + 1].page > w[i - 1].page + 1
  }

  predicate HasPage(w: seq<PagerItem>, p: int) {
    Number(p) in w
  }

  // ---------------------------------------------------------------------------
  // the small case

  /** Up to seven pages the strip is every page, in order. */
  lemma SmallWindowIsEveryPage(total: nat, current: int)
    requires total <= MaxEntries
    ensures |Window(total, current)| == total
    ensures forall k :: 0 <= k < total ==> Window(total, current)[k] == Number(k + 1)
  {
  }

  lemma RangeProperties(lo: int, hi: int)
    ensures Ascending(Range(lo, hi))
    ensures NumbersWithin(Range(lo, hi), lo, hi)
    ensures NoSilentSkip(Range(lo, hi))
    ensures forall k :: 0 <= k < |Range(lo, hi)| ==> Range(lo, hi)[k].Number?
    ensures forall p :: lo <= p <= hi ==> HasPage(Range(lo, hi), p)
  {
    var r := Range(lo, hi);
    forall p | lo <= p <= hi
      ensures HasPage(r, p)
    {
      assert r[p - lo] == Number(p);
    }
  }

  // ---------------------------------------------------------------------------
  // the large case, through the framed strip
  //   [1] + ("..." if s > 2) + [s..e] + ("..." if e < total - 1) + [total]

  function Framed(total: int, s: int, e: int): seq<PagerItem> {
    [Number(1)]
    + (if s > 2 then [Ellipsis] else [])
    + Range(s, e)
    + (if e < total - 1 then [Ellipsis] else [])
    + [Number(total)]
  }

  /** The middle run of a large strip, with its bounds. */
  lemma LargeWindowIsFramed(total: nat, current: int)
    requires total > MaxEntries && 1 <= current <= total
    ensures var s, e := Max(2, current - 1), Min(total - 1, current + 1);
      && 2 <= s <= current + 1 && current <= e + 1 && s <= e <= total - 1
      && e - s <= 2
      && (current > 3 <==> s > 2)
      && (current < total - 2 <==> e < total - 1)
      && Window(total, current) == Framed(total, s, e)
  {
  }

  /** Length of a framed strip. */
  lemma FramedLength(total: int, s: int, e: int)
    requires 2 <= s <= e <= total - 1
    ensures |Framed(total, s, e)| ==
      2 + (e - s + 1) + (if s > 2 then 1 else 0) + (if e < total - 1 then 1 else 0)
  {
  }

  /** Positions in a framed strip: the first entry, the middle run, the last
      entry, and the markers. */
  lemma FramedAt(total: int, s: int, e: int)
    requires 2 <= s <= e <= total - 1
    ensures var w, m := Framed(total, s, e), if s > 2 then 1 else 0;
      && |w| == 2 + (e - s + 1) + m + (if e < total - 1 then 1 else 0)
      && w[0] == Number(1)
      && w[|w| - 1] == Number(total)
      && (s > 2 ==> w[1] == Ellipsis)
      && (e < total - 1 ==> w[|w| - 2] == Ellipsis)
      && (forall i :: 1 + m <= i <= 1 + m + e - s ==> w[i] == Number(s + i - 1 - m))
  {
    var w, m := Framed(total, s, e), if s > 2 then 1 else 0;
    var left := [Number(1)] + (if s > 2 then [Ellipsis] else []);
    var mid := Range(s, e);
    var right := (if e < total - 1 then [Ellipsis] else []) + [Number(total)];
    assert w == left + mid + right;
    assert |left| == 1 + m;
    forall i | 1 + m <= i <= 1 + m + e - s
      ensures w[i] == Number(s + i - 1 - m)
    {
      assert w[i] == mid[i - 1 - m];
    }
  }

  /** Every entry of a framed strip is the first page, a marker, a page of the
      middle run, or the last page, at the position `FramedAt` gives. */
  lemma FramedEntries(total: int, s: int, e: int, i: int)
    requires 2 <= s <= e <= total - 1
    requires 0 <= i < |Framed(total, s, e)|
    ensures var w, m := Framed(total, s, e), if s > 2 then 1 else 0;
      || (i == 0 && w[i] == Number(1))
      || (i == 1 && s > 2 && w[i] == Ellipsis)
      || (1 + m <= i <= 1 + m + e - s && w[i] == Number(s + i - 1 - m))
      || (i == |w| - 2 && e < total - 1 && w[i] == Ellipsis && i == 1 + m + e - s + 1)
      || (i == |w| - 1 && w[i] == Number(total) && i == 1 + m + e - s + 1 + (if e < total - 1 then 1 else 0))
  {
    FramedAt(total, s, e);
  }

  lemma FramedAscending(total: int, s: int, e: int)
    requires 2 <= s <= e <= total - 1
    ensures Ascending(Framed(total, s, e))
    ensures NumbersWithin(Framed(total, s, e), 1, total)
  {
    var w := Framed(total, s, e);
    forall i | 0 <= i < |w| && w[i].Number?
      ensures 1 <= w[i].page <= total
    {
      FramedEntries(total, s, e, i);
    }
    forall i, j | 0 <= i < j < |w| && w[i].Number? && w[j].Number?
      ensures w[i].page < w[j].page
    {
      FramedEntries(total, s, e, i);
      FramedEntries(total, s, e, j);
    }
  }

  lemma FramedNoSilentSkip(total: int, s: int, e: int)
    requires 2 <= s <= e <= total - 1
    ensures NoSilentSkip(Framed(total, s, e))
  {
    var w := Framed(total, s, e);
    forall i | 0 <= i < |w| - 1 && w[i].Number? && w[i + 1].Number?
      ensures w[i + 1].page == w[i].page + 1
    {
      FramedEntries(total, s, e, i);
      FramedEntries(total, s, e, i + 1);
    }
  }

  lemma FramedMarkersMarkSkips(total: int, s: int, e: int)
    requires 2 <= s <= e <= total - 1
    ensures MarkersMarkSkips(Framed(total, s, e))
  {
    var w := Framed(total, s, e);
    FramedAt(total, s, e);
    forall i | 0 < i < |w| - 1 && w[i].Ellipsis?
      ensures w[i - 1].Number? && w[i + 1].Number? && w[i + 1].page > w[i - 1].page + 1
    {
      FramedEntries(total, s, e, i - 1);
      FramedEntries(total, s, e, i);
      FramedEntries(total, s, e, i + 1);
    }
  }

  // ---------------------------------------------------------------------------
  // the properties of the strip

  /** Beyond seven pages the strip starts with page 1 and ends with the last page. */
  lemma LargeWindowEnds(total: nat, current: int)
    requires total > MaxEntries && 1 <= current <= total
    ensures var w := Window(total, current);
      |w| > 0 && w[0] == Number(1) && w[|w| - 1] == Number(total)
  {
    LargeWindowIsFramed(total, current);
    FramedAt(total, Max(2, current - 1), Min(total - 1, current + 1));
  }

  /** Page numbers strictly increase and are pages of the table. */
  lemma WindowAscendingWithin(total: nat, current: int)
    requires total <= MaxEntries || 1 <= current <= total
    ensures Ascending(Window(total, current))
    ensures NumbersWithin(Window(total, current), 1, total)
  {
    if total <= MaxEntries {
      RangeProperties(1, total);
    } else {
      LargeWindowIsFramed(total, current);
      FramedAscending(total, Max(2, current - 1), Min(total - 1, current + 1));
    }
  }

  /** The current page is always on the strip. */
  lemma WindowHasCurrent(total: nat, current: int)
    requires 1 <= current <= total
    ensures HasPage(Window(total, current), current)
  {
    if total <= MaxEntries {
      RangeProperties(1, total);
    } else {
      LargeWindowIsFramed(total, current);
      var s, e := Max(2, current - 1), Min(total - 1, current + 1);
      var w := Window(total, current);
      FramedAt(total, s, e);
      if current == 1 {
        assert w[0] == Number(current);
      } else if current == total {
        assert w[|w| - 1] == Number(current);
      } else {
        var m := if s > 2 then 1 else 0;
        assert w[1 + m + (current - s)] == Number(current);
      }
    }
  }

  /** The strip never needs more than the `min(7, total_pages)` columns it gets, so
      every entry is shown. */
  lemma WindowFitsColumns(total: nat, current: int)
    requires total <= MaxEntries || 1 <= current <= total
    ensures |Window(total, current)| <= Min(MaxEntries, total)
    ensures Shown(total, current) == Window(total, current)
  {
    if total > MaxEntries {
      LargeWindowIsFramed(total, current);
      FramedLength(total, Max(2, current - 1), Min(total - 1, current + 1));
    }
  }

  /** A "..." appears exactly where at least one page number is skipped. */
  lemma WindowMarksSkips(total: nat, current: int)
    requires total <= MaxEntries || 1 <= current <= total
    ensures NoSilentSkip(Window(total, current))
    ensures MarkersMarkSkips(Window(total, current))
  {
    if total <= MaxEntries {
      RangeProperties(1, total);
    } else {
      LargeWindowIsFramed(total, current);
      FramedNoSilentSkip(total, Max(2, current - 1), Min(total - 1, current + 1));
      FramedMarkersMarkSkips(total, Max(2, current - 1), Min(total - 1, current + 1));
    }
  }
}
