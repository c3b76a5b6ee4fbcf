/** Pagination of the civic-issue tracker's home listing (script.js): the
    page count, the visible slice and the page-button layout. */
module CivicPages {

  const ITEMS_PER_PAGE: nat := 6

  /** `Math.ceil(totalItems / itemsPerPage)`. */
  function PageCount(totalItems: nat): (r: nat)
    ensures r * ITEMS_PER_PAGE >= totalItems
    ensures r > 0 ==> (r - 1) * ITEMS_PER_PAGE < totalItems
  {
    if totalItems % ITEMS_PER_PAGE == 0 then totalItems / ITEMS_PER_PAGE
    else totalItems / ITEMS_PER_PAGE + 1
  }

  /** The index `Array.prototype.slice` uses for an argument `k`. */
  function SliceIndex(k: int, len: nat): (r: nat)
    ensures r <= len
  {
    if k < 0 then (if len + k < 0 then 0 else len + k) else if k < len then k else len
  }

  /** `s.slice(start, end)`. */
  function JsSlice<T>(s: seq<T>, start: int, end: int): seq<T> {
    var a, b := SliceIndex(start, |s|), SliceIndex(end, |s|);
    if a < b then s[a..b] else []
  }

  /** The slice `renderHomeIssues` shows on page `page`. */
  function VisiblePage<T>(filtered: seq<T>, page: int): seq<T> {
    var startIndex := (page - 1) * ITEMS_PER_PAGE;
    JsSlice(filtered, startIndex, startIndex + ITEMS_PER_PAGE)
  }

  function Min(a: int, b: int): int { if a < b then a else b }

  /** A visible page is a contiguous run of at most six filtered items; from
      page 1 on it is the run that starts at (page - 1) * 6. */
  lemma VisiblePageSpec<T>(filtered: seq<T>, page: int)
    ensures |VisiblePage(filtered, page)| <= ITEMS_PER_PAGE
    ensures exists a, b :: 0 <= a <= b <= |filtered| && VisiblePage(filtered, page) == filtered[a..b]
    ensures page >= 1 ==>
      VisiblePage(filtered, page) ==
        filtered[Min((page - 1) * ITEMS_PER_PAGE, |filtered|)..Min(page * ITEMS_PER_PAGE, |filtered|)]
  {
    var startIndex := (page - 1) * ITEMS_PER_PAGE;
    var a, b := SliceIndex(startIndex, |filtered|), SliceIndex(startIndex + ITEMS_PER_PAGE, |filtered|);
    if a < b {
      assert filtered[a..b] == VisiblePage(filtered, page);
    } else {
      assert filtered[a..a] == VisiblePage(filtered, page);
    }
  }

  /** Every page from 1 to the page count shows something. */
  lemma InRangePageNotEmpty<T>(filtered: seq<T>, page: int)
    requires 1 <= page <= PageCount(|filtered|)
    ensures |VisiblePage(filtered, page)| > 0
  {
    VisiblePageSpec(filtered, page);
  }

  /** The pages `from`, `from + 1`, ..., `last` shown one after another. */
  function PagesFrom<T>(filtered: seq<T>, from: int, last: int): seq<T>
    decreases last - from
  {
    if from > last then [] else VisiblePage(filtered, from) + PagesFrom(filtered, from + 1, last)
  }

  /** Reading the pages from `from` to the last one gives the filtered items
      from the start of page `from` on: no item is skipped or repeated. */
  lemma {:induction false} PagesFromCover<T>(filtered: seq<T>, from: int)
    requires 1 <= from
    ensures PagesFrom(filtered, from, PageCount(|filtered|)) ==
            filtered[Min((from - 1) * ITEMS_PER_PAGE, |filtered|)..]
    decreases PageCount(|filtered|) - from
  {
    var last := PageCount(|filtered|);
    VisiblePageSpec(filtered, from);
    if from <= last {
      PagesFromCover(filtered, from + 1);
      var a := Min((from - 1) * ITEMS_PER_PAGE, |filtered|);
      var b := Min(from * ITEMS_PER_PAGE, |filtered|);
      assert filtered[a..b] + filtered[b..] == filtered[a..];
    }
  }

  /** All pages together are exactly the filtered list. */
  lemma PagesPartition<T>(filtered: seq<T>)
    ensures PagesFrom(filtered, 1, PageCount(|filtered|)) == filtered
  {
    PagesFromCover(filtered, 1);
  }

  /** The controls emitted by `renderPagination`, in document order. */
  datatype PageToken =
    | Prev(target: int, disabled: bool)
    | PageButton(page: int, active: bool)
    | Ellipsis
    | Next(target: int, disabled: bool)

  /** Page `i` gets a button: the first, the last, and the neighbours of the
      current page. */
  predicate Shown(i: int, current: int, total: int) {
    i == 1 || i == total || (i >= current - 1 && i <= current + 1)
  }

  /** What the loop body emits for page `i`. */
  function Slot(i: int, current: int, total: int): seq<PageToken> {
    if Shown(i, current, total) then [PageButton(i, i == current)]
    else if i == current - 2 || i == current + 2 then [Ellipsis]
    else []
  }

  /** The `for (let i = from; i <= totalPages; i++)` loop of `renderPagination`. */
  function ButtonsFrom(from: int, current: int, total: int): seq<PageToken>
    decreases total - from
  {
    if from > total then [] else Slot(from, current, total) + ButtonsFrom(from + 1, current, total)
  }

  /** `renderPagination(_, totalItems)` with `totalPages` already computed. */
  function Pagination(current: int, total: int): seq<PageToken> {
    if total <= 1 then []
    else [Prev(current - 1, current == 1)] + ButtonsFrom(1, current, total) +
         [Next(current + 1, current == total)]
  }

  /** Ellipsis position `i` belongs to a hidden page two away from the current one. */
  predicate EllipsisAt(i: int, current: int, total: int) {
    1 <= i <= total && !Shown(i, current, total) && (i == current - 2 || i == current + 2)
  }

  /** The pages with a button are exactly the shown ones, and only the
      current page's button is active. */
  lemma {:induction false} ButtonsFromPages(from: int, current: int, total: int)
    ensures forall i, a :: PageButton(i, a) in ButtonsFrom(from, current, total) <==>
      from <= i <= total && Shown(i, current, total) && a == (i == current)
    decreases total - from
  {
    if from <= total {
      ButtonsFromPages(from + 1, current, total);
    }
  }

  /** An ellipsis is emitted only for a hidden page two away from the
      current one, and for each such page. */
  lemma {:induction false} ButtonsFromEllipses(from: int, current: int, total: int)
    requires from >= 1
    ensures Ellipsis in ButtonsFrom(from, current, total) <==>
      exists i :: from <= i && EllipsisAt(i, current, total)
    decreases total - from
  {
    if from <= total {
      ButtonsFromEllipses(from + 1, current, total);
      if Ellipsis in Slot(from, current, total) {
        assert EllipsisAt(from, current, total);
      }
      if EllipsisAt(from, current, total) {
        assert Ellipsis in Slot(from, current, total);
      }
    }
  }

  /** The buttons appear in increasing page order, all from `from` on. */
  predicate PagesIncreasing(ts: seq<PageToken>, from: int) {
    forall j, k :: 0 <= j < k < |ts| && ts[j].PageButton? && ts[k].PageButton? ==>
      from <= ts[j].page < ts[k].page
  }

  lemma {:induction false} ButtonsFromOrdered(from: int, current: int, total: int)
    ensures PagesIncreasing(ButtonsFrom(from, current, total), from)
    ensures forall k :: 0 <= k < |ButtonsFrom(from, current, total)| &&
                        ButtonsFrom(from, current, total)[k].PageButton? ==>
                          from <= ButtonsFrom(from, current, total)[k].page
    decreases total - from
  {
    if from <= total {
      ButtonsFromOrdered(from + 1, current, total);
    }
  }

  /** `renderPagination`'s layout: nothing for a single page; otherwise a
      previous control disabled exactly on page 1, the shown page buttons in
      order with the current one active, ellipses only for hidden pages
      two away from the current one, and a next control disabled exactly on
      the last page. */
  lemma PaginationLayout(current: int, total: int)
    ensures total <= 1 ==> Pagination(current, total) == []
    ensures total > 1 ==>
      var ts := Pagination(current, total);
      |ts| >= 2 &&
      ts[0] == Prev(current - 1, current == 1) &&
      ts[|ts| - 1] == Next(current + 1, current == total) &&
      (forall i, a :: PageButton(i, a) in ts <==>
        1 <= i <= total && Shown(i, current, total) && a == (i == current)) &&
      (Ellipsis in ts <==> EllipsisAt(current - 2, current, total) || EllipsisAt(current + 2, current, total)) &&
      PagesIncreasing(ts, 1)
  {
    if total > 1 {
      var body := ButtonsFrom(1, current, total);
      var ts := Pagination(current, total);
      ButtonsFromPages(1, current, total);
      ButtonsFromEllipses(1, current, total);
      ButtonsFromOrdered(1, current, total);
      assert ts == [Prev(current - 1, current == 1)] + body + [Next(current + 1, current == total)];
      assert forall k :: 0 < k < |ts| - 1 ==> ts[k] == body[k - 1];
      assert forall t :: t in ts && t.PageButton? ==> t in body;
    }
  }

  /** The loop body's output for pages `a` to `b` of a strip of `total` pages. */
  function Slots(a: int, b: int, current: int, total: int): seq<PageToken>
    decreases b - a
  {
    if a > b then [] else Slot(a, current, total) + Slots(a + 1, b, current, total)
  }

  lemma {:induction false} ButtonsFromIsSlots(from: int, current: int, total: int)
    ensures ButtonsFrom(from, current, total) == Slots(from, total, current, total)
    decreases total - from
  {
    if from <= total {
      ButtonsFromIsSlots(from + 1, current, total);
    }
  }

  /** The loop over `a..b` is the loop over `a..m` followed by `m+1..b`. */
  lemma {:induction false} SlotsSplit(a: int, m: int, b: int, current: int, total: int)
    requires a <= m + 1 <= b + 1
    ensures Slots(a, b, current, total) == Slots(a, m, current, total) + Slots(m + 1, b, current, total)
    decreases m - a
  {
    if a <= m {
      SlotsSplit(a + 1, m, b, current, total);
      assert Slots(a, b, current, total) ==
             Slot(a, current, total) + (Slots(a + 1, m, current, total) + Slots(m + 1, b, current, total));
    }
  }

  /** `renderPagination(_, totalItems)`, with the strip built by its `for`
      loop one page at a time; the controls come out as `Pagination` gives
      them. */
  method RenderPagination(current: int, totalItems: nat) returns (ts: seq<PageToken>)
    ensures ts == Pagination(current, PageCount(totalItems))
  {
    var totalPages := PageCount(totalItems);
    if totalPages <= 1 {
      return [];
    }
    ts := [Prev(current - 1, current == 1)];
    var i := 1;
    while i <= totalPages
      invariant 1 <= i <= totalPages + 1
      invariant ts == [Prev(current - 1, current == 1)] + Slots(1, i - 1, current, totalPages)
    {
      SlotsSplit(1, i - 1, i, current, totalPages);
      assert Slots(i, i, current, totalPages) == Slot(i, current, totalPages);
      ts := ts + Slot(i, current, totalPages);
      i := i + 1;
    }
    ts := ts + [Next(current + 1, current == totalPages)];
    ButtonsFromIsSlots(1, current, totalPages);
  }

  /** Pages that are neither shown nor two away from the current one emit nothing. */
  lemma {:induction false} SlotsSilent(a: int, b: int, current: int, total: int)
    requires forall i :: a <= i <= b ==> Slot(i, current, total) == []
    ensures Slots(a, b, current, total) == []
    decreases b - a
  {
    if a <= b {
      SlotsSilent(a + 1, b, current, total);
    }
  }

  /** Page buttons `a` to `b`, the current one active. */
  function Run(a: int, b: int, current: int): (r: seq<PageToken>)
    ensures |r| == if a <= b then b - a + 1 else 0
  {
    seq(if a <= b then b - a + 1 else 0, k => PageButton(a + k, a + k == current))
  }

  /** A range of shown pages emits their buttons. */
  lemma {:induction false} SlotsShown(a: int, b: int, current: int, total: int)
    requires forall i :: a <= i <= b ==> Shown(i, current, total)
    ensures Slots(a, b, current, total) == Run(a, b, current)
    decreases b - a
  {
    if a <= b {
      SlotsShown(a + 1, b, current, total);
      assert Run(a, b, current) == [PageButton(a, a == current)] + Run(a + 1, b, current);
    }
  }

  /** The first and last page of the run around the current page. */
  function Lo(current: int): int { if current - 1 > 2 then current - 1 else 2 }
  function Hi(current: int, total: int): int { if current + 1 < total - 1 then current + 1 else total - 1 }

  /** The strip between the arrows, stated outright: page 1, an ellipsis
      when pages 2 to current-2 are hidden, the run current-1..current+1
      clipped to 2..total-1, an ellipsis when pages current+2 to total-1 are
      hidden, and the last page. */
  function Strip(current: int, total: int): seq<PageToken> {
    [PageButton(1, current == 1)] + (if current >= 4 then [Ellipsis] else []) +
    Run(Lo(current), Hi(current, total), current) + (if current + 2 < total then [Ellipsis] else []) +
    [PageButton(total, current == total)]
  }

  /** Pages 2 to Lo-1 collapse into one ellipsis, or are none. */
  lemma LeftGap(current: int, total: int)
    requires 1 <= current <= total
    ensures Slots(2, Lo(current) - 1, current, total) == if current >= 4 then [Ellipsis] else []
  {
    if current >= 4 {
      SlotsSplit(2, current - 3, current - 2, current, total);
      forall i | 2 <= i <= current - 3 ensures Slot(i, current, total) == [] { }
      SlotsSilent(2, current - 3, current, total);
      assert Slots(current - 2, current - 2, current, total) == [Ellipsis];
    }
  }

  /** Pages Hi+1 to total-1 collapse into one ellipsis, or are none. */
  lemma RightGap(current: int, total: int)
    requires 1 <= current <= total
    ensures Slots(Hi(current, total) + 1, total - 1, current, total) ==
            if current + 2 < total then [Ellipsis] else []
  {
    if current + 2 < total {
      SlotsSplit(current + 2, current + 2, total - 1, current, total);
      forall i | current + 3 <= i <= total - 1 ensures Slot(i, current, total) == [] { }
      SlotsSilent(current + 3, total - 1, current, total);
      assert Slots(current + 2, current + 2, current, total) == [Ellipsis];
    }
  }

  /** One shown page emits its button. */
  lemma SlotsOneShown(i: int, current: int, total: int)
    requires Shown(i, current, total)
    ensures Slots(i, i, current, total) == [PageButton(i, i == current)]
  {
    assert Slots(i + 1, i, current, total) == [];
  }

  /** For a current page in range, the loop emits exactly `Strip`. */
  lemma ButtonsFromStrip(current: int, total: int)
    requires 1 <= current <= total && total >= 2
    ensures ButtonsFrom(1, current, total) == Strip(current, total)
  {
    var lo, hi := Lo(current), Hi(current, total);
    ButtonsFromIsSlots(1, current, total);
    var first := Slots(1, 1, current, total);
    var left := Slots(2, lo - 1, current, total);
    var run := Slots(lo, hi, current, total);
    var right := Slots(hi + 1, total - 1, current, total);
    var last := Slots(total, total, current, total);
    SlotsSplit(1, 1, total, current, total);
    SlotsSplit(2, lo - 1, total, current, total);
    SlotsSplit(lo, hi, total, current, total);
    SlotsSplit(hi + 1, total - 1, total, current, total);
    assert Slots(1, total, current, total) == first + (left + (run + (right + last)));
    SlotsOneShown(1, current, total);
    SlotsOneShown(total, current, total);
    SlotsShown(lo, hi, current, total);
    LeftGap(current, total);
    RightGap(current, total);
    Reassociate(first, left, run, right, last);
  }

  lemma Reassociate<T>(a: seq<T>, b: seq<T>, c: seq<T>, d: seq<T>, e: seq<T>)
    ensures a + (b + (c + (d + e))) == a + b + c + d + e
  {
  }

  /** The number of ellipses left and right of the run: 0 or 1. */
  function LeftGaps(current: int): nat { if current >= 4 then 1 else 0 }
  function RightGaps(current: int, total: int): nat { if current + 2 < total then 1 else 0 }

  /** Token `k` of `Strip`, position by position. */
  function StripToken(current: int, total: int, k: int): PageToken {
    var e1, r := LeftGaps(current), |Run(Lo(current), Hi(current, total), current)|;
    if k == 0 then PageButton(1, current == 1)
    else if k < 1 + e1 then Ellipsis
    else if k < 1 + e1 + r then
      PageButton(Lo(current) + k - 1 - e1, Lo(current) + k - 1 - e1 == current)
    else if k < 1 + e1 + r + RightGaps(current, total) then Ellipsis
    else PageButton(total, current == total)
  }

  lemma StripAt(current: int, total: int, k: int)
    requires 1 <= current <= total && total >= 2
    requires 0 <= k < |Strip(current, total)|
    ensures |Strip(current, total)| ==
            3 + LeftGaps(current) + RightGaps(current, total) + Hi(current, total) - Lo(current)
    ensures Strip(current, total)[k] == StripToken(current, total, k)
  {
  }

  /** `Strip` starts with page 1, ends with the last page and holds only page
      buttons and ellipses. */
  lemma StripEnds(current: int, total: int)
    requires 1 <= current <= total && total >= 2
    ensures var m := Strip(current, total);
      |m| >= 2 && m[0] == PageButton(1, current == 1) && m[|m| - 1] == PageButton(total, current == total) &&
      (forall k :: 0 <= k < |m| ==> m[k].PageButton? || m[k].Ellipsis?)
  {
    var m := Strip(current, total);
    StripAt(current, total, 0);
    StripAt(current, total, |m| - 1);
    forall k | 0 <= k < |m| ensures m[k].PageButton? || m[k].Ellipsis? {
      StripAt(current, total, k);
    }
  }

  /** Neighbouring buttons in `Strip` are for consecutive pages. */
  lemma StripConsecutive(current: int, total: int)
    requires 1 <= current <= total && total >= 2
    ensures var m := Strip(current, total);
      forall k :: 0 <= k < |m| - 1 && m[k].PageButton? && m[k + 1].PageButton? ==>
        m[k + 1].page == m[k].page + 1
  {
    var m := Strip(current, total);
    forall k | 0 <= k < |m| - 1 && m[k].PageButton? && m[k + 1].PageButton?
      ensures m[k + 1].page == m[k].page + 1
    {
      StripAt(current, total, k);
      StripAt(current, total, k + 1);
    }
  }

  /** An ellipsis in `Strip` sits between two buttons whose pages are not
      consecutive. */
  lemma StripEllipses(current: int, total: int)
    requires 1 <= current <= total && total >= 2
    ensures var m := Strip(current, total);
      forall k :: 0 <= k < |m| && m[k].Ellipsis? ==>
        0 < k < |m| - 1 && m[k - 1].PageButton? && m[k + 1].PageButton? &&
        m[k + 1].page > m[k - 1].page + 1
  {
    var m := Strip(current, total);
    forall k | 0 <= k < |m| && m[k].Ellipsis?
      ensures 0 < k < |m| - 1 && m[k - 1].PageButton? && m[k + 1].PageButton? &&
              m[k + 1].page > m[k - 1].page + 1
    {
      StripAt(current, total, k);
      StripAt(current, total, k - 1);
      StripAt(current, total, k + 1);
    }
  }

  /** The position in `Strip` that accounts for page `p`: its own button, or
      the ellipsis whose neighbours enclose it. */
  lemma StripWitness(current: int, total: int, p: int) returns (k: int)
    requires 1 <= current <= total && total >= 2 && 1 <= p <= total
    ensures var m := Strip(current, total);
      0 <= k < |m| &&
      ((m[k].PageButton? && m[k].page == p) ||
       (0 < k < |m| - 1 && m[k].Ellipsis? && m[k - 1].PageButton? && m[k + 1].PageButton? &&
        m[k - 1].page < p < m[k + 1].page))
  {
    var m := Strip(current, total);
    var e1, r := LeftGaps(current), Hi(current, total) - Lo(current) + 1;
    StripAt(current, total, 0);
    if p == 1 {
      k := 0;
    } else if p == total {
      k := |m| - 1;
    } else if p < Lo(current) {
      k := 1;
      StripAt(current, total, 2);
    } else if p <= Hi(current, total) {
      k := 1 + e1 + p - Lo(current);
    } else {
      k := 1 + e1 + r;
      StripAt(current, total, k - 1);
      StripAt(current, total, k + 1);
    }
    StripAt(current, total, k);
  }

  /** For a current page in range and more than one page, the bar is the
      "previous" arrow, `Strip`, and the "next" arrow. */
  lemma PaginationCollapsed(current: int, total: int)
    requires 1 <= current <= total && total >= 2
    ensures var ts := Pagination(current, total);
      ts == [Prev(current - 1, current == 1)] + Strip(current, total) + [Next(current + 1, current == total)] &&
      |ts| == |Strip(current, total)| + 2 &&
      forall i :: 0 <= i < |Strip(current, total)| ==> ts[i + 1] == Strip(current, total)[i]
  {
    ButtonsFromStrip(current, total);
  }

  /** Between the arrows lie only page buttons and ellipses, from page 1 to
      page `total`, and neighbouring buttons are for consecutive pages. */
  lemma PaginationInterior(current: int, total: int)
    requires 1 <= current <= total && total >= 2
    ensures var ts := Pagination(current, total);
      |ts| >= 4 && ts[1] == PageButton(1, current == 1) &&
      ts[|ts| - 2] == PageButton(total, current == total) &&
      (forall k :: 0 < k < |ts| - 1 ==> ts[k].PageButton? || ts[k].Ellipsis?) &&
      (forall k :: 0 < k < |ts| - 2 && ts[k].PageButton? && ts[k + 1].PageButton? ==>
         ts[k + 1].page == ts[k].page + 1)
  {
    PaginationCollapsed(current, total);
    StripEnds(current, total);
    StripConsecutive(current, total);
    var ts := Pagination(current, total);
    forall k | 0 < k < |ts| - 2 && ts[k].PageButton? && ts[k + 1].PageButton?
      ensures ts[k + 1].page == ts[k].page + 1
    {
      assert ts[k] == Strip(current, total)[k - 1];
      assert ts[k + 1] == Strip(current, total)[k];
    }
  }

  /** Each ellipsis stands for a run of hidden pages: it sits between two page
      buttons (never next to an arrow or another ellipsis) whose pages are not
      consecutive. */
  lemma PaginationEllipses(current: int, total: int)
    requires 1 <= current <= total && total >= 2
    ensures var ts := Pagination(current, total);
      forall k :: 0 < k < |ts| - 1 && ts[k].Ellipsis? ==>
        1 < k < |ts| - 2 && ts[k - 1].PageButton? && ts[k + 1].PageButton? &&
        ts[k + 1].page > ts[k - 1].page + 1
  {
    PaginationCollapsed(current, total);
    StripEllipses(current, total);
    var m := Strip(current, total);
    var ts := Pagination(current, total);
    forall k | 0 < k < |ts| - 1 && ts[k].Ellipsis?
      ensures 1 < k < |ts| - 2 && ts[k - 1].PageButton? && ts[k + 1].PageButton? &&
              ts[k + 1].page > ts[k - 1].page + 1
    {
      assert ts[k] == m[k - 1];
      assert ts[k - 1] == m[k - 2];
      assert ts[k + 1] == m[k];
    }
  }

  /** Every page is reachable from the bar: it has its own button between the
      arrows, or it lies strictly between the buttons around an ellipsis. */
  lemma PaginationCovers(current: int, total: int, p: int)
    requires 1 <= current <= total && total >= 2 && 1 <= p <= total
    ensures var ts := Pagination(current, total);
      exists k :: 0 < k < |ts| - 1 &&
        ((ts[k].PageButton? && ts[k].page == p) ||
         (ts[k].Ellipsis? && ts[k - 1].PageButton? && ts[k + 1].PageButton? &&
          ts[k - 1].page < p < ts[k + 1].page))
  {
    PaginationCollapsed(current, total);
    var m := Strip(current, total);
    var ts := Pagination(current, total);
    var j := StripWitness(current, total, p);
    assert ts[j + 1] == m[j];
    if 0 < j < |m| - 1 {
      assert ts[j] == m[j - 1];
      assert ts[j + 2] == m[j + 1];
    }
  }
}
