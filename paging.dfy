/** The paging of the database viewer (`Database_window` in image_gui.py):
    the page index, the guards of `fill_rows` and the page label built by
    `refresh_page_text`.  The row count `db.count()` is a parameter; the
    Tk tree view and `db.get_rows` are not modelled. */
module Paging {
  import opened Python

  /** `fetch_amount` of db_helper.py: rows per page. */
  const FetchAmount: int := 1000

  /** The guard of `fill_rows`: a valid page of a non-empty table.
      (`page_index <= count / fetch_amount` in true division.) */
  predicate ShowsPage(pageIndex: int, count: int)
  {
    pageIndex >= 0 && pageIndex * FetchAmount <= count && count > 0
  }

  /** The move guard `A and B or C and D`, which Python reads as
      `(A and B) or (C and D)`. */
  predicate MayMove(pageIndex: int, direction: int, count: int)
  {
    var pageMax := pageIndex * FetchAmount + FetchAmount;
    (pageIndex + direction >= 0 && pageMax <= count) || (direction < 0 && pageMax >= count)
  }

  /** The page index after `fill_rows(direction)`. */
  function NextPageIndex(pageIndex: int, direction: int, count: int): (r: int)
    ensures r != pageIndex ==> ShowsPage(pageIndex, count) && MayMove(pageIndex, direction, count)
                               && pageIndex > 0 && r == pageIndex + direction
    ensures ShowsPage(pageIndex, count) && MayMove(pageIndex, direction, count) && pageIndex > 0
            ==> r == pageIndex + direction
  {
    if ShowsPage(pageIndex, count) && MayMove(pageIndex, direction, count) && pageIndex > 0
    then pageIndex + direction else pageIndex
  }

  /** The page index moves only when it is already positive, so from page
      0 it never moves. */
  lemma FirstPageStays(direction: int, count: int)
    ensures NextPageIndex(0, direction, count) == 0
  {
  }

  /** The page index after the button presses `directions`, with the row
      counts `counts` the table had at each press. */
  function PageAfter(pageIndex: int, directions: seq<int>, counts: seq<int>): int
    requires |directions| == |counts|
    decreases |directions|
  {
    if directions == [] then pageIndex
    else PageAfter(NextPageIndex(pageIndex, directions[0], counts[0]), directions[1..], counts[1..])
  }

  /** Whatever buttons are pressed and however the table grows, the viewer
      stays on page 0. */
  lemma {:induction false} AlwaysFirstPage(directions: seq<int>, counts: seq<int>)
    requires |directions| == |counts|
    ensures PageAfter(0, directions, counts) == 0
    decreases |directions|
  {
    if directions != [] {
      FirstPageStays(directions[0], counts[0]);
      AlwaysFirstPage(directions[1..], counts[1..]);
    }
  }

  /** The last row number on the label: the end of the page, cut at the
      row count. */
  function PageUpper(pageIndex: int, count: int): (upper: int)
    ensures upper <= count && upper <= pageIndex * FetchAmount + FetchAmount
    ensures upper == count || upper == pageIndex * FetchAmount + FetchAmount
  {
    var pageMin := pageIndex * FetchAmount;
    if pageMin + FetchAmount < count then pageMin + FetchAmount else count
  }

  /** The text `refresh_page_text` puts on the label. */
  function PageLabel(pageIndex: int, count: int): string
  {
    IntToString(pageIndex * FetchAmount) + "/" + IntToString(PageUpper(pageIndex, count)) + " of " + IntToString(count)
  }

  /** On a page the viewer shows, the label reads as three decimal numbers:
      the first row, the last row (never past the count) and the count. */
  lemma PageLabelReadsBack(pageIndex: int, count: int)
    requires ShowsPage(pageIndex, count)
    ensures exists lo, hi, total ::
              && PageLabel(pageIndex, count) == lo + "/" + hi + " of " + total
              && AllAsciiDigits(lo) && AllAsciiDigits(hi) && AllAsciiDigits(total)
              && DigitsValue(lo) == pageIndex * FetchAmount
              && DigitsValue(hi) == PageUpper(pageIndex, count) && DigitsValue(hi) <= DigitsValue(total)
              && DigitsValue(total) == count
  {
    var m := pageIndex * FetchAmount;
    var u := PageUpper(pageIndex, count);
    assert u >= 0;
    NatToStringValue(m);
    NatToStringValue(u);
    NatToStringValue(count);
    assert PageLabel(pageIndex, count) == NatToString(m) + "/" + NatToString(u) + " of " + NatToString(count);
  }

  /** `Database_window`: the page shown and the label under the table. */
  class DatabaseWindow {
    var pageIndex: int
    var pageText: string

    /** The viewer shows page 0. */
    ghost predicate Valid()
      reads this
    {
      pageIndex == 0
    }

    /** `__init__`: page 0, an empty label, then `fill_rows(0)`. */
    constructor (count: int)
      ensures Valid()
      ensures pageText == if ShowsPage(0, count) then PageLabel(0, count) else ""
    {
      pageIndex := 0;
      pageText := "";
      new;
      FillRows(0, count);
    }

    /** `fill_rows(direction)` with `db.count()` returning `count`. */
    method FillRows(direction: int, count: int)
      modifies this
      ensures pageIndex == NextPageIndex(old(pageIndex), direction, count)
      ensures ShowsPage(old(pageIndex), count) ==> pageText == PageLabel(pageIndex, count)
      ensures !ShowsPage(old(pageIndex), count) ==> pageText == old(pageText)
      ensures old(Valid()) ==> Valid()
    {
      if pageIndex >= 0 && pageIndex * FetchAmount <= count && count > 0 {
        var pageMax := (pageIndex * FetchAmount) + FetchAmount;
        if (pageIndex + direction >= 0 && pageMax <= count) || (direction < 0 && pageMax >= count) {
          if pageIndex > 0 {
            pageIndex := pageIndex + direction;
          }
        }
        RefreshPageText(count);
      }
    }

    /** `refresh_page_text(count)`. */
    method RefreshPageText(count: int)
      modifies this
      ensures pageIndex == old(pageIndex)
      ensures pageText == PageLabel(pageIndex, count)
    {
      var tempStr := "";
      var pageMin := pageIndex * FetchAmount;
      if pageMin + FetchAmount < count {
        tempStr := IntToString(pageMin) + "/" + IntToString(pageMin + FetchAmount) + " of " + IntToString(count);
      } else {
        tempStr := IntToString(pageMin) + "/" + IntToString(count) + " of " + IntToString(count);
      }
      pageText := tempStr;
    }
  }

  /** A viewer opened on a table and paged through any number of times
      stays on page 0. */
  method Browse(count0: int, directions: seq<int>, counts: seq<int>) returns (w: DatabaseWindow)
    requires |directions| == |counts|
    ensures w.pageIndex == PageAfter(0, directions, counts) == 0
  {
    w := new DatabaseWindow(count0);
    AlwaysFirstPage(directions, counts);
    for i := 0 to |directions|
      invariant w.Valid()
    {
      w.FillRows(directions[i], counts[i]);
    }
  }
}
