/** The summary view's paging: a fixed page size of ten, pages numbered from one. */
module Pagination {
  import Sequences
  import opened Records

  const PageSize: nat := 10

  /** `Math.ceil(n / PageSize)`: the fewest pages that hold `n` expenses. */
  function PageCount(n: nat): (r: nat)
    ensures r * PageSize >= n
    ensures r > 0 ==> (r - 1) * PageSize < n
  {
    (n + PageSize - 1) / PageSize
  }

  /** The page-number buttons are drawn only when there is more than one page,
      that is, when there are more expenses than fit on one page. */
  function ShowsPageButtons(n: nat): (shown: bool)
    ensures shown <==> n > PageSize
  {
    PageCount(n) > 1
  }

  /** `expenses.slice(startIndex, endIndex)` with `startIndex = (page - 1) * 10`
      and `endIndex = startIndex + 10`. For a page number from one up it is the
      window of at most ten expenses that starts at `(page - 1) * 10`. */
  function Page(expenses: seq<Expense>, page: int): (r: seq<Expense>)
    ensures page >= 1 ==> r == expenses[Sequences.Min((page - 1) * PageSize, |expenses|)..Sequences.Min(page * PageSize, |expenses|)]
  {
    var startIndex := (page - 1) * PageSize;
    Sequences.Slice(expenses, startIndex, startIndex + PageSize)
  }

  /** Pages `1..count` laid end to end. */
  function Pages(expenses: seq<Expense>, count: nat): seq<Expense> {
    if count == 0 then [] else Pages(expenses, count - 1) + Page(expenses, count)
  }

  /** The first `count` pages are the first `count * 10` expenses. */
  lemma {:induction false} PagesArePrefix(expenses: seq<Expense>, count: nat)
    ensures Pages(expenses, count) == expenses[..Sequences.Min(count * PageSize, |expenses|)]
  {
    if count > 0 {
      PagesArePrefix(expenses, count - 1);
      var a, b := Sequences.Min((count - 1) * PageSize, |expenses|), Sequences.Min(count * PageSize, |expenses|);
      assert expenses[..a] + expenses[a..b] == expenses[..b];
    }
  }

  /** Pages `1..PageCount(n)` reassemble the whole collection, in order. */
  lemma PagesReassemble(expenses: seq<Expense>)
    ensures Pages(expenses, PageCount(|expenses|)) == expenses
  {
    PagesArePrefix(expenses, PageCount(|expenses|));
  }

  /** Every page in `1..PageCount(n)` shows something; all but the last are full. */
  lemma PagesInRange(expenses: seq<Expense>, page: int)
    requires 1 <= page <= PageCount(|expenses|)
    ensures Page(expenses, page) != []
    ensures page < PageCount(|expenses|) ==> |Page(expenses, page)| == PageSize
  {
  }

  /** A page number past the last page shows nothing. */
  lemma PageAfterLastIsEmpty(expenses: seq<Expense>, page: int)
    requires page > PageCount(|expenses|)
    ensures Page(expenses, page) == []
  {
  }

  /** Page zero is `slice(-10, 0)`, which is empty whatever the collection. */
  lemma PageZeroIsEmpty(expenses: seq<Expense>)
    ensures Page(expenses, 0) == []
  {
  }

  /** A negative page number is not empty in general: `slice` counts negative
      positions back from the end, so page -1 of fifteen expenses is `slice(-20, -10)`,
      the first five. */
  lemma NegativePageCountsFromEnd(expenses: seq<Expense>)
    requires |expenses| == 15
    ensures Page(expenses, -1) == expenses[..5]
  {
  }
}
