# Expense tracker ledger, modelled in Dafny

The expense tracker is a browser page that keeps a personal ledger of expenses in
the browser's local storage. The ledger is one ordered collection of records
`{id, date, amount, description}`, newest first. The page builds views over that
collection in several ways:

- it adds an expense from a form;
- it pages through the collection ten at a time;
- it searches it by a keyword;
- it lists one day's expenses so that some can be ticked and deleted;
- it selects a date range for copying.

This project models the collection logic of `script.js`, without the DOM code around it:

- `text.dfy` (module `Text`): the string built-ins the code calls. These are
  `trim` (with JavaScript's full set of space characters), `toUpperCase` and
  `toLowerCase` (ASCII only), `includes`, and the `<=` comparison on strings.
- `sequences.dfy` (module `Sequences`): the array built-ins. These are `filter`
  by value, `slice` (negative positions included) and `filter` by position. The
  module also defines what "an order-preserving subsequence" and "the surviving
  positions" mean.
- `records.dfy` (module `Records`): the `Expense` record and the normalisation of
  its description.
- `pagination.dfy` (module `Pagination`): the summary view's page slice, the page
  count and when the page buttons appear.
- `queries.dfy` (module `Queries`): keyword search, the exact-date filter of the
  delete view, the date range of the copy view, and the bulk delete. It also holds
  the finding below, with its counterexample and the corrected delete.
- `store.dfy` (module `Store`): the storage slot, the fail-open load, and the class
  `ExpenseStore`. The class's `slot` field stands for the local-storage entry. Its
  `Save`, `Add` and `DeleteSelected` methods read and write the whole collection,
  as `saveExpenses`, `addExpense` and `deleteSelectedExpenses` do. A ghost
  counter `writes` records how many times the collection is written.

Every query in `script.js` first loads the collection itself. In the model, the
queries are functions of the loaded collection (`ExpenseStore.Expenses()`).

Four behaviours of the code are easy to misread, and the model follows the code in each:

- One might expect page numbers below one to give an empty page. The code passes
  `(page - 1) * 10` to `slice`, and `slice` counts negative positions from the end.
  Page 0 is empty, but page -1 of fifteen expenses holds the first five
  (`Pagination.NegativePageCountsFromEnd`). The page buttons only offer pages 1 to
  the page count, so this case cannot be reached from the page.
- One might expect a failed write to be reported as a failure. `addExpense` shows
  an alert when the write fails, but still reports success. `ExpenseStore.Add`
  returns `Added` in both cases, and the slot keeps its old content.
- The checkbox values are positions in the date-filtered view, but the code applies
  them to the full collection; see Findings.
- The form check only rejects empty strings. A description made only of spaces
  passes the check and is stored as the empty string
  (`Records.BlankDescriptionStoredEmpty`).

## Model

| member | source | states |
|---|---|---|
| `Store.Load` | script.js:34-42 | Loading is fail-open. A missing or unparsable slot gives the empty collection, and a parsed slot gives exactly its collection. |
| `Store.ExpenseStore.Save` | script.js:44-51 | The collection is written exactly once. After a write that storage accepts, loading gives back exactly the written collection. After a refused write the slot is unchanged. |
| `Store.ExpenseStore.Add` | script.js:53-73 | A form with an empty date, amount or description is rejected, and the slot and the write count are unchanged. Otherwise the new record has the given id, the date as typed, the parsed amount and the normalised description. The record is prepended to the loaded collection, the old collection follows unchanged, and the collection is written exactly once. |
| `Store.ExpenseStore.DeleteSelected` | script.js:214-222 | The collection is written exactly once. When the write is accepted, the slot holds the loaded collection with the chosen positions of the full collection dropped. When the write is refused, the slot is unchanged. |
| `Records.NormalizeDescription` | script.js:68 | The stored description has no space at either end and no lower-case letter. It equals the input trimmed and then upper-cased, so the order of the two steps does not matter. |
| `Records.NormalizeIdempotent` | script.js:68 | Normalising a stored description again changes nothing. |
| `Records.BlankDescriptionStoredEmpty` | script.js:58-68 | A description of spaces only passes the non-empty check and is stored as the empty string. |
| `Records.LunchNormalized` | script.js:64-69 | The description " lunch " is stored as "LUNCH". |
| `Text.TrimStart` | script.js:68 | The leading run of space characters is removed, and nothing else. What remains is a suffix of the input that does not start with a space. |
| `Text.TrimEnd` | script.js:68 | The trailing run of space characters is removed, and nothing else. What remains is a prefix of the input that does not end with a space. |
| `Text.Trim` | script.js:140 | The result is the contiguous part of the input between its leading and trailing runs of spaces. Neither end of the result is a space. |
| `Text.TrimIdempotent` | script.js:140 | Trimming twice is the same as trimming once. |
| `Text.TrimOfBlank` | script.js:140 | A string of spaces only trims to the empty string. |
| `Text.TrimOfUpper` | script.js:68 | Upper-casing and trimming commute. |
| `Text.TrimOfLower` | script.js:140 | Lower-casing and trimming commute. |
| `Text.ToUpper` | script.js:68 | Upper-casing keeps the length. Each lower-case ASCII letter becomes its capital, every other character is kept, and no lower-case letter is left. |
| `Text.ToLower` | script.js:140 | Lower-casing keeps the length. Each ASCII capital becomes its lower-case letter, every other character is kept, and no capital is left. |
| `Text.Contains` | script.js:144-145 | `includes` finds the empty needle in every string, and finds a needle only in a haystack at least as long. |
| `Text.ContainsIffOccurs` | script.js:144-145 | `includes` holds exactly when the needle occurs at some index of the haystack. |
| `Text.LexLessEq` | script.js:236 | String `<=`: a prefix of a string is `<=` that string. |
| `Text.LexIffFirstDifference` | script.js:236 | `a <= b` holds exactly when `a` is a prefix of `b`, or when `a` has the smaller character at the first index where the two differ. |
| `Text.LexTransitive` | script.js:236 | String `<=` is transitive. |
| `Text.LexAntisymmetric` | script.js:236 | Two strings that are each `<=` the other are equal. |
| `Text.LexTotal` | script.js:236 | Any two strings are comparable by `<=`. |
| `Text.LexNotLessEq` | script.js:236 | `a > b` holds exactly when `a <= b` fails, so "not in range" and "the wrong way round" mean the same thing. |
| `Text.LexCommonPrefix` | script.js:236 | A shared prefix does not change how two strings compare, so dates of one month compare by their day. |
| `Sequences.Filter` | script.js:143 | `filter` keeps only elements that pass the test, and every element that passes is kept. |
| `Sequences.FilterExact` | script.js:143-146 | `filter` returns an order-preserving subsequence. Each element that passes the test occurs as often as in the input, and no other element occurs. |
| `Sequences.FilterAppend` | script.js:182-184 | Filtering distributes over concatenation. |
| `Sequences.SliceIndex` | script.js:101 | A non-negative `slice` bound is capped at the length. A negative bound counts back from the end and stops at 0. |
| `Sequences.Slice` | script.js:101 | For bounds `0 <= start <= end`, `slice` is the window between the two bounds, each capped at the length. For any bounds, the result is the run that starts where `start` reaches and is as long as the distance from there to where `end` reaches, or empty. |
| `Sequences.Survivors` | script.js:220 | The surviving positions are exactly the in-range positions that were not chosen, in increasing order. |
| `Sequences.SurvivorCount` | script.js:220 | The number of survivors is the length minus the number of chosen positions that lie in range. |
| `Sequences.DropPositions` | script.js:220 | Filtering by position keeps one element per surviving position: the k-th element left is the element at the k-th surviving position. |
| `Sequences.DropAgree` | script.js:220 | The delete depends only on which in-range positions are chosen. |
| `Pagination.PageCount` | script.js:131 | The page count is `ceil(n / 10)`: the fewest pages of ten that hold n expenses. |
| `Pagination.ShowsPageButtons` | script.js:132-136 | The page buttons appear exactly when there are more than ten expenses. |
| `Pagination.Page` | script.js:98-101 | For page p ≥ 1, the page is `expenses[min((p-1)*10, n) .. min(p*10, n)]`. |
| `Pagination.PagesArePrefix` | script.js:98-101 | Pages 1 to k, laid end to end, are the first `min(10k, n)` expenses. |
| `Pagination.PagesReassemble` | script.js:131 | Pages 1 to `ceil(n/10)`, laid end to end, are the collection itself, in order. |
| `Pagination.PagesInRange` | script.js:131-136 | Every page that has a button is non-empty, and every page before the last holds exactly ten expenses. |
| `Pagination.PageAfterLastIsEmpty` | script.js:98-101 | A page number past `ceil(n/10)` gives an empty page. |
| `Pagination.PageZeroIsEmpty` | script.js:96-101 | Page 0 is `slice(-10, 0)`, which is empty. |
| `Pagination.NegativePageCountsFromEnd` | script.js:99-101 | With fifteen expenses, page -1 gives the first five. |
| `Queries.Search` | script.js:139-146 | Search returns an order-preserving subsequence. It holds each expense whose lower-cased date or description contains the trimmed, lower-cased input, as often as in the collection, and no other expense. |
| `Queries.SearchBlankKeepsAll` | script.js:140-146 | An empty or all-space search input returns the whole collection unchanged. |
| `Queries.SearchIgnoresCase` | script.js:140-146 | Two inputs that differ only in letter case give the same result. |
| `Queries.SearchUpperCaseInput` | script.js:140-146 | Typing the search in capitals finds the same expenses. |
| `Queries.DateFilter` | script.js:182-184 | The date filter returns an order-preserving subsequence. It holds each expense whose date text equals the argument, as often as in the collection, and no other expense. |
| `Queries.RangeFilter` | script.js:235-237 | The range filter returns an order-preserving subsequence. It holds each expense with `fromDate <= date <= toDate` in string order, as often as in the collection, and no other expense. |
| `Queries.RangeEmptyWhenInverted` | script.js:235-237 | When `fromDate > toDate` the result is empty, whatever the collection. |
| `Queries.RangeOfOneDay` | script.js:235-237 | A range from a date to the same date equals the exact-date filter for that date. |
| `Queries.JanuaryRange` | script.js:235-237 | With dates 2024-01-01, 2024-01-15 and 2024-02-01, the range 2024-01-01 to 2024-01-31 keeps exactly the first two, in order. |
| `Queries.DeleteSelected` | script.js:218-220 | The delete drops the chosen positions of the full collection, and out-of-range positions are ignored. The length becomes n minus the number of chosen in-range positions. Each survivor is the expense at the next unchosen position, so survivors keep their order. |
| `Queries.DeleteIgnoresOutOfRange` | script.js:218-220 | Chosen positions outside the collection change nothing. |
| `Queries.DeleteNothing` | script.js:218-220 | Deleting with nothing ticked leaves the collection unchanged. |
| `Queries.DeleteSelectedMissesView` | script.js:199-220 | Counterexample. The collection holds a newer expense of another date in front. Ticking the only expense in the date view deletes the unshown expense and keeps the ticked one. |
| `Queries.ViewPositionsAreTicked` | script.js:199-201 | A collection position belongs to a ticked box exactly when its expense has the searched date and the number of expenses of that date before it, its position in the view, is ticked. |
| `Queries.DeleteFromView` | script.js:199-201 | Corrected delete. It drops exactly the collection positions of the ticked view entries and keeps the rest in collection order. In the date view, exactly the ticked view positions are removed. Expenses of all other dates are kept, in order. |
| `Queries.DeleteSelectedRightOnOneDate` | script.js:199-220 | When every expense has the searched date, the view is the whole collection, and the delete as written removes exactly the ticked expenses. |

## Left out

- The DOM work is not modelled. This covers `navigateTo`, `clearMessages`, the table markup, reading and clearing the form fields, and the text of the messages. None of it changes the collection.
- `showMessage`'s three-second auto-clear is not modelled. It runs on a timer and only affects the display.
- `copyTableToClipboard` is not modelled. It reads table cells from the DOM and writes through the asynchronous clipboard API. The model stops at the range filter that decides which rows are shown.
- `JSON.parse`, `JSON.stringify` and `localStorage` are not modelled; they are foreign calls. The slot is the datatype `Stored`. A value that parses to something other than an array is not represented; falsy values such as `null` load as empty, like a missing slot.
- A write refused by storage (the quota alert) is the parameter `fits` of `Save`. The model only says that the slot is not updated.
- `Date.now()` is the `id` parameter of `Add`. Ids are therefore not proved unique.
- `parseFloat` is the caller-supplied function `parse`. `NaN`, floating-point rounding and the `toFixed(2)` display are not modelled.
- Upper- and lower-casing map only ASCII letters. `trim` uses JavaScript's full set of space characters.
- String `<=` compares characters as Unicode scalar values. JavaScript compares UTF-16 code units, so the two orders differ only for characters outside the Basic Multilingual Plane.
- `parseInt` of the checkbox values is not modelled; the chosen positions are given directly as a `set<int>`. The "n expense(s) deleted" message counts ticked boxes and is not modelled.
- Two tabs writing the same slot concurrently are not modelled. The page runs single-threaded and the model is sequential.

## Findings

| source | as written | input that shows it | evidently intended | confidence | as-written member | corrected member |
|---|---|---|---|---|---|---|
| script.js:199-220 | A checkbox value is the expense's position in the date view. `deleteSelectedExpenses` removes that position of the full collection. | Collection `[X dated 2024-01-05, Y dated 2024-01-02]` and delete date 2024-01-02. The view is `[Y]`. Ticking box 0 (Y) deletes X and keeps Y. | Remove the ticked expenses of the view and keep all others. | high; not executed | `Queries.DeleteSelectedMissesView` | `Queries.DeleteFromView` |

`ExpenseStore.DeleteSelected` keeps the code's behaviour, because the store models
the page as it is. `Queries.DeleteFromView` is the corrected operation, and its
properties are proved. `Queries.DeleteSelectedMissesView` proves, on the same
input, that the two deletes disagree.
