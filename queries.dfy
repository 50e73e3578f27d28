/** The read-only views over the loaded collection (keyword search, the delete
    view's exact-date filter, the copy view's date range) and the bulk delete. */
module Queries {
  import Text
  import Sequences
  import opened Records

  /** The search box's text as it is matched: `value.trim().toLowerCase()`. */
  function SearchTerm(input: string): string {
    Text.ToLower(Text.Trim(input))
  }

  /** The test `searchExpenses` applies to each expense. */
  predicate MatchesTerm(e: Expense, term: string) {
    || Text.Contains(Text.ToLower(e.date), term)
    || Text.Contains(Text.ToLower(e.description), term)
  }

  function Matching(term: string): Expense -> bool {
    (e: Expense) => MatchesTerm(e, term)
  }

  /** `searchExpenses`: the expenses whose lower-cased date or description contains
      the search term, each as often as in the collection, in collection order. */
  function Search(expenses: seq<Expense>, input: string): (r: seq<Expense>)
    ensures Sequences.IsSubsequence(r, expenses)
    ensures forall e :: multiset(r)[e] == if MatchesTerm(e, SearchTerm(input)) then multiset(expenses)[e] else 0
  {
    Sequences.FilterExact(expenses, Matching(SearchTerm(input)));
    Sequences.Filter(expenses, Matching(SearchTerm(input)))
  }

  /** An empty or all-space search box matches every expense. */
  lemma SearchBlankKeepsAll(expenses: seq<Expense>, input: string)
    requires forall k :: 0 <= k < |input| ==> Text.IsSpace(input[k])
    ensures Search(expenses, input) == expenses
  {
    Text.TrimOfBlank(input);
    forall e | e in expenses
      ensures Matching(SearchTerm(input))(e)
    {
      assert Text.Contains(Text.ToLower(e.date), []);
    }
    Sequences.FilterKeepsAll(expenses, Matching(SearchTerm(input)));
  }

  /** Two search inputs that differ only in letter case give the same result. */
  lemma SearchIgnoresCase(expenses: seq<Expense>, a: string, b: string)
    requires Text.ToLower(a) == Text.ToLower(b)
    ensures Search(expenses, a) == Search(expenses, b)
  {
    Text.TrimOfLower(a);
    Text.TrimOfLower(b);
  }

  /** Typing the search in capitals finds the same expenses. */
  lemma SearchUpperCaseInput(expenses: seq<Expense>, input: string)
    ensures Search(expenses, Text.ToUpper(input)) == Search(expenses, input)
  {
    Text.LowerOfUpper(input);
    SearchIgnoresCase(expenses, Text.ToUpper(input), input);
  }

  function OnDate(date: string): Expense -> bool {
    (e: Expense) => e.date == date
  }

  /** `searchExpensesToDelete`: the expenses whose date text equals `date`, each as
      often as in the collection, in collection order. */
  function DateFilter(expenses: seq<Expense>, date: string): (r: seq<Expense>)
    ensures Sequences.IsSubsequence(r, expenses)
    ensures forall e :: multiset(r)[e] == if e.date == date then multiset(expenses)[e] else 0
  {
    Sequences.FilterExact(expenses, OnDate(date));
    Sequences.Filter(expenses, OnDate(date))
  }

  function OffDate(date: string): Expense -> bool {
    (e: Expense) => e.date != date
  }

  function Within(fromDate: string, toDate: string): Expense -> bool {
    (e: Expense) => Text.LexLessEq(fromDate, e.date) && Text.LexLessEq(e.date, toDate)
  }

  /** `filterAndPrepareForCopy`: the expenses with `fromDate <= date <= toDate` in
      string order, each as often as in the collection, in collection order. */
  function RangeFilter(expenses: seq<Expense>, fromDate: string, toDate: string): (r: seq<Expense>)
    ensures Sequences.IsSubsequence(r, expenses)
    ensures forall e :: multiset(r)[e] ==
              if Text.LexLessEq(fromDate, e.date) && Text.LexLessEq(e.date, toDate) then multiset(expenses)[e] else 0
  {
    Sequences.FilterExact(expenses, Within(fromDate, toDate));
    Sequences.Filter(expenses, Within(fromDate, toDate))
  }

  /** With the bounds the wrong way round (`fromDate > toDate`) no expense is in
      range, and these are the only bounds that leave out every possible date. */
  lemma RangeEmptyWhenInverted(expenses: seq<Expense>, fromDate: string, toDate: string)
    requires Text.LexLessEq(toDate, fromDate) && toDate != fromDate
    ensures RangeFilter(expenses, fromDate, toDate) == []
  {
    Text.LexNotLessEq(fromDate, toDate);
    forall e | e in expenses
      ensures !Within(fromDate, toDate)(e)
    {
      if Text.LexLessEq(fromDate, e.date) && Text.LexLessEq(e.date, toDate) {
        Text.LexTransitive(fromDate, e.date, toDate);
      }
    }
    Sequences.FilterKeepsNone(expenses, Within(fromDate, toDate));
  }

  /** A range from a date to itself is the exact-date filter. */
  lemma RangeOfOneDay(expenses: seq<Expense>, date: string)
    ensures RangeFilter(expenses, date, date) == DateFilter(expenses, date)
  {
    forall e | e in expenses
      ensures Within(date, date)(e) == OnDate(date)(e)
    {
      if Text.LexLessEq(date, e.date) && Text.LexLessEq(e.date, date) {
        Text.LexAntisymmetric(date, e.date);
      }
      if e.date == date {
        Text.LexReflexive(date);
      }
    }
    Sequences.FilterAgree(expenses, Within(date, date), OnDate(date));
  }

  /** How the three sample dates compare with the bounds `2024-01-01` and
      `2024-01-31`: within a month the day decides, across months the month. */
  lemma JanuaryFirstInRange()
    ensures Text.LexLessEq("2024-01-01", "2024-01-01") && Text.LexLessEq("2024-01-01", "2024-01-31")
  {
    Text.LexReflexive("2024-01-01");
    Text.LexCommonPrefix("2024-01-", "01", "31");
    assert "2024-01-01" == "2024-01-" + "01" && "2024-01-31" == "2024-01-" + "31";
  }

  lemma JanuaryFifteenthInRange()
    ensures Text.LexLessEq("2024-01-01", "2024-01-15") && Text.LexLessEq("2024-01-15", "2024-01-31")
  {
    Text.LexCommonPrefix("2024-01-", "01", "15");
    Text.LexCommonPrefix("2024-01-", "15", "31");
    assert "2024-01-01" == "2024-01-" + "01" && "2024-01-15" == "2024-01-" + "15";
    assert "2024-01-31" == "2024-01-" + "31";
  }

  lemma FebruaryFirstOutOfRange()
    ensures !Text.LexLessEq("2024-02-01", "2024-01-31")
  {
    Text.LexCommonPrefix("2024-0", "2-01", "1-31");
    assert "2024-02-01" == "2024-0" + "2-01" && "2024-01-31" == "2024-0" + "1-31";
  }

  /** January of three dates keeps the first two, in order. */
  lemma JanuaryRange(a: Expense, b: Expense, c: Expense)
    requires a.date == "2024-01-01" && b.date == "2024-01-15" && c.date == "2024-02-01"
    ensures RangeFilter([a, b, c], "2024-01-01", "2024-01-31") == [a, b]
  {
    var inJanuary := Within("2024-01-01", "2024-01-31");
    JanuaryFirstInRange();
    JanuaryFifteenthInRange();
    FebruaryFirstOutOfRange();
    assert inJanuary(a) && inJanuary(b) && !inJanuary(c);
    KeepFirstTwo(a, b, c, inJanuary);
  }

  lemma KeepFirstTwo(a: Expense, b: Expense, c: Expense, keep: Expense -> bool)
    requires keep(a) && keep(b) && !keep(c)
    ensures Sequences.Filter([a, b, c], keep) == [a, b]
  {
    var s := [a, b, c];
    assert s[1..] == [b, c] && [b, c][1..] == [c] && [c][1..] == [];
    assert Sequences.Filter([c], keep) == [];
    assert Sequences.Filter([b, c], keep) == [b];
  }

  /** `deleteSelectedExpenses`: drops the expenses at the chosen positions of the
      full collection. What is left keeps its order: the k-th survivor is the
      expense at the k-th position not chosen. Positions outside the collection
      change nothing, so the length falls by the number of chosen positions inside it. */
  function DeleteSelected(expenses: seq<Expense>, indices: set<int>): (r: seq<Expense>)
    ensures |r| == |expenses| - |Sequences.InRange(indices, |expenses|)|
    ensures |r| == |Sequences.Survivors(|expenses|, indices)|
    ensures forall k :: 0 <= k < |r| ==> r[k] == expenses[Sequences.Survivors(|expenses|, indices)[k]]
  {
    Sequences.SurvivorCount(|expenses|, indices);
    Sequences.DropPositions(expenses, indices)
  }

  /** Out-of-range positions are ignored. */
  lemma DeleteIgnoresOutOfRange(expenses: seq<Expense>, indices: set<int>)
    ensures DeleteSelected(expenses, indices) == DeleteSelected(expenses, Sequences.InRange(indices, |expenses|))
  {
    Sequences.DropAgree(expenses, indices, Sequences.InRange(indices, |expenses|));
  }

  /** Deleting with no box ticked leaves the collection as it was. */
  lemma DeleteNothing(expenses: seq<Expense>)
    ensures DeleteSelected(expenses, {}) == expenses
  {
    Sequences.DropNothing(expenses);
  }

  /** The checkbox values are positions in the exact-date view, but the delete
      applies them to the full collection. With a newer expense of another date in
      front, ticking the only expense shown deletes the one not shown and keeps the
      ticked one; the view-based delete removes the ticked one. */
  lemma DeleteSelectedMissesView(shown: Expense, hidden: Expense)
    requires shown.date == "2024-01-02" && hidden.date == "2024-01-05"
    ensures DateFilter([hidden, shown], "2024-01-02") == [shown]
    ensures DeleteSelected([hidden, shown], {0}) == [shown]
    ensures DeleteFromView([hidden, shown], "2024-01-02", {0}) == [hidden]
  {
    var expenses := [hidden, shown];
    assert expenses[..1] == [hidden] && [hidden][..0] == [] && expenses[1..] == [shown];
    assert Sequences.DropPositions([hidden], {0}) == [];
    assert Sequences.Filter([hidden], OnDate("2024-01-02")) == [];
    assert Sequences.Filter([shown], OnDate("2024-01-02")) == [shown];
    assert DeleteFromView([hidden], "2024-01-02", {0}) == [hidden];
  }

  /** One step of `DeleteFromView`, seen through the exact-date view. */
  lemma {:induction false} ViewStepOnDate(init: seq<Expense>, last: Expense, kept: seq<Expense>, date: string, indices: set<int>)
    requires Sequences.Filter(kept, OnDate(date)) == Sequences.DropPositions(Sequences.Filter(init, OnDate(date)), indices)
    ensures var view := Sequences.Filter(init, OnDate(date));
            var tail := if last.date == date && |view| in indices then [] else [last];
            Sequences.Filter(kept + tail, OnDate(date)) == Sequences.DropPositions(Sequences.Filter(init + [last], OnDate(date)), indices)
  {
    var onDate := OnDate(date);
    var view := Sequences.Filter(init, onDate);
    var tail := if last.date == date && |view| in indices then [] else [last];
    OneFiltered(last, onDate);
    Sequences.FilterAppend(init, [last], onDate);
    Sequences.FilterAppend(kept, tail, onDate);
    if last.date == date {
      assert Sequences.Filter(init + [last], onDate) == view + [last];
      Sequences.DropAppend(view, last, indices);
      assert Sequences.Filter(tail, onDate) == tail;
    } else {
      assert Sequences.Filter(init + [last], onDate) == view;
      assert Sequences.Filter(tail, onDate) == [];
    }
  }

  lemma OneFiltered(x: Expense, keep: Expense -> bool)
    ensures Sequences.Filter([x], keep) == if keep(x) then [x] else []
    ensures Sequences.Filter([], keep) == []
  {
    assert [x][1..] == [];
  }

  /** One step of `DeleteFromView`, seen through the other dates. */
  lemma {:induction false} ViewStepOffDate(init: seq<Expense>, last: Expense, kept: seq<Expense>, date: string, indices: set<int>)
    requires Sequences.Filter(kept, OffDate(date)) == Sequences.Filter(init, OffDate(date))
    ensures var view := Sequences.Filter(init, OnDate(date));
            var tail := if last.date == date && |view| in indices then [] else [last];
            Sequences.Filter(kept + tail, OffDate(date)) == Sequences.Filter(init + [last], OffDate(date))
  {
    var view := Sequences.Filter(init, OnDate(date));
    var tail := if last.date == date && |view| in indices then [] else [last];
    OneFiltered(last, OffDate(date));
    Sequences.FilterAppend(kept, tail, OffDate(date));
    Sequences.FilterAppend(init, [last], OffDate(date));
  }

  /** The collection positions of the expenses the checkboxes stand for, built
      from the front: the last expense's position is chosen when it has `date` and
      its position in the exact-date view is ticked. */
  function ViewPositions(expenses: seq<Expense>, date: string, indices: set<int>): (r: set<int>)
    ensures forall i :: i in r ==> 0 <= i < |expenses|
  {
    if expenses == [] then {}
    else
      var init, last := expenses[..|expenses| - 1], expenses[|expenses| - 1];
      ViewPositions(init, date, indices) +
        if last.date == date && |Sequences.Filter(init, OnDate(date))| in indices then {|init|} else {}
  }

  /** A collection position is chosen exactly when its expense has `date` and the
      number of expenses of `date` before it, its position in the view, is ticked. */
  lemma {:induction false} ViewPositionsAreTicked(expenses: seq<Expense>, date: string, indices: set<int>)
    ensures forall i :: i in ViewPositions(expenses, date, indices) <==>
              && 0 <= i < |expenses| && expenses[i].date == date
              && |Sequences.Filter(expenses[..i], OnDate(date))| in indices
  {
    if expenses != [] {
      var init := expenses[..|expenses| - 1];
      ViewPositionsAreTicked(init, date, indices);
      forall i | 0 <= i < |init|
        ensures expenses[..i] == init[..i] && expenses[i] == init[i]
      {
      }
      assert expenses[..|init|] == init;
    }
  }

  /** One step of `DeleteFromView`, seen through the collection positions. */
  lemma ViewStepPositions(init: seq<Expense>, last: Expense, kept: seq<Expense>, date: string, indices: set<int>)
    requires kept == Sequences.DropPositions(init, ViewPositions(init, date, indices))
    ensures var view := Sequences.Filter(init, OnDate(date));
            var tail := if last.date == date && |view| in indices then [] else [last];
            kept + tail == Sequences.DropPositions(init + [last], ViewPositions(init + [last], date, indices))
  {
    var expenses := init + [last];
    assert expenses[..|expenses| - 1] == init && expenses[|expenses| - 1] == last;
    var chosen := ViewPositions(expenses, date, indices);
    var extra := if last.date == date && |Sequences.Filter(init, OnDate(date))| in indices then {|init|} else {};
    assert chosen == ViewPositions(init, date, indices) + extra;
    Sequences.DropAgree(init, ViewPositions(init, date, indices), chosen);
    Sequences.DropAppend(init, last, chosen);
  }

  /** The delete the checkboxes stand for: removes the expenses of `date` whose
      position in the exact-date view is chosen, and nothing else, keeping the
      order of the rest. Seen through the view, exactly the chosen view positions
      are gone; the expenses of other dates are all kept, in order. */
  function DeleteFromView(expenses: seq<Expense>, date: string, indices: set<int>): (r: seq<Expense>)
    ensures r == Sequences.DropPositions(expenses, ViewPositions(expenses, date, indices))
    ensures Sequences.Filter(r, OnDate(date)) == Sequences.DropPositions(Sequences.Filter(expenses, OnDate(date)), indices)
    ensures Sequences.Filter(r, OffDate(date)) == Sequences.Filter(expenses, OffDate(date))
  {
    if expenses == [] then []
    else
      var init, last := expenses[..|expenses| - 1], expenses[|expenses| - 1];
      assert init + [last] == expenses;
      var kept := DeleteFromView(init, date, indices);
      var view := Sequences.Filter(init, OnDate(date));
      ViewStepOnDate(init, last, kept, date, indices);
      ViewStepOffDate(init, last, kept, date, indices);
      ViewStepPositions(init, last, kept, date, indices);
      var tail := if last.date == date && |view| in indices then [] else [last];
      kept + tail
  }

  /** When every expense has the date searched for, the view is the whole
      collection and the delete as written removes the ticked expenses. */
  lemma DeleteSelectedRightOnOneDate(expenses: seq<Expense>, date: string, indices: set<int>)
    requires forall k :: 0 <= k < |expenses| ==> expenses[k].date == date
    ensures DeleteSelected(expenses, indices) == DeleteFromView(expenses, date, indices)
  {
    var chosen := ViewPositions(expenses, date, indices);
    ViewPositionsAreTicked(expenses, date, indices);
    forall i | 0 <= i < |expenses|
      ensures i in indices <==> i in chosen
    {
      Sequences.FilterKeepsAll(expenses[..i], OnDate(date));
    }
    Sequences.DropAgree(expenses, indices, chosen);
  }
}
