/** The persisted ledger: one storage slot holding the whole collection, newest
    expense first, read in full by every operation and written in full by the two
    that change it. */
module Store {
  import opened Records
  import Queries

  /** What the storage slot yields: nothing stored, text that does not parse, or a
      parsed collection. */
  datatype Stored = Absent | Unparsable | Saved(expenses: seq<Expense>)

  /** `getExpenses`: the stored collection, or the empty collection when nothing
      is stored or what is stored does not parse. Loading never fails. */
  function Load(slot: Stored): (r: seq<Expense>)
    ensures slot.Saved? ==> r == slot.expenses
    ensures !slot.Saved? ==> r == []
  {
    match slot
    case Saved(expenses) => expenses
    case _ => []
  }

  /** The result of the add form: the expense that was built, or the complaint
      that a field was left empty. */
  datatype AddOutcome = Added(expense: Expense) | MissingFields

  class ExpenseStore {
    /** The storage slot the collection lives in. */
    var slot: Stored
    /** How many times the collection has been written back. */
    ghost var writes: nat

    constructor (initial: Stored)
      ensures slot == initial && writes == 0
    {
      slot := initial;
      writes := 0;
    }

    /** The collection every operation starts from. */
    function Expenses(): seq<Expense>
      reads this
    {
      Load(slot)
    }

    /** `saveExpenses`: writes the whole collection. When storage refuses the write
        (`fits` is false, as when the quota is exceeded) the slot keeps what it had. */
    method Save(expenses: seq<Expense>, fits: bool)
      modifies this
      ensures writes == old(writes) + 1
      ensures slot == if fits then Saved(expenses) else old(slot)
      ensures fits ==> Expenses() == expenses
    {
      if fits {
        slot := Saved(expenses);
      }
      writes := writes + 1;
    }

    /** `addExpense`: rejects the form unless date, amount text and description
        are all non-empty, touching nothing; otherwise builds the expense with the
        given `id`, the date as typed, `parse(amountText)` and the normalised
        description, puts it in front of the loaded collection and writes the
        collection back once. */
    method Add(date: string, amountText: string, description: string, id: int, parse: string -> real, fits: bool)
      returns (outcome: AddOutcome)
      modifies this
      ensures outcome.MissingFields? <==> date == [] || amountText == [] || description == []
      ensures outcome.MissingFields? ==> slot == old(slot) && writes == old(writes)
      ensures outcome.Added? ==>
                && outcome.expense == Expense(id, date, parse(amountText), NormalizeDescription(description))
                && writes == old(writes) + 1
                && (fits ==> Expenses() == [outcome.expense] + old(Expenses()))
                && (!fits ==> slot == old(slot))
    {
      if date == [] || amountText == [] || description == [] {
        return MissingFields;
      }
      var expenses := Expenses();
      var expense := Expense(id, date, parse(amountText), NormalizeDescription(description));
      expenses := [expense] + expenses;
      Save(expenses, fits);
      outcome := Added(expense);
    }

    /** `deleteSelectedExpenses`: drops the ticked positions from the loaded
        collection, taken as positions in the full collection, and writes the
        rest back once. */
    method DeleteSelected(indices: set<int>, fits: bool)
      modifies this
      ensures writes == old(writes) + 1
      ensures slot == if fits then Saved(Queries.DeleteSelected(old(Expenses()), indices)) else old(slot)
      ensures fits ==> Expenses() == Queries.DeleteSelected(old(Expenses()), indices)
    {
      var expenses := Expenses();
      var remaining := Queries.DeleteSelected(expenses, indices);
      Save(remaining, fits);
    }
  }

  /** Adding " lunch " on an empty ledger stores one expense described "LUNCH",
      and loading gives back exactly that expense. */
  method LunchScenario(parse: string -> real)
  {
    var store := new ExpenseStore(Absent);
    var outcome := store.Add("2024-01-05", "12.5", " lunch ", 1704412800000, parse, true);
    LunchNormalized();
    assert outcome == Added(Expense(1704412800000, "2024-01-05", parse("12.5"), "LUNCH"));
    assert store.Expenses() == [outcome.expense];
    var rejected := store.Add("", "12.5", "lunch", 1704412800001, parse, true);
    assert rejected == MissingFields;
    assert store.Expenses() == [outcome.expense];
  }
}
