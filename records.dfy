/** One ledger entry and the normalisation applied to it when it is created. */
module Records {
  import Text

  /** An expense as stored: `id` comes from the clock, `date` is the `YYYY-MM-DD`
      text of the date input, `amount` the parsed amount, `description` normalised. */
  datatype Expense = Expense(id: int, date: string, amount: real, description: string)

  /** `description.toUpperCase().trim()`: no space at either end, no lower-case
      letter, and the same text as trimming first and upper-casing after. */
  function NormalizeDescription(description: string): (r: string)
    ensures Text.IsTrimmed(r)
    ensures forall k :: 0 <= k < |r| ==> !Text.IsLowerLetter(r[k])
    ensures r == Text.ToUpper(Text.Trim(description))
  {
    Text.TrimOfUpper(description);
    Text.Trim(Text.ToUpper(description))
  }

  /** Normalising a stored description changes nothing. */
  lemma NormalizeIdempotent(description: string)
    ensures NormalizeDescription(NormalizeDescription(description)) == NormalizeDescription(description)
  {
    var r := NormalizeDescription(description);
    assert Text.ToUpper(r) == r;
    Text.TrimOfTrimmed(r);
  }

  /** A description made only of spaces, which the non-empty check lets through,
      is stored as the empty string. */
  lemma BlankDescriptionStoredEmpty(description: string)
    requires forall k :: 0 <= k < |description| ==> Text.IsSpace(description[k])
    ensures NormalizeDescription(description) == []
  {
    Text.TrimOfBlank(description);
  }

  lemma LunchNormalized()
    ensures NormalizeDescription(" lunch ") == "LUNCH"
  {
    var padded := " lunch ";
    assert Text.IsSpace(padded[0]) && padded[1..] == "lunch ";
    assert !Text.IsSpace('l');
    assert Text.TrimStart("lunch ") == "lunch ";
    assert Text.TrimStart(padded) == "lunch ";
    assert "lunch "[..5] == "lunch";
    assert !Text.IsSpace('h');
    assert Text.TrimEnd("lunch") == "lunch";
    assert Text.Trim(padded) == "lunch";
    assert Text.ToUpper("lunch") == "LUNCH";
  }
}
