/** The due-date dialogues of main.rs, `prompt_date` and
    `prompt_date_in_place`, reduced to what the user's answers decide, and
    the due-date rule of `edit_todo` built on them. */
module Dates {
  import opened Tree

  /** How a due-date dialogue ended. `Keep` is a first answer other than
      "y" or "n"; `Clear` is "n"; `Set(at)` is "y" followed by fields that
      all parse, giving the date `at`; `Unreadable` is "y" followed by a
      field that does not parse, or a terminal or clock error on the way. */
  datatype DateAnswer = Keep | Clear | Set(at: int) | Unreadable

  /** `prompt_date`, asked when there is no date yet: only "y" with readable
      fields gives a date. */
  function PromptDate(a: DateAnswer): (r: Option<int>)
    ensures r.Some? <==> a.Set?
    ensures r.Some? ==> r.value == a.at
  {
    if a.Set? then Some(a.at) else None
  }

  /** `prompt_date_in_place`, asked about an existing date: "y" gives the
      new date, "n" or an unreadable field gives nothing, anything else
      keeps the current date. */
  function PromptDateInPlace(current: int, a: DateAnswer): (r: Option<int>)
    ensures r.None? <==> a.Clear? || a.Unreadable?
    ensures a.Keep? ==> r == Some(current)
    ensures a.Set? ==> r == Some(a.at)
  {
    match a
    case Keep => Some(current)
    case Clear => None
    case Set(at) => Some(at)
    case Unreadable => None
  }

  /** The due date after `edit_todo`, as the handler computes it: an
      existing date goes through `prompt_date_in_place` with a fall-back to
      itself, a missing one through `prompt_date`. */
  function EditedDue(due: Option<int>, a: DateAnswer): (r: Option<int>)
    ensures due.None? ==> r == PromptDate(a)
    ensures a.Set? ==> r == Some(a.at)
  {
    match due
    case Some(d) =>
      var answer := PromptDateInPlace(d, a);
      Some(if answer.Some? then answer.value else d)
    case None => PromptDate(a)
  }

  /** As written, a todo that has a due date keeps one whatever is
      answered: the fall-back turns the "n" answer back into the old date. */
  lemma {:induction false} DueDateNeverCleared(due: Option<int>, a: DateAnswer)
    requires due.Some?
    ensures EditedDue(due, a).Some?
    ensures !a.Set? ==> EditedDue(due, a) == due
  {
    match a
    case Keep =>
    case Clear =>
    case Set(_) =>
    case Unreadable =>
  }

  /** The evident intent: "n" removes the date, an unreadable answer keeps
      it, "y" replaces it. */
  function EditedDueFixed(due: Option<int>, a: DateAnswer): (r: Option<int>)
    ensures a.Clear? ==> r.None?
    ensures a.Set? ==> r == Some(a.at)
    ensures a.Keep? || a.Unreadable? ==> r == due
  {
    match due
    case Some(d) => if a.Clear? then None else Some(if a.Set? then a.at else d)
    case None => PromptDate(a)
  }

  /** The corrected rule differs from the written one exactly on "n" for a
      todo that has a date. */
  lemma {:induction false} FixedDiffersOnlyOnClear(due: Option<int>, a: DateAnswer)
    ensures EditedDueFixed(due, a) != EditedDue(due, a) <==> due.Some? && a.Clear?
  {
    if due.Some? {
      DueDateNeverCleared(due, a);
    }
  }
}
