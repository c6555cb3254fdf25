/**
 * The checks the date form makes before asking the host for a report.
 */
module Validation {
  import opened Wrappers
  import opened Records

  /** A date input: the text the browser holds (empty when nothing is picked)
      and the day it parses to (`None` when it does not parse). */
  datatype DateField = DateField(text: string, day: Option<int>)

  /** Why the form was refused; each reason is its own alert in the source. */
  datatype FormError = MissingDates | MissingUser | StartAfterEnd

  /** The form's checks in the source's order: both dates present, a user
      chosen, and the start not after the end. */
  function ValidateForm(start: DateField, end: DateField, user: string): (r: Option<FormError>)
    ensures r == Some(MissingDates) <==> start.text == "" || end.text == ""
    ensures r == Some(MissingUser) <==> start.text != "" && end.text != "" && user == ""
    ensures r == Some(StartAfterEnd) <==>
              start.text != "" && end.text != "" && user != "" && Later(start.day, end.day)
    ensures r == None <==>
              start.text != "" && end.text != "" && user != "" && !Later(start.day, end.day)
  {
    if start.text == "" || end.text == "" then Some(MissingDates)
    else if user == "" then Some(MissingUser)
    else if Later(start.day, end.day) then Some(StartAfterEnd)
    else None
  }

  /** A date that does not parse never counts as after the other one, so such
      a form passes the order check. */
  lemma UnparsedDatePasses(start: DateField, end: DateField, user: string)
    requires start.text != "" && end.text != "" && user != ""
    requires start.day.None? || end.day.None?
    ensures ValidateForm(start, end, user).None?
  {
  }
}
