/** The records the installments page works on. */
module Payments {
  import opened Prelude
  import opened Calendar

  /** One CSV row as Papa Parse delivers it with `header: true`: column name to cell text. */
  type Row = map<string, string>

  /** `{ ...payment, "Due Date": dueDate }`: the row with its due date parsed. `None` stands for the
      Invalid Date that `parse` returns for text it cannot read. */
  datatype Entry = Entry(row: Row, due: Option<CalendarDate>)

  /** `!isNaN(payment["Due Date"])` */
  predicate Dated(e: Entry)
  {
    e.due.Some?
  }

  predicate AllDated(s: seq<Entry>)
  {
    forall i :: 0 <= i < |s| ==> s[i].due.Some?
  }

  /** The time value of the due date, at 00:00 of that day. */
  function DueTime(e: Entry): int
    requires e.due.Some?
  {
    TimeValue(Midnight(e.due.value))
  }

  /** Due-date times order entries as their calendar dates do. */
  lemma DueTimeOrder(a: Entry, b: Entry)
    requires a.due.Some? && b.due.Some?
    ensures DueTime(a) < DueTime(b) <==> DateBefore(a.due.value, b.due.value)
    ensures DueTime(a) == DueTime(b) <==> a.due == b.due
  {
    TimeValueOrder(Midnight(a.due.value), Midnight(b.due.value));
  }
}
