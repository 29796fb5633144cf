/** A worked example of the installments page: reference instant 1 March 2025 at 00:00, and three
    rows, A1 due 05-03-2025, A2 due 05-04-2025 and a row with a blank Apartment due 10-03-2025. */
module Scenario {
  import opened Prelude
  import opened JsText
  import opened Calendar
  import opened DateParse
  import opened Payments
  import opened StableSort
  import opened Installments

  /** A1's row: Apartment "A1", Due Date "05-03-2025"; its other columns are whatever they are. */
  predicate IsRowA1(r: Row)
  {
    "Apartment" in r && r["Apartment"] == "A1" && "Due Date" in r && r["Due Date"] == "05-03-2025"
  }

  predicate IsRowA2(r: Row)
  {
    "Apartment" in r && r["Apartment"] == "A2" && "Due Date" in r && r["Due Date"] == "05-04-2025"
  }

  predicate IsRowBlank(r: Row)
  {
    "Apartment" in r && r["Apartment"] == "" && "Due Date" in r && r["Due Date"] == "10-03-2025"
  }

  function Today(): Instant
  {
    Instant(Date(2025, 3, 1), 0)
  }

  /** A Due Date written `dd-MM-2025` reads as that day of 2025. */
  lemma ParseIn2025(s: string, dd: string, mm: string, day: int, month: int)
    requires |dd| == 2 && |mm| == 2 && AllDigits(dd) && AllDigits(mm)
    requires DigitsValue(dd) == day && DigitsValue(mm) == month
    requires ValidDate(Date(2025, month, day))
    requires s == dd + "-" + mm + "-" + "2025"
    ensures ParseDueDate(s) == Some(Date(2025, month, day))
  {
    assert DigitsValue("2025") == 2025 by {
      assert "2025"[..3] == "202" && "202"[..2] == "20" && "20"[..1] == "2" && "2"[..0] == "";
    }
    assert s == dd + "-" + mm + "-" + "2025" + "";
    ParseLayout(s, dd, mm, "2025", "");
  }

  /** The value of a two-digit field `0d`. */
  lemma LeadingZero(d: char)
    requires IsDigit(d)
    ensures AllDigits(['0', d]) && DigitsValue(['0', d]) == d as int - '0' as int
  {
    assert ['0', d][..1] == ['0'] && ['0'][..0] == [];
  }

  lemma DueA1(r: Row)
    requires IsRowA1(r)
    ensures ParseRowDue(r) == Some(Date(2025, 3, 5))
  {
    LeadingZero('5');
    LeadingZero('3');
    ParseIn2025("05-03-2025", "05", "03", 5, 3);
  }

  lemma DueA2(r: Row)
    requires IsRowA2(r)
    ensures ParseRowDue(r) == Some(Date(2025, 4, 5))
  {
    LeadingZero('5');
    LeadingZero('4');
    ParseIn2025("05-04-2025", "05", "04", 5, 4);
  }

  lemma FilterThree<T>(a: T, b: T, c: T, p: T -> bool)
    ensures Filter([a, b, c], p) == (if p(a) then [a] else []) + (if p(b) then [b] else []) + (if p(c) then [c] else [])
  {
    var s := [a, b, c];
    assert s[1..] == [b, c];
    FilterTwo(b, c, p);
  }

  lemma FilterTwo<T>(a: T, b: T, p: T -> bool)
    ensures Filter([a, b], p) == (if p(a) then [a] else []) + (if p(b) then [b] else [])
  {
    var s := [a, b];
    assert s[1..] == [b] && s[1..][1..] == [];
  }

  /** Text starting with a character other than whitespace survives the trim. */
  lemma NotBlank(s: string)
    requires s != [] && !IsJsWhitespace(s[0])
    ensures Trim(s) != ""
  {
    TrimEmptyIffAllWhitespace(s);
  }

  /** `parseData` keeps A1 and A2 and drops the blank row. */
  lemma ParseDataExample(r1: Row, r2: Row, r3: Row)
    requires IsRowA1(r1) && IsRowA2(r2) && IsRowBlank(r3)
    ensures ParseData([r1, r2, r3]) == [r1, r2]
  {
    NotBlank(r1["Apartment"]);
    NotBlank(r2["Apartment"]);
    assert !HasApartment(r3);
    FilterThree(r1, r2, r3, HasApartment);
  }

  /** Two rows whose dates both parse are both valid, in their order. */
  lemma ValidTwo(r1: Row, r2: Row, d1: CalendarDate, d2: CalendarDate)
    requires ParseRowDue(r1) == Some(d1) && ParseRowDue(r2) == Some(d2)
    ensures ValidData(ParsedData([r1, r2])) == [Entry(r1, Some(d1)), Entry(r2, Some(d2))]
  {
    var parsed := ParsedData([r1, r2]);
    assert parsed == [Entry(r1, Some(d1)), Entry(r2, Some(d2))];
    FilterTwo(parsed[0], parsed[1], Dated);
  }

  /** The two kept rows both have valid dates. */
  lemma ValidDataExample(r1: Row, r2: Row)
    requires IsRowA1(r1) && IsRowA2(r2)
    ensures ValidData(ParsedData([r1, r2])) == [Entry(r1, Some(Date(2025, 3, 5))), Entry(r2, Some(Date(2025, 4, 5)))]
  {
    DueA1(r1);
    DueA2(r2);
    ValidTwo(r1, r2, Date(2025, 3, 5), Date(2025, 4, 5));
  }

  /** Two dated entries, the first due earlier, sort to themselves. */
  lemma SortTwo(e1: Entry, e2: Entry)
    requires e1.due.Some? && e2.due.Some? && DateBefore(e1.due.value, e2.due.value)
    ensures SortBy([e1, e2], DueKey) == [e1, e2]
  {
    DueTimeOrder(e1, e2);
    assert SortBy([e1], DueKey) == [e1];
    assert [e1, e2][..1] == [e1];
  }

  /** With `today` at 00:00 on 1 March 2025, an entry due 5 March is in the current-month bucket only and one
      due 5 April in the next-month bucket only. */
  lemma BucketsExample(e1: Entry, e2: Entry)
    requires e1.due == Some(Date(2025, 3, 5)) && e2.due == Some(Date(2025, 4, 5))
    ensures MonthBucket([e1, e2], Today(), 0) == [e1]
    ensures MonthBucket([e1, e2], Today(), 1) == [e2]
    ensures MonthBucket([e1, e2], Today(), 2) == []
  {
    OnOrAfterToday(e1, Today());
    OnOrAfterToday(e2, Today());
    AddMonthsRollover(Today(), 1);
    AddMonthsRollover(Today(), 2);
    FilterTwo(e1, e2, BucketTest(Today(), TargetMonth(Today(), 0)));
    FilterTwo(e1, e2, BucketTest(Today(), TargetMonth(Today(), 1)));
    FilterTwo(e1, e2, BucketTest(Today(), TargetMonth(Today(), 2)));
  }

  /** A1 lands in the current month, A2 in the next month, nothing in the month after, the blank row
      nowhere, and the full view shows A1 then A2. */
  lemma MarchScenario(r1: Row, r2: Row, r3: Row)
    requires IsRowA1(r1) && IsRowA2(r2) && IsRowBlank(r3)
    ensures var e1, e2 := Entry(r1, Some(Date(2025, 3, 5))), Entry(r2, Some(Date(2025, 4, 5)));
      IsViewOf(View([e1], [e2], [], [e1, e2]), ParseData([r1, r2, r3]), Today())
  {
    var e1, e2 := Entry(r1, Some(Date(2025, 3, 5))), Entry(r2, Some(Date(2025, 4, 5)));
    ParseDataExample(r1, r2, r3);
    ValidDataExample(r1, r2);
    BucketsExample(e1, e2);
    SortTwo(e1, e2);
  }

  /** B1's row: Apartment "B1", Due Date "01-03-2025". */
  predicate IsRowB1(r: Row)
  {
    "Apartment" in r && r["Apartment"] == "B1" && "Due Date" in r && r["Due Date"] == "01-03-2025"
  }

  lemma DueB1(r: Row)
    requires IsRowB1(r)
    ensures ParseRowDue(r) == Some(Date(2025, 3, 1))
  {
    LeadingZero('1');
    LeadingZero('3');
    ParseIn2025("01-03-2025", "01", "03", 1, 3);
  }

  /** A single row with an Apartment and a parseable date is the whole of `validData`. */
  lemma ValidOne(r: Row, d: CalendarDate)
    requires "Apartment" in r && r["Apartment"] != [] && !IsJsWhitespace(r["Apartment"][0])
    requires ParseRowDue(r) == Some(d)
    ensures ValidData(ParsedData(ParseData([r]))) == [Entry(r, Some(d))]
  {
    NotBlank(r["Apartment"]);
    assert [r][1..] == [];
    assert ParseData([r]) == [r];
    var parsed := ParsedData([r]);
    assert parsed == [Entry(r, Some(d))] && parsed[1..] == [];
  }

  /** An entry due before `today` is in no bucket, and alone it is the whole full view. */
  lemma OverdueAlone(e: Entry, today: Instant)
    requires e.due.Some? && DateBefore(e.due.value, today.date)
    ensures MonthBucket([e], today, 0) == [] && MonthBucket([e], today, 1) == [] && MonthBucket([e], today, 2) == []
    ensures SortBy([e], DueKey) == [e]
  {
    OnOrAfterToday(e, today);
    assert [e][1..] == [];
  }

  /** An overdue payment: with `today` any time on 10 March 2025, B1 (due 1 March 2025) is in the full
      view, in no month bucket, and its card is past due. */
  lemma OverdueScenario(r: Row, ms: TimeOfDay)
    requires IsRowB1(r)
    ensures var e := Entry(r, Some(Date(2025, 3, 1)));
      && IsViewOf(View([], [], [], [e]), ParseData([r]), Instant(Date(2025, 3, 10), ms))
      && IsPastDue(e, Instant(Date(2025, 3, 10), ms))
  {
    var today := Instant(Date(2025, 3, 10), ms);
    var e := Entry(r, Some(Date(2025, 3, 1)));
    DueB1(r);
    ValidOne(r, Date(2025, 3, 1));
    OverdueAlone(e, today);
    PastDueMeans(e, today);
  }
}
