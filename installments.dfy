/** The logic of the `App` component: `parseData` drops rows without an apartment, `categorizePayments`
    parses the due dates, keeps the valid ones, files the payments still ahead into three month buckets
    and sorts all valid payments by due date, and the full view flags each card past-due. The reference
    instant `today` and the render-time `now`, both `new Date()` in the component, are parameters. */
module Installments {
  import opened Prelude
  import opened JsText
  import opened Calendar
  import opened DateParse
  import opened Payments
  import opened StableSort

  // ---------------------------------------------------------------- parseData

  /** The test of `parseData`: `entry.Apartment.trim() !== ""`. */
  predicate HasApartment(row: Row)
  {
    "Apartment" in row && Trim(row["Apartment"]) != ""
  }

  /** `parseData`, given the rows Papa Parse produced: the rows whose Apartment is not blank. A row without
      an Apartment column makes the component throw, so every row is required to have one. */
  function ParseData(rows: seq<Row>): (r: seq<Row>)
    requires forall i :: 0 <= i < |rows| ==> "Apartment" in rows[i]
    ensures forall k :: 0 <= k < |r| ==> HasApartment(r[k])
  {
    Filter(rows, HasApartment)
  }

  /** What `parseData` keeps: exactly the rows whose Apartment holds a character other than whitespace,
      in their original order. */
  lemma ParseDataKeeps(rows: seq<Row>) returns (idx: seq<int>)
    requires forall i :: 0 <= i < |rows| ==> "Apartment" in rows[i]
    ensures Selects(ParseData(rows), rows, idx)
    ensures forall i :: 0 <= i < |rows| ==> (i in idx <==> !AllWhitespace(rows[i]["Apartment"]))
    ensures forall k :: 0 <= k < |ParseData(rows)| ==> !AllWhitespace(ParseData(rows)[k]["Apartment"])
  {
    idx := FilterPositions(rows, HasApartment);
    forall i | 0 <= i < |rows|
      ensures HasApartment(rows[i]) <==> !AllWhitespace(rows[i]["Apartment"])
    {
      TrimEmptyIffAllWhitespace(rows[i]["Apartment"]);
    }
    var r := ParseData(rows);
    forall k | 0 <= k < |r|
      ensures !AllWhitespace(r[k]["Apartment"])
    {
      TrimEmptyIffAllWhitespace(r[k]["Apartment"]);
    }
  }

  // ------------------------------------------------- categorizePayments: dates

  /** `parse(payment["Due Date"], "dd-MM-yyyy", new Date())`. A row without the column is read as
      unparseable. */
  function ParseRowDue(row: Row): (r: Option<CalendarDate>)
    ensures "Due Date" !in row ==> r.None?
    ensures r.Some? ==> 1 <= r.value.year <= 9999
  {
    if "Due Date" in row then ParseDueDate(row["Due Date"]) else None
  }

  /** `parsedData`: every row with its due date replaced by the parsed one. */
  function ParsedData(rows: seq<Row>): (r: seq<Entry>)
    ensures |r| == |rows|
    ensures forall i :: 0 <= i < |rows| ==> r[i].row == rows[i] && r[i].due == ParseRowDue(rows[i])
  {
    seq(|rows|, i requires 0 <= i < |rows| => Entry(rows[i], ParseRowDue(rows[i])))
  }

  /** `validData`: the parsed entries whose date is not an Invalid Date. */
  function ValidData(parsed: seq<Entry>): (r: seq<Entry>)
    ensures AllDated(r)
  {
    Filter(parsed, Dated)
  }

  /** A row reaches `validData` exactly when its Due Date text parses; nothing is defaulted, and the order
      of the rows is kept. */
  lemma ValidDataKeeps(rows: seq<Row>) returns (idx: seq<int>)
    ensures Selects(ValidData(ParsedData(rows)), ParsedData(rows), idx)
    ensures forall i :: 0 <= i < |rows| ==> (i in idx <==> "Due Date" in rows[i] && ParseDueDate(rows[i]["Due Date"]).Some?)
    ensures forall k :: 0 <= k < |idx| ==> ValidData(ParsedData(rows))[k].row == rows[idx[k]]
    ensures forall e :: e in ValidData(ParsedData(rows)) ==>
      "Due Date" in e.row && e.due.Some? && e.due == ParseDueDate(e.row["Due Date"])
  {
    var parsed := ParsedData(rows);
    idx := FilterPositions(parsed, Dated);
    FilterMembers(parsed, Dated);
  }

  /** A valid entry's due date is the day, month and year its Due Date text spells, at 00:00. */
  lemma ValidDueAsWritten(rows: seq<Row>, e: Entry) returns (dd: string, mm: string, yyyy: string, tail: string)
    requires e in ValidData(ParsedData(rows))
    ensures "Due Date" in e.row && e.due.Some?
    ensures Layout(e.row["Due Date"], dd, mm, yyyy, tail)
    ensures e.due.value == Spelled(dd, mm, yyyy)
  {
    var _ := ValidDataKeeps(rows);
    dd, mm, yyyy, tail := ParseSound(e.row["Due Date"]);
  }

  // ----------------------------------------------- categorizePayments: buckets

  /** The filter of each month bucket: `payment["Due Date"] >= today && isSameMonth(payment["Due Date"], month)`. */
  predicate InBucket(e: Entry, today: Instant, month: Instant)
  {
    e.due.Some? && DueTime(e) >= TimeValue(today) && IsSameMonth(e.due.value, month.date)
  }

  function BucketTest(today: Instant, month: Instant): Entry -> bool
  {
    e => InBucket(e, today, month)
  }

  /** The month of bucket `k`: `currentMonth` is `today` itself, `nextMonth` and `followingMonth` are
      `addMonths(today, 1)` and `addMonths(today, 2)`. */
  function TargetMonth(today: Instant, k: nat): (m: Instant)
    ensures MonthIndex(m.date) == MonthIndex(today.date) + k
  {
    if k == 0 then today else AddMonths(today, k)
  }

  /** `currentMonthPayments` (k = 0), `nextMonthPayments` (k = 1), `followingMonthPayments` (k = 2). */
  function MonthBucket(valid: seq<Entry>, today: Instant, k: nat): (r: seq<Entry>)
    ensures |r| <= |valid|
    ensures forall e :: e in r ==> e in valid && e.due.Some? && IsSameMonth(e.due.value, TargetMonth(today, k).date)
  {
    FilterMembers(valid, BucketTest(today, TargetMonth(today, k)));
    Filter(valid, BucketTest(today, TargetMonth(today, k)))
  }

  /** A due date (at 00:00) is on or after `today` when it is a later day, or the same day with `today`
      itself at exactly 00:00: a payment due today is bucketed only at midnight. */
  lemma OnOrAfterToday(e: Entry, today: Instant)
    requires e.due.Some?
    ensures DueTime(e) >= TimeValue(today) <==>
      DateBefore(today.date, e.due.value) || (e.due.value == today.date && today.ms == 0)
  {
    TimeValueOrder(Midnight(e.due.value), today);
    TimeValueOrder(today, Midnight(e.due.value));
  }

  /** Bucket `k` holds exactly the valid entries due on or after `today` in the month `k` months after
      today's, counting across year ends. */
  lemma BucketMembers(valid: seq<Entry>, today: Instant, k: nat, e: Entry)
    ensures e in MonthBucket(valid, today, k) <==>
      && e in valid && e.due.Some? && DueTime(e) >= TimeValue(today)
      && MonthIndex(e.due.value) == MonthIndex(today.date) + k
  {
    var month := TargetMonth(today, k);
    FilterMembers(valid, BucketTest(today, month));
    if e.due.Some? {
      SameMonthIndex(e.due.value, month.date);
    }
  }

  /** Each bucket is the bucket's filter applied to `validData`: the matching entries, in order. */
  lemma BucketKeeps(valid: seq<Entry>, today: Instant, k: nat) returns (idx: seq<int>)
    ensures Selects(MonthBucket(valid, today, k), valid, idx)
    ensures forall i :: 0 <= i < |valid| ==> (i in idx <==> InBucket(valid[i], today, TargetMonth(today, k)))
  {
    idx := FilterPositions(valid, BucketTest(today, TargetMonth(today, k)));
  }

  /** No entry is in two buckets: their months differ. */
  lemma BucketsDisjoint(valid: seq<Entry>, today: Instant, j: nat, k: nat, e: Entry)
    requires j != k
    ensures !(e in MonthBucket(valid, today, j) && e in MonthBucket(valid, today, k))
  {
    BucketMembers(valid, today, j, e);
    BucketMembers(valid, today, k, e);
  }

  /** A payment due more than two months after today's month is in no bucket; it shows only in the full
      view. */
  lemma BeyondFollowingMonth(valid: seq<Entry>, today: Instant, k: nat, e: Entry)
    requires k <= 2 && e.due.Some? && MonthIndex(e.due.value) > MonthIndex(today.date) + 2
    ensures e !in MonthBucket(valid, today, k)
  {
    BucketMembers(valid, today, k, e);
  }

  // ----------------------------------------------------- the full view

  /** `isPastDue` on a card of the full view: `payment["Due Date"] < new Date()`, with `now` the render time. */
  predicate IsPastDue(e: Entry, now: Instant): (late: bool)
    requires e.due.Some?
    ensures DateBefore(e.due.value, now.date) ==> late
    ensures late ==> !DateBefore(now.date, e.due.value)
  {
    TimeValueOrder(Midnight(e.due.value), now);
    DueTime(e) < TimeValue(now)
  }

  /** Past-due means due on an earlier day, or today once `now` is past 00:00. */
  lemma PastDueMeans(e: Entry, now: Instant)
    requires e.due.Some?
    ensures IsPastDue(e, now) <==> DateBefore(e.due.value, now.date) || (e.due.value == now.date && now.ms > 0)
  {
    OnOrAfterToday(e, now);
  }

  /** The buckets hold no payment that is past due at the same instant. */
  lemma BucketNotPastDue(valid: seq<Entry>, today: Instant, k: nat, e: Entry)
    requires e in MonthBucket(valid, today, k)
    ensures e.due.Some? && !IsPastDue(e, today)
  {
    BucketMembers(valid, today, k, e);
  }

  /** The comparator `a["Due Date"] - b["Due Date"]` as a sort key. Only valid entries are sorted; the 0
      given to an Invalid Date is never compared. */
  function DueKey(e: Entry): (key: int)
    ensures e.due.Some? ==> key % MsPerDay == 0 && key / MsPerDay == DayNumber(e.due.value)
  {
    if e.due.Some? then DueTime(e) else 0
  }

  /** The full view is `validData` itself, reordered: ascending by due date, and entries with equal due
      dates in their `validData` order. */
  lemma FullView(valid: seq<Entry>)
    requires AllDated(valid)
    ensures multiset(SortBy(valid, DueKey)) == multiset(valid)
    ensures AllDated(SortBy(valid, DueKey))
    ensures var all := SortBy(valid, DueKey);
      forall i, j :: 0 <= i < j < |all| ==> !DateBefore(all[j].due.value, all[i].due.value)
    ensures forall v :: Filter(SortBy(valid, DueKey), KeyIs(DueKey, v)) == Filter(valid, KeyIs(DueKey, v))
  {
    var all := SortBy(valid, DueKey);
    assert forall e :: e in multiset(all) ==> e in multiset(valid);
    forall i | 0 <= i < |all|
      ensures all[i].due.Some?
    {
      assert all[i] in multiset(valid);
    }
    SortBySorted(valid, DueKey);
    forall i, j | 0 <= i < j < |all|
      ensures !DateBefore(all[j].due.value, all[i].due.value)
    {
      DueTimeOrder(all[j], all[i]);
    }
    forall v
      ensures Filter(all, KeyIs(DueKey, v)) == Filter(valid, KeyIs(DueKey, v))
    {
      SortByStable(valid, DueKey, v);
    }
  }

  /** In the sorted full view the past-due cards come first. */
  lemma PastDueFirst(all: seq<Entry>, now: Instant, i: int, j: int)
    requires AllDated(all) && SortedBy(all, DueKey)
    requires 0 <= i < j < |all| && IsPastDue(all[j], now)
    ensures IsPastDue(all[i], now)
  {
  }

  // ---------------------------------------------------- categorizePayments

  /** What `categorizePayments` publishes. */
  datatype View = View(currentMonth: seq<Entry>, nextMonth: seq<Entry>, followingMonth: seq<Entry>, all: seq<Entry>)

  /** `view` holds the three month buckets of the valid entries of `data` and, for the full view, those
      entries stably sorted by due date. */
  predicate IsViewOf(view: View, data: seq<Row>, today: Instant)
  {
    var valid := ValidData(ParsedData(data));
    && view.currentMonth == MonthBucket(valid, today, 0)
    && view.nextMonth == MonthBucket(valid, today, 1)
    && view.followingMonth == MonthBucket(valid, today, 2)
    && view.all == SortBy(valid, DueKey)
  }

  /** `categorizePayments(data)` with reference instant `today`: the three buckets are filtered from
      `validData` before it is sorted in place for the full view. */
  method CategorizePayments(data: seq<Row>, today: Instant) returns (view: View)
    ensures IsViewOf(view, data, today)
  {
    var currentMonth := today;
    var nextMonth := AddMonths(today, 1);
    var followingMonth := AddMonths(today, 2);
    var parsedData := ParsedData(data);
    var validData := ValidData(parsedData);
    var current := Filter(validData, BucketTest(today, currentMonth));
    var next := Filter(validData, BucketTest(today, nextMonth));
    var following := Filter(validData, BucketTest(today, followingMonth));
    var sorted := new Entry[|validData|](i requires 0 <= i < |validData| => validData[i]);
    assert sorted[..] == validData;
    InsertionSortBy(sorted, DueKey);
    view := View(current, next, following, sorted[..]);
  }

  /** The state of the component: its four `useState` slots. */
  class InstallmentsPage {
    var data: seq<Entry>
    var currentMonthPayments: seq<Entry>
    var nextMonthPayments: seq<Entry>
    var followingMonthPayments: seq<Entry>

    /** Every slot starts as `[]`. */
    constructor ()
      ensures data == [] && currentMonthPayments == [] && nextMonthPayments == [] && followingMonthPayments == []
    {
      data, currentMonthPayments, nextMonthPayments, followingMonthPayments := [], [], [], [];
    }

    /** The success path of `fetchData`, from the parsed CSV rows on: every slot is replaced wholesale. */
    method FeedLoaded(rows: seq<Row>, today: Instant)
      requires forall i :: 0 <= i < |rows| ==> "Apartment" in rows[i]
      modifies this
      ensures IsViewOf(View(currentMonthPayments, nextMonthPayments, followingMonthPayments, data), ParseData(rows), today)
    {
      var result := ParseData(rows);
      var view := CategorizePayments(result, today);
      currentMonthPayments, nextMonthPayments, followingMonthPayments, data :=
        view.currentMonth, view.nextMonth, view.followingMonth, view.all;
      assert View(currentMonthPayments, nextMonthPayments, followingMonthPayments, data) == view;
    }
  }
}
