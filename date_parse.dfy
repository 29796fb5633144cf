/** date-fns `parse(text, "dd-MM-yyyy", referenceDate)`: `dd` and `MM` each read one or two digits, `yyyy`
    one to four digits, each field taking as many digits as it may; the two `-` separators must be there;
    what is left must be whitespace. The result is then validated: the year must be positive, the month
    between 1 and 12 and the day within that month. Any failure gives an Invalid Date, here `None`. */
module DateParse {
  import opened Prelude
  import opened JsText
  import opened Calendar

  predicate IsDigit(c: char)
  {
    '0' <= c <= '9'
  }

  predicate AllDigits(s: string)
  {
    forall i :: 0 <= i < |s| ==> IsDigit(s[i])
  }

  function Pow10(n: nat): (p: nat)
    ensures p >= 1
  {
    if n == 0 then 1 else 10 * Pow10(n - 1)
  }

  /** The decimal value of a run of digits. */
  function DigitsValue(s: string): (v: nat)
    requires AllDigits(s)
    ensures v < Pow10(|s|)
  {
    if s == [] then 0 else DigitsValue(s[..|s| - 1]) * 10 + ((s[|s| - 1] as int) - ('0' as int))
  }

  /** The length of the longest run of at most `max` digits at the start of `s`. */
  function DigitRun(s: string, max: nat): (n: nat)
    ensures n <= max && n <= |s|
    ensures AllDigits(s[..n])
    ensures n < max && n < |s| ==> !IsDigit(s[n])
  {
    if max == 0 || s == [] || !IsDigit(s[0]) then 0
    else
      var n := 1 + DigitRun(s[1..], max - 1);
      assert s[..n] == [s[0]] + s[1..][..n - 1];
      n
  }

  /** One numeric field (date-fns `parseNDigits`): between one and `max` digits, as many as there are,
      and the text after them. */
  function NumberPrefix(s: string, max: nat): (r: Option<(nat, string)>)
    ensures r.Some? ==>
      var used := |s| - |r.value.1|;
      && 1 <= used <= max
      && r.value.1 == s[used..]
      && AllDigits(s[..used])
      && r.value.0 == DigitsValue(s[..used])
      && r.value.0 < Pow10(max)
      && (used < max && used < |s| ==> !IsDigit(s[used]))
    ensures r.None? <==> max == 0 || s == [] || !IsDigit(s[0])
  {
    var n := DigitRun(s, max);
    if n == 0 then None
    else
      assert Pow10(n) <= Pow10(max) by { Pow10Monotone(n, max); }
      Some((DigitsValue(s[..n]), s[n..]))
  }

  lemma {:induction false} Pow10Monotone(m: nat, n: nat)
    requires m <= n
    ensures Pow10(m) <= Pow10(n)
    decreases n
  {
    if m < n {
      Pow10Monotone(m, n - 1);
    }
  }

  /** A numeric field followed by the literal `-`, and the text after the `-`. */
  function FieldThenDash(s: string, max: nat): Option<(nat, string)>
  {
    match NumberPrefix(s, max)
    case None => None
    case Some((v, rest)) => if rest != [] && rest[0] == '-' then Some((v, rest[1..])) else None
  }

  /** The token loop of `parse` for `dd-MM-yyyy`: day, month, year and the unread remainder. */
  function ScanFields(s: string): Option<(nat, nat, nat, string)>
  {
    match FieldThenDash(s, 2)
    case None => None
    case Some((day, afterDay)) =>
      match FieldThenDash(afterDay, 2)
      case None => None
      case Some((month, afterMonth)) =>
        match NumberPrefix(afterMonth, 4)
        case None => None
        case Some((year, rest)) => Some((day, month, year, rest))
  }

  /** date-fns `parse` with the pattern `dd-MM-yyyy`: scan, reject a remainder holding anything but
      whitespace, then validate year, month and day. */
  function ParseDueDate(s: string): (r: Option<CalendarDate>)
    ensures r.Some? ==> 1 <= r.value.year <= 9999
  {
    match ScanFields(s)
    case None => None
    case Some((day, month, year, rest)) =>
      var d := Date(year, month, day);
      if AllWhitespace(rest) && year > 0 && ValidDate(d) then
        var valid: CalendarDate := d;
        Some(valid)
      else None
  }

  /** `s` is written as day, `-`, month, `-`, year and trailing whitespace, with field widths the pattern allows. */
  predicate Layout(s: string, dd: string, mm: string, yyyy: string, tail: string)
  {
    && 1 <= |dd| <= 2 && 1 <= |mm| <= 2 && 1 <= |yyyy| <= 4
    && AllDigits(dd) && AllDigits(mm) && AllDigits(yyyy)
    && AllWhitespace(tail)
    && s == dd + "-" + mm + "-" + yyyy + tail
  }

  /** The date the three fields of a layout spell. */
  function Spelled(dd: string, mm: string, yyyy: string): Date
    requires AllDigits(dd) && AllDigits(mm) && AllDigits(yyyy)
  {
    Date(DigitsValue(yyyy), DigitsValue(mm), DigitsValue(dd))
  }

  /** An accepted field is read whole, and the text after it is left untouched. */
  lemma {:induction false} NumberPrefixOf(p: string, rest: string, max: nat)
    requires 1 <= |p| <= max && AllDigits(p)
    requires |p| == max || rest == [] || !IsDigit(rest[0])
    ensures NumberPrefix(p + rest, max) == Some((DigitsValue(p), rest))
  {
    DigitRunOf(p, rest, max);
    assert (p + rest)[..|p|] == p;
    assert (p + rest)[|p|..] == rest;
  }

  lemma {:induction false} DigitRunOf(p: string, rest: string, max: nat)
    requires |p| <= max && AllDigits(p)
    requires |p| == max || rest == [] || !IsDigit(rest[0])
    ensures DigitRun(p + rest, max) == |p|
    decreases |p|
  {
    if p != [] {
      assert (p + rest)[1..] == p[1..] + rest;
      DigitRunOf(p[1..], rest, max - 1);
    } else {
      assert p + rest == rest;
    }
  }

  lemma FieldThenDashOf(p: string, rest: string, max: nat)
    requires 1 <= |p| <= max && AllDigits(p)
    ensures FieldThenDash(p + "-" + rest, max) == Some((DigitsValue(p), rest))
  {
    assert p + "-" + rest == p + ("-" + rest);
    NumberPrefixOf(p, "-" + rest, max);
    assert ("-" + rest)[1..] == rest;
  }

  lemma FieldThenDashSound(s: string, max: nat) returns (p: string)
    requires FieldThenDash(s, max).Some?
    ensures 1 <= |p| <= max && AllDigits(p)
    ensures s == p + "-" + FieldThenDash(s, max).value.1
    ensures FieldThenDash(s, max).value.0 == DigitsValue(p)
  {
    var rest := NumberPrefix(s, max).value.1;
    p := s[..|s| - |rest|];
    assert s == p + rest;
    assert rest == "-" + rest[1..];
  }

  lemma NumberPrefixSound(s: string, max: nat) returns (p: string)
    requires NumberPrefix(s, max).Some?
    ensures 1 <= |p| <= max && AllDigits(p)
    ensures s == p + NumberPrefix(s, max).value.1
    ensures NumberPrefix(s, max).value.0 == DigitsValue(p)
  {
    var rest := NumberPrefix(s, max).value.1;
    p := s[..|s| - |rest|];
    assert s == p + rest;
  }

  lemma ScanLayout(s: string, dd: string, mm: string, yyyy: string, tail: string)
    requires Layout(s, dd, mm, yyyy, tail)
    ensures ScanFields(s) == Some((DigitsValue(dd), DigitsValue(mm), DigitsValue(yyyy), tail))
  {
    var afterMonth := yyyy + tail;
    var afterDay := mm + "-" + afterMonth;
    assert s == dd + "-" + afterDay;
    FieldThenDashOf(dd, afterDay, 2);
    assert FieldThenDash(s, 2) == Some((DigitsValue(dd), afterDay));
    FieldThenDashOf(mm, afterMonth, 2);
    if tail != [] {
      DigitIsNotSpace(tail[0]);
    }
    NumberPrefixOf(yyyy, tail, 4);
    ScanFieldsOf(s, DigitsValue(dd), afterDay, DigitsValue(mm), afterMonth, DigitsValue(yyyy), tail);
  }

  lemma ScanFieldsOf(s: string, day: nat, afterDay: string, month: nat, afterMonth: string, year: nat, rest: string)
    requires FieldThenDash(s, 2) == Some((day, afterDay))
    requires FieldThenDash(afterDay, 2) == Some((month, afterMonth))
    requires NumberPrefix(afterMonth, 4) == Some((year, rest))
    ensures ScanFields(s) == Some((day, month, year, rest))
  {
  }

  lemma DigitIsNotSpace(c: char)
    requires IsJsWhitespace(c)
    ensures !IsDigit(c)
  {
  }

  /** Completeness and no defaulting: text laid out as `dd-MM-yyyy` parses to the date it spells when that
      date is real and its year positive, and to nothing otherwise. */
  lemma ParseLayout(s: string, dd: string, mm: string, yyyy: string, tail: string)
    requires Layout(s, dd, mm, yyyy, tail)
    ensures ParseDueDate(s).Some? <==> Spelled(dd, mm, yyyy).year > 0 && ValidDate(Spelled(dd, mm, yyyy))
    ensures ParseDueDate(s).Some? ==> ParseDueDate(s).value == Spelled(dd, mm, yyyy)
  {
    ScanLayout(s, dd, mm, yyyy, tail);
  }

  /** Soundness: whatever parses was written as `dd-MM-yyyy`, and the date is the one its fields spell. */
  lemma ParseSound(s: string) returns (dd: string, mm: string, yyyy: string, tail: string)
    requires ParseDueDate(s).Some?
    ensures Layout(s, dd, mm, yyyy, tail) && ParseDueDate(s).value == Spelled(dd, mm, yyyy)
  {
    assert ScanFields(s).Some?;
    var afterDay, afterMonth;
    dd, afterDay, mm, afterMonth, yyyy, tail := ScanSound(s);
    assert AllWhitespace(tail);
    Regroup(s, dd, mm, yyyy, tail);
  }

  lemma Regroup(s: string, dd: string, mm: string, yyyy: string, tail: string)
    requires s == dd + "-" + (mm + "-" + (yyyy + tail))
    ensures s == dd + "-" + mm + "-" + yyyy + tail
  {
  }

  lemma {:induction false} ScanSound(s: string) returns (dd: string, afterDay: string, mm: string, afterMonth: string, yyyy: string, tail: string)
    requires ScanFields(s).Some?
    ensures 1 <= |dd| <= 2 && 1 <= |mm| <= 2 && 1 <= |yyyy| <= 4
    ensures AllDigits(dd) && AllDigits(mm) && AllDigits(yyyy)
    ensures s == dd + "-" + afterDay && afterDay == mm + "-" + afterMonth && afterMonth == yyyy + tail
    ensures ScanFields(s) == Some((DigitsValue(dd), DigitsValue(mm), DigitsValue(yyyy), tail))
  {
    assert FieldThenDash(s, 2).Some?;
    afterDay := FieldThenDash(s, 2).value.1;
    dd := FieldThenDashSound(s, 2);
    assert FieldThenDash(afterDay, 2).Some?;
    afterMonth := FieldThenDash(afterDay, 2).value.1;
    mm := FieldThenDashSound(afterDay, 2);
    assert NumberPrefix(afterMonth, 4).Some?;
    tail := NumberPrefix(afterMonth, 4).value.1;
    yyyy := NumberPrefixSound(afterMonth, 4);
    ScanFieldsOf(s, DigitsValue(dd), afterDay, DigitsValue(mm), afterMonth, DigitsValue(yyyy), tail);
  }

  /** `n` written with exactly `w` digits, zero-padded on the left. */
  function FixedDigits(n: nat, w: nat): (r: string)
    requires n < Pow10(w)
    ensures |r| == w && AllDigits(r) && DigitsValue(r) == n
  {
    if w == 0 then ""
    else
      var q, d := n / 10, n % 10;
      DropLastDigit(n, Pow10(w - 1));
      var init := FixedDigits(q, w - 1);
      DigitsSnoc(init, DigitChar(d));
      init + [DigitChar(d)]
  }

  lemma DropLastDigit(n: nat, m: nat)
    requires n < 10 * m
    ensures n / 10 < m && n == n / 10 * 10 + n % 10 && 0 <= n % 10 < 10
  {
  }

  /** The character of the decimal digit `d`. */
  function DigitChar(d: int): (c: char)
    requires 0 <= d < 10
    ensures IsDigit(c) && c as int - '0' as int == d
  {
    ('0' as int + d) as char
  }

  /** Appending a digit multiplies the value by ten and adds the digit. */
  lemma DigitsSnoc(s: string, c: char)
    requires AllDigits(s) && IsDigit(c)
    ensures AllDigits(s + [c]) && DigitsValue(s + [c]) == DigitsValue(s) * 10 + (c as int - '0' as int)
  {
    assert (s + [c])[..|s|] == s;
  }

  /** The `dd-MM-yyyy` text of a date whose year has at most four digits. */
  function Format(d: CalendarDate): string
    requires 1 <= d.year <= 9999
  {
    FixedDigits(d.day, 2) + "-" + FixedDigits(d.month, 2) + "-" + FixedDigits(d.year, 4)
  }

  /** Round trip: the written day, month and year come back unchanged. */
  lemma ParseFormat(d: CalendarDate)
    requires 1 <= d.year <= 9999
    ensures ParseDueDate(Format(d)) == Some(d)
  {
    var dd, mm, yyyy := FixedDigits(d.day, 2), FixedDigits(d.month, 2), FixedDigits(d.year, 4);
    assert Format(d) == dd + "-" + mm + "-" + yyyy + "";
    ParseLayout(Format(d), dd, mm, yyyy, "");
  }
}
