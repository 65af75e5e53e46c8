/** Calendar dates: the chrono `%Y-%m-%d` parser the handlers apply to the
    request's date, and the Postgres `TO_CHAR(d, 'YYYY-MM-DD')` rendering the
    queries compare that request string against. */
module Dates {
  import opened Wrappers
  import opened Digits

  datatype Ymd = Ymd(year: nat, month: nat, day: nat)

  predicate IsLeapYear(y: nat) {
    y % 4 == 0 && (y % 100 != 0 || y % 400 == 0)
  }

  function DaysInMonth(y: nat, m: nat): nat
    requires 1 <= m <= 12
  {
    if m == 2 then (if IsLeapYear(y) then 29 else 28)
    else if m == 4 || m == 6 || m == 9 || m == 11 then 30
    else 31
  }

  /** A day of the proleptic Gregorian calendar, as a Postgres `date` holds it. */
  predicate IsCalendarDay(d: Ymd) {
    1 <= d.month <= 12 && 1 <= d.day <= DaysInMonth(d.year, d.month)
  }

  type Date = d: Ymd | IsCalendarDay(d) witness Ymd(2000, 1, 1)

  /** Number of digits (at most `max`) at the front of `s`: chrono reads a
      numeric field greedily up to its width. */
  function LeadingDigits(s: string, max: nat): (n: nat)
    ensures n <= max && n <= |s| && AllDigits(s[..n])
    ensures n < max && n < |s| ==> !IsDigit(s[n])
  {
    if max == 0 || s == [] || !IsDigit(s[0]) then 0
    else
      var k := LeadingDigits(s[1..], max - 1);
      assert s[..k + 1] == [s[0]] + s[1..][..k];
      k + 1
  }

  /** One numeric field of 1..max digits and the text after it. */
  function ScanNumber(s: string, max: nat): (r: Option<(nat, string)>)
  {
    var n := LeadingDigits(s, max);
    if n == 0 then None else Some((Value(s[..n]), s[n..]))
  }

  /** A numeric field of 1..max digits followed by the '-' separator, and the
      text after the separator. */
  function FieldThenDash(s: string, max: nat): (r: Option<(nat, string)>)
  {
    match ScanNumber(s, max)
    case None => None
    case Some((v, rest)) =>
      if rest == [] || rest[0] != '-' then None else Some((v, rest[1..]))
  }

  /** `NaiveDate::parse_from_str(s, "%Y-%m-%d")`: a 1..4 digit year, a 1..2
      digit month and a 1..2 digit day separated by '-', nothing after, and a
      day that exists in the calendar. */
  function Parse(s: string): (r: Option<Date>)
    ensures r.Some? ==> r.value.year <= 9999
  {
    match FieldThenDash(s, 4)
    case None => None
    case Some((y, s1)) =>
      match FieldThenDash(s1, 2)
      case None => None
      case Some((m, s2)) =>
        match ScanNumber(s2, 2)
        case None => None
        case Some((d, s3)) =>
          if s3 != [] || !IsCalendarDay(Ymd(y, m, d)) then None
          else
            assert y <= 9999 by { LeadingDigitsValueBound(s, 4); }
            Some(Ymd(y, m, d))
  }

  /** `TO_CHAR(d, 'YYYY-MM-DD')`. */
  function Format(d: Date): (s: string)
    ensures d.year <= 9999 ==> |s| == 10
    ensures d.year > 9999 ==> |s| > 10
  {
    DecimalLength(d.year, 4);
    DecimalLength(d.month, 2);
    DecimalLength(d.day, 2);
    Decimal(d.year, 4) + "-" + Decimal(d.month, 2) + "-" + Decimal(d.day, 2)
  }

  lemma ScanNumberLength(s: string, max: nat)
    requires ScanNumber(s, max).Some?
    ensures |s| - max <= |ScanNumber(s, max).value.1| < |s|
  {
  }

  lemma FieldThenDashLength(s: string, max: nat)
    requires FieldThenDash(s, max).Some?
    ensures |s| - max - 1 <= |FieldThenDash(s, max).value.1| < |s| - 1
  {
    ScanNumberLength(s, max);
  }

  /** Every text chrono accepts as a date is 5 to 10 characters long: 1..4
      digits of year, 1..2 of month and of day, two dashes. */
  lemma ParsedLength(s: string)
    requires Parse(s).Some?
    ensures 5 <= |s| <= 10
  {
    var (_, s1) := FieldThenDash(s, 4).value;
    FieldThenDashLength(s, 4);
    var (_, s2) := FieldThenDash(s1, 2).value;
    FieldThenDashLength(s1, 2);
    ScanNumberLength(s2, 2);
  }

  /** The layout of what `TO_CHAR` prints: the year's digits, '-', two
      digits of month, '-', two digits of day. */
  lemma FormatLayout(d: Date)
    ensures var s := Format(d);
      && s[|s| - 6] == '-' && s[|s| - 3] == '-'
      && AllDigits(s[..|s| - 6]) && AllDigits(s[|s| - 5..|s| - 3]) && AllDigits(s[|s| - 2..])
  {
    MonthAndDayFit(d);
    DecimalLength(d.month, 2);
    DecimalLength(d.day, 2);
  }

  /** The strings the database itself would print: they parse, and print
      back unchanged. */
  predicate IsCanonical(s: string) {
    Parse(s).Some? && Format(Parse(s).value) == s
  }

  lemma {:induction false} ValueBound(s: string)
    requires AllDigits(s)
    ensures Value(s) < Pow10(|s|)
  {
    if s != [] {
      ValueBound(s[..|s| - 1]);
    }
  }

  lemma LeadingDigitsValueBound(s: string, max: nat)
    ensures Value(s[..LeadingDigits(s, max)]) < Pow10(max)
  {
    var n := LeadingDigits(s, max);
    ValueBound(s[..n]);
    PowMonotone(n, max);
  }

  lemma {:induction false} PowMonotone(a: nat, b: nat)
    requires a <= b
    ensures Pow10(a) <= Pow10(b)
    decreases b
  {
    if a < b {
      PowMonotone(a, b - 1);
    }
  }

  /** Greedy scanning stops at the field width when the text is all digits
      that far. */
  lemma {:induction false} LeadingDigitsOfPrefix(a: string, b: string, max: nat)
    requires AllDigits(a) && |a| >= max
    ensures LeadingDigits(a + b, max) == max
    decreases max
  {
    if max > 0 {
      assert (a + b)[1..] == a[1..] + b;
      LeadingDigitsOfPrefix(a[1..], b, max - 1);
    }
  }

  lemma ScanField(a: string, b: string, max: nat)
    requires AllDigits(a) && |a| == max >= 1
    ensures ScanNumber(a + b, max) == Some((Value(a), b))
  {
    LeadingDigitsOfPrefix(a, b, max);
    assert (a + b)[..max] == a;
    assert (a + b)[max..] == b;
  }

  /** Scanning stops at the separator, whatever the field width allows. */
  lemma {:induction false} LeadingDigitsBeforeDash(a: string, b: string, max: nat)
    requires AllDigits(a) && |a| <= max
    ensures LeadingDigits(a + ("-" + b), max) == |a|
    decreases |a|
  {
    if a == [] {
      assert a + ("-" + b) == "-" + b;
    } else {
      assert (a + ("-" + b))[1..] == a[1..] + ("-" + b);
      LeadingDigitsBeforeDash(a[1..], b, max - 1);
    }
  }

  lemma FieldThenDashOf(a: string, b: string, max: nat)
    requires AllDigits(a) && 1 <= |a| <= max
    ensures FieldThenDash(a + ("-" + b), max) == Some((Value(a), b))
  {
    LeadingDigitsBeforeDash(a, b, max);
    assert (a + ("-" + b))[..|a|] == a;
    assert (a + ("-" + b))[|a|..] == "-" + b;
    assert ("-" + b)[1..] == b;
  }

  /** A number that fits in `width` digits is written in exactly `width`
      digits, which read back as the number. */
  lemma FixedWidth(n: nat, width: nat)
    requires 1 <= width && n < Pow10(width)
    ensures |Decimal(n, width)| == width && Value(Decimal(n, width)) == n
  {
    DecimalLength(n, width);
    ValueOfDecimal(n, width);
  }

  lemma MonthAndDayFit(d: Date)
    ensures d.month < Pow10(2) && d.day < Pow10(2)
  {
    assert Pow10(2) == 100;
  }

  /** Parsing what `TO_CHAR` prints gives the date back, except for years past
      9999, whose fifth digit the 4-wide `%Y` field leaves unread. */
  lemma ParseFormat(d: Date)
    ensures Parse(Format(d)) == if d.year <= 9999 then Some(d) else None
  {
    if d.year <= 9999 {
      ParseFormatFourDigitYear(d);
    } else {
      ParseFormatLongYear(d);
    }
  }

  lemma ParseFormatFourDigitYear(d: Date)
    requires d.year <= 9999
    ensures Parse(Format(d)) == Some(d)
  {
    var y, m, dd := Decimal(d.year, 4), Decimal(d.month, 2), Decimal(d.day, 2);
    assert Pow10(4) == 10000;
    MonthAndDayFit(d);
    FixedWidth(d.year, 4);
    FixedWidth(d.month, 2);
    FixedWidth(d.day, 2);
    assert Format(d) == y + ("-" + (m + ("-" + dd)));
    FieldThenDashOf(y, m + ("-" + dd), 4);
    FieldThenDashOf(m, dd, 2);
    ScanField(dd, [], 2);
    ParseOfFields(Format(d), m + ("-" + dd), dd, d);
  }

  /** `Parse` assembled from its three fields. */
  lemma ParseOfFields(s: string, s1: string, s2: string, d: Date)
    requires FieldThenDash(s, 4) == Some((d.year, s1))
    requires FieldThenDash(s1, 2) == Some((d.month, s2))
    requires ScanNumber(s2 + [], 2) == Some((d.day, []))
    ensures Parse(s) == Some(d)
  {
    assert s2 + [] == s2;
  }

  lemma ParseFormatLongYear(d: Date)
    requires d.year > 9999
    ensures Parse(Format(d)) == None
  {
    var y := Decimal(d.year, 4);
    assert Pow10(4) == 10000;
    DecimalLength(d.year, 4);
    var tail := y[4..] + "-" + Decimal(d.month, 2) + "-" + Decimal(d.day, 2);
    assert Format(d) == y[..4] + tail;
    ScanField(y[..4], tail, 4);
    assert tail[0] == y[4];
  }

  /** For a canonical request date, the string comparison the SQL filters
      make is date equality. */
  lemma CanonicalMatch(s: string, x: Date)
    requires IsCanonical(s)
    ensures Format(x) == s <==> x == Parse(s).value
  {
    ParseFormat(x);
  }

  lemma FormatCanonical(d: Date)
    requires d.year <= 9999
    ensures IsCanonical(Format(d)) && Parse(Format(d)) == Some(d)
  {
    ParseFormat(d);
  }

  /** The same date written with a one-digit month, which chrono accepts. */
  function ShortMonth(d: Date): string
    requires d.month < 10
  {
    Decimal(d.year, 4) + "-" + Decimal(d.month, 1) + "-" + Decimal(d.day, 2)
  }

  /** chrono accepts unpadded fields, so a request date can denote a day while
      differing from every string `TO_CHAR` prints. */
  lemma ShortMonthNotCanonical(d: Date)
    requires d.month < 10 && d.year <= 9999
    ensures Parse(ShortMonth(d)) == Some(d)
    ensures forall x: Date :: Format(x) != ShortMonth(d)
  {
    ShortMonthParses(d);
    assert Pow10(1) == 10 && Pow10(4) == 10000;
    MonthAndDayFit(d);
    FixedWidth(d.year, 4);
    FixedWidth(d.month, 1);
    FixedWidth(d.day, 2);
    assert |ShortMonth(d)| == 9;
  }

  lemma ShortMonthParses(d: Date)
    requires d.month < 10 && d.year <= 9999
    ensures Parse(ShortMonth(d)) == Some(d)
  {
    var y, m, dd := Decimal(d.year, 4), Decimal(d.month, 1), Decimal(d.day, 2);
    assert Pow10(1) == 10 && Pow10(4) == 10000;
    MonthAndDayFit(d);
    FixedWidth(d.year, 4);
    FixedWidth(d.month, 1);
    FixedWidth(d.day, 2);
    var s := ShortMonth(d);
    assert s == y + ("-" + (m + ("-" + dd)));
    FieldThenDashOf(y, m + ("-" + dd), 4);
    FieldThenDashOf(m, dd, 2);
    assert dd + [] == dd;
    ScanField(dd, [], 2);
  }
}
