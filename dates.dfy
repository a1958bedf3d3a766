/** The `Date` wrapper around time.Time and its JSON decoding: the raw token
    loses its first and last byte and what remains is parsed with the layout
    "02.01.2006", falling back (in the later revision) to "2006-01-02T00:00:00Z".
    A raw token is a string here: the first and last byte of every JSON value
    are ASCII and both layouts are ASCII only, so characters and bytes agree. */
module Dates {
  import opened Common
  import opened Text

  /** A calendar day.  The instant it stands for is midnight UTC of that day,
      which is all either layout (and a `date` column) can produce. */
  datatype Date = Date(year: int, month: int, day: int)

  /** time.Time's zero value, January 1 of year 1, midnight UTC: what IsZero tests for. */
  const ZeroDate: Date := Date(1, 1, 1)

  predicate IsZero(d: Date)
  {
    d == ZeroDate
  }

  /** The proleptic Gregorian leap-year rule that time uses. */
  predicate IsLeap(year: int)
  {
    year % 4 == 0 && (year % 100 != 0 || year % 400 == 0)
  }

  function DaysIn(month: int, year: int): (n: int)
    ensures 28 <= n <= 31
  {
    if month == 2 then (if IsLeap(year) then 29 else 28)
    else if month == 4 || month == 6 || month == 9 || month == 11 then 30
    else 31
  }

  predicate ValidDate(d: Date)
  {
    1 <= d.month <= 12 && 1 <= d.day <= DaysIn(d.month, d.year)
  }

  /** The years a four-digit "2006" field can hold. */
  predicate FourDigitYear(d: Date)
  {
    0 <= d.year <= 9999
  }

  /** time.Parse with layout "02.01.2006": two day digits, '.', two month
      digits, '.', four year digits and nothing after them; the fields must
      name a real calendar day. */
  function ParseDayFirst(s: string): (r: Option<Date>)
    ensures r.Some? ==> ValidDate(r.value) && FourDigitYear(r.value)
  {
    if |s| == 10 && s[2] == '.' && s[5] == '.'
       && AllDigits(s[0..2]) && AllDigits(s[3..5]) && AllDigits(s[6..10])
    then
      var d := Date(DigitsValue(s[6..10]), DigitsValue(s[3..5]), DigitsValue(s[0..2]));
      if ValidDate(d) then Some(d) else None
    else None
  }

  /** The part of the fallback layout after the date: in Go's layout language
      "T00:00:00Z" holds no field at all, so it must appear literally. */
  const MidnightUtc: string := "T00:00:00Z"

  /** time.Parse with layout "2006-01-02T00:00:00Z". */
  function ParseIsoMidnight(s: string): (r: Option<Date>)
    ensures r.Some? ==> ValidDate(r.value) && FourDigitYear(r.value)
  {
    if |s| == 20 && s[4] == '-' && s[7] == '-' && s[10..] == MidnightUtc
       && AllDigits(s[0..4]) && AllDigits(s[5..7]) && AllDigits(s[8..10])
    then
      var d := Date(DigitsValue(s[0..4]), DigitsValue(s[5..7]), DigitsValue(s[8..10]));
      if ValidDate(d) then Some(d) else None
    else None
  }

  function TwoDigits(n: nat): (s: string)
    requires n < 100
    ensures |s| == 2 && AllDigits(s)
  {
    [DigitChar(n / 10), DigitChar(n % 10)]
  }

  function FourDigits(n: nat): (s: string)
    requires n < 10000
    ensures |s| == 4 && AllDigits(s)
  {
    TwoDigits(n / 100) + TwoDigits(n % 100)
  }

  /** Format("02.01.2006"). */
  function FormatDayFirst(d: Date): (s: string)
    requires ValidDate(d) && FourDigitYear(d)
    ensures |s| == 10 && s[2] == '.' && s[5] == '.'
  {
    TwoDigits(d.day) + "." + TwoDigits(d.month) + "." + FourDigits(d.year)
  }

  /** Format("2006-01-02"): the text the handlers hand to the database. */
  function FormatIsoDay(d: Date): (s: string)
    requires ValidDate(d) && FourDigitYear(d)
    ensures |s| == 10 && s[4] == '-' && s[7] == '-'
  {
    FourDigits(d.year) + "-" + TwoDigits(d.month) + "-" + TwoDigits(d.day)
  }

  /** The raw token without its first and last byte; None where Go's slice
      expression data[1:len(data)-1] would panic. */
  function Unquote(raw: string): (r: Option<string>)
    ensures r.Some? <==> |raw| >= 2
    ensures r.Some? ==> raw == [raw[0]] + r.value + [raw[|raw| - 1]]
  {
    if |raw| >= 2 then Some(raw[1..|raw| - 1]) else None
  }

  datatype DateError = SliceOutOfRange | NoLayoutMatches

  /** (*Date).UnmarshalJSON of the structs package: the day-first layout, and
      only when it fails the midnight-UTC layout. */
  function UnmarshalDate(raw: string): (r: Result<Date, DateError>)
    ensures r.Ok? ==> ValidDate(r.value) && FourDigitYear(r.value)
    ensures r == Err(SliceOutOfRange) <==> |raw| < 2
  {
    match Unquote(raw)
    case None => Err(SliceOutOfRange)
    case Some(text) =>
      match ParseDayFirst(text)
      case Some(d) => Ok(d)
      case None =>
        match ParseIsoMidnight(text)
        case Some(d) => Ok(d)
        case None => Err(NoLayoutMatches)
  }

  /** (*Date).UnmarshalJSON of the main package: the day-first layout only. */
  function UnmarshalDateDayFirst(raw: string): (r: Result<Date, DateError>)
    ensures r.Ok? ==> ValidDate(r.value) && FourDigitYear(r.value)
    ensures r == Err(SliceOutOfRange) <==> |raw| < 2
  {
    match Unquote(raw)
    case None => Err(SliceOutOfRange)
    case Some(text) =>
      match ParseDayFirst(text)
      case Some(d) => Ok(d)
      case None => Err(NoLayoutMatches)
  }

  // ---- digits ----

  lemma DigitsValueTwo(s: string)
    requires |s| == 2 && AllDigits(s)
    ensures DigitsValue(s) == 10 * DigitValue(s[0]) + DigitValue(s[1])
  {
    assert s[..1][..0] == [];
  }

  lemma TwoDigitsRoundTrip(n: nat)
    requires n < 100
    ensures DigitsValue(TwoDigits(n)) == n
  {
    DigitsValueTwo(TwoDigits(n));
  }

  lemma DigitsTwoRoundTrip(s: string)
    requires |s| == 2 && AllDigits(s)
    ensures TwoDigits(DigitsValue(s)) == s
  {
    DigitsValueTwo(s);
    var n := DigitsValue(s);
    assert n / 10 == DigitValue(s[0]) && n % 10 == DigitValue(s[1]);
    assert DigitChar(DigitValue(s[0])) == s[0];
    assert DigitChar(DigitValue(s[1])) == s[1];
  }

  lemma DigitsValueFour(s: string)
    requires |s| == 4 && AllDigits(s)
    ensures DigitsValue(s) == 100 * DigitsValue(s[..2]) + DigitsValue(s[2..])
  {
    DigitsValueTwo(s[..2]);
    DigitsValueTwo(s[2..]);
    var p3 := s[..3];
    assert p3[..2] == s[..2];
    assert s[..|s| - 1] == p3;
    assert DigitsValue(p3) == DigitsValue(s[..2]) * 10 + DigitValue(s[2]);
  }

  lemma FourDigitsRoundTrip(n: nat)
    requires n < 10000
    ensures DigitsValue(FourDigits(n)) == n
  {
    var s := FourDigits(n);
    assert s[..2] == TwoDigits(n / 100) && s[2..] == TwoDigits(n % 100);
    DigitsValueFour(s);
    TwoDigitsRoundTrip(n / 100);
    TwoDigitsRoundTrip(n % 100);
  }

  lemma DigitsFourRoundTrip(s: string)
    requires |s| == 4 && AllDigits(s)
    ensures FourDigits(DigitsValue(s)) == s
  {
    DigitsValueFour(s);
    var n := DigitsValue(s);
    var hi, lo := DigitsValue(s[..2]), DigitsValue(s[2..]);
    assert n / 100 == hi && n % 100 == lo;
    DigitsTwoRoundTrip(s[..2]);
    DigitsTwoRoundTrip(s[2..]);
    assert s == s[..2] + s[2..];
  }

  // ---- the day-first layout ----

  /** Every calendar day with a four-digit year, printed day first, parses back to itself. */
  lemma ParseDayFirstFormat(d: Date)
    requires ValidDate(d) && FourDigitYear(d)
    ensures ParseDayFirst(FormatDayFirst(d)) == Some(d)
  {
    var s := FormatDayFirst(d);
    assert s[0..2] == TwoDigits(d.day);
    assert s[3..5] == TwoDigits(d.month);
    assert s[6..10] == FourDigits(d.year);
    TwoDigitsRoundTrip(d.day);
    TwoDigitsRoundTrip(d.month);
    FourDigitsRoundTrip(d.year);
  }

  /** The day-first layout accepts exactly the printed form of the day it returns. */
  lemma ParseDayFirstCanonical(s: string)
    requires ParseDayFirst(s).Some?
    ensures FormatDayFirst(ParseDayFirst(s).value) == s
  {
    DigitsTwoRoundTrip(s[0..2]);
    DigitsTwoRoundTrip(s[3..5]);
    DigitsFourRoundTrip(s[6..10]);
    assert s == s[0..2] + "." + s[3..5] + "." + s[6..10];
  }

  // ---- the midnight-UTC layout ----

  lemma ParseIsoMidnightFormat(d: Date)
    requires ValidDate(d) && FourDigitYear(d)
    ensures ParseIsoMidnight(FormatIsoDay(d) + MidnightUtc) == Some(d)
  {
    var s := FormatIsoDay(d) + MidnightUtc;
    assert s[0..4] == FourDigits(d.year);
    assert s[5..7] == TwoDigits(d.month);
    assert s[8..10] == TwoDigits(d.day);
    assert s[10..] == MidnightUtc;
    TwoDigitsRoundTrip(d.day);
    TwoDigitsRoundTrip(d.month);
    FourDigitsRoundTrip(d.year);
  }

  lemma ParseIsoMidnightCanonical(s: string)
    requires ParseIsoMidnight(s).Some?
    ensures FormatIsoDay(ParseIsoMidnight(s).value) + MidnightUtc == s
  {
    DigitsFourRoundTrip(s[0..4]);
    DigitsTwoRoundTrip(s[5..7]);
    DigitsTwoRoundTrip(s[8..10]);
    assert s == s[0..4] + "-" + s[5..7] + "-" + s[8..10] + s[10..];
  }

  // ---- UnmarshalJSON ----

  /** Both accepted spellings of a day decode to that day, whatever the first
      and last byte of the token are: they are dropped without being looked at. */
  lemma UnmarshalDateAccepts(d: Date, first: char, last: char)
    requires ValidDate(d) && FourDigitYear(d)
    ensures UnmarshalDate([first] + FormatDayFirst(d) + [last]) == Ok(d)
    ensures UnmarshalDate([first] + FormatIsoDay(d) + MidnightUtc + [last]) == Ok(d)
  {
    var dayFirst := [first] + FormatDayFirst(d) + [last];
    assert dayFirst[1..|dayFirst| - 1] == FormatDayFirst(d);
    ParseDayFirstFormat(d);
    var iso := [first] + (FormatIsoDay(d) + MidnightUtc) + [last];
    assert [first] + FormatIsoDay(d) + MidnightUtc + [last] == iso;
    assert iso[1..|iso| - 1] == FormatIsoDay(d) + MidnightUtc;
    ParseIsoMidnightFormat(d);
  }

  /** Nothing else decodes: a successful decode saw one of the two printed forms of its day. */
  lemma UnmarshalDateOnlyPrintedForms(raw: string)
    requires UnmarshalDate(raw).Ok?
    ensures var d := UnmarshalDate(raw).value; var text := raw[1..|raw| - 1];
      text == FormatDayFirst(d) || text == FormatIsoDay(d) + MidnightUtc
  {
    var text := raw[1..|raw| - 1];
    if ParseDayFirst(text).Some? {
      ParseDayFirstCanonical(text);
    } else {
      ParseIsoMidnightCanonical(text);
    }
  }

  /** No text fits both layouts, so trying the day-first layout first decides nothing. */
  lemma LayoutsDisjoint(s: string)
    ensures ParseDayFirst(s).None? || ParseIsoMidnight(s).None?
  {
  }

  /** The main package's decoder accepts a subset of what the structs package's
      decoder accepts and agrees with it there; the midnight-UTC form is what it lacks. */
  lemma DayFirstRevisionIsNarrower(raw: string, d: Date, first: char, last: char)
    requires ValidDate(d) && FourDigitYear(d)
    ensures UnmarshalDateDayFirst(raw).Ok? ==> UnmarshalDate(raw) == UnmarshalDateDayFirst(raw)
    ensures UnmarshalDateDayFirst([first] + FormatIsoDay(d) + MidnightUtc + [last]) == Err(NoLayoutMatches)
  {
    var iso := [first] + FormatIsoDay(d) + MidnightUtc + [last];
    assert |iso[1..|iso| - 1]| == 20;
  }

  /** The test's birth date: "01.01.2000" decodes to the day whose database form is 2000-01-01. */
  lemma ExampleBirthDate()
    ensures UnmarshalDate("\"01.01.2000\"") == Ok(Date(2000, 1, 1))
    ensures FormatIsoDay(Date(2000, 1, 1)) == "2000-01-01"
  {
    var d := Date(2000, 1, 1);
    assert FormatDayFirst(d) == "01.01.2000";
    UnmarshalDateAccepts(d, '"', '"');
    assert ['"'] + FormatDayFirst(d) + ['"'] == "\"01.01.2000\"";
  }

  /** "01.01.0001" is a valid date and decodes to the zero time, which IsZero reports as unset. */
  lemma YearOneIsZero()
    ensures UnmarshalDate("\"01.01.0001\"") == Ok(ZeroDate)
    ensures IsZero(UnmarshalDate("\"01.01.0001\"").value)
  {
    assert FormatDayFirst(ZeroDate) == "01.01.0001";
    UnmarshalDateAccepts(ZeroDate, '"', '"');
    assert ['"'] + FormatDayFirst(ZeroDate) + ['"'] == "\"01.01.0001\"";
  }
}
