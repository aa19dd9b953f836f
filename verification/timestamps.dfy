/** Timestamp decoding (ts_parse in restapi.py).

    All three accepted layouts give naive datetimes: the "+00:00" and "Z"
    suffixes are matched as literal text and carry no zone. A datetime is
    represented by its distance in seconds from 0001-01-01T00:00:00, the
    quantity Python's datetime subtraction works with (ordinal day number
    times 86400 plus the time of day). */
module Timestamps {
  import opened Wrappers
  import opened Json

  datatype DateTime = DateTime(year: int, month: int, day: int, hour: int, minute: int, second: int)

  predicate IsLeapYear(y: int) {
    y % 4 == 0 && (y % 100 != 0 || y % 400 == 0)
  }

  function DaysInMonth(y: int, m: int): (n: int)
    requires 1 <= m <= 12
    ensures 28 <= n <= 31
  {
    if m == 2 then (if IsLeapYear(y) then 29 else 28)
    else if m == 4 || m == 6 || m == 9 || m == 11 then 30
    else 31
  }

  function DaysInYear(y: int): int {
    if IsLeapYear(y) then 366 else 365
  }

  /** The datetimes Python's datetime constructor accepts (it rejects a
      year 0, a day past the month's end and seconds 60 and 61). */
  predicate Valid(d: DateTime) {
    && 1 <= d.year <= 9999
    && 1 <= d.month <= 12
    && 1 <= d.day <= DaysInMonth(d.year, d.month)
    && 0 <= d.hour < 24
    && 0 <= d.minute < 60
    && 0 <= d.second < 60
  }

  /** Days in the months of year y that precede month m (m == 13: the whole year). */
  function DaysBeforeMonth(y: int, m: int): int
    requires 1 <= m <= 13
  {
    var common :=
      if m == 1 then 0 else if m == 2 then 31 else if m == 3 then 59
      else if m == 4 then 90 else if m == 5 then 120 else if m == 6 then 151
      else if m == 7 then 181 else if m == 8 then 212 else if m == 9 then 243
      else if m == 10 then 273 else if m == 11 then 304 else if m == 12 then 334
      else 365;
    common + (if m > 2 && IsLeapYear(y) then 1 else 0)
  }

  /** Days in the years before year y (proleptic Gregorian calendar). */
  function DaysBeforeYear(y: int): int
    requires y >= 1
  {
    var p := y - 1;
    365 * p + p / 4 - p / 100 + p / 400
  }

  /** The ordinal day number: 0001-01-01 is day 1. */
  function Ordinal(d: DateTime): int
    requires Valid(d)
  {
    DaysBeforeYear(d.year) + DaysBeforeMonth(d.year, d.month) + d.day
  }

  /** The instant a valid datetime denotes, in seconds. */
  function Seconds(d: DateTime): int
    requires Valid(d)
  {
    Ordinal(d) * 86400 + d.hour * 3600 + d.minute * 60 + d.second
  }

  /** Python's comparison of two naive datetimes: field by field. */
  predicate Before(d1: DateTime, d2: DateTime) {
    || d1.year < d2.year
    || (d1.year == d2.year && d1.month < d2.month)
    || (d1.year == d2.year && d1.month == d2.month && d1.day < d2.day)
    || (d1.year == d2.year && d1.month == d2.month && d1.day == d2.day && d1.hour < d2.hour)
    || (d1.year == d2.year && d1.month == d2.month && d1.day == d2.day && d1.hour == d2.hour
        && d1.minute < d2.minute)
    || (d1.year == d2.year && d1.month == d2.month && d1.day == d2.day && d1.hour == d2.hour
        && d1.minute == d2.minute && d1.second < d2.second)
  }

  lemma DaysBeforeMonthStep(y: int, m: int)
    requires 1 <= m <= 12
    ensures DaysBeforeMonth(y, m + 1) == DaysBeforeMonth(y, m) + DaysInMonth(y, m)
    ensures DaysBeforeMonth(y, 13) == DaysInYear(y)
    ensures forall m' :: m < m' <= 13 ==> DaysBeforeMonth(y, m + 1) <= DaysBeforeMonth(y, m')
  {
  }

  /** y / k counts the multiples of k among 1..y. */
  lemma QuotientStep(y: int, k: int)
    requires y >= 1 && (k == 4 || k == 100 || k == 400)
    ensures y / k == (y - 1) / k + (if y % k == 0 then 1 else 0)
  {
  }

  /** A multiple of 100 is a multiple of 4. */
  lemma MultipleOf100(y: int)
    requires y % 100 == 0
    ensures y % 4 == 0
  {
  }

  /** A multiple of 400 is a multiple of 100. */
  lemma MultipleOf400(y: int)
    requires y % 400 == 0
    ensures y % 100 == 0
  {
  }

  lemma DaysBeforeYearStep(y: int)
    requires y >= 1
    ensures DaysBeforeYear(y + 1) == DaysBeforeYear(y) + DaysInYear(y)
  {
    QuotientStep(y, 4);
    QuotientStep(y, 100);
    QuotientStep(y, 400);
    if y % 400 == 0 {
      MultipleOf400(y);
    }
    if y % 100 == 0 {
      MultipleOf100(y);
    }
  }

  lemma {:induction false} DaysBeforeYearMonotone(y1: int, y2: int)
    requires 1 <= y1 < y2
    ensures DaysBeforeYear(y1) + DaysInYear(y1) <= DaysBeforeYear(y2)
    decreases y2 - y1
  {
    DaysBeforeYearStep(y1);
    if y1 + 1 < y2 {
      DaysBeforeYearMonotone(y1 + 1, y2);
    }
  }

  /** The day number grows with the calendar date. */
  lemma OrdinalOrder(d1: DateTime, d2: DateTime)
    requires Valid(d1) && Valid(d2)
    requires d1.year < d2.year || (d1.year == d2.year && d1.month < d2.month)
             || (d1.year == d2.year && d1.month == d2.month && d1.day < d2.day)
    ensures Ordinal(d1) < Ordinal(d2)
  {
    DaysBeforeMonthStep(d1.year, d1.month);
    if d1.year < d2.year {
      DaysBeforeYearMonotone(d1.year, d2.year);
    }
  }

  /** Comparing the seconds of two datetimes is comparing the datetimes,
      so the model's integer timestamps order like Python's datetimes. */
  lemma SecondsOrder(d1: DateTime, d2: DateTime)
    requires Valid(d1) && Valid(d2)
    ensures Seconds(d1) < Seconds(d2) <==> Before(d1, d2)
    ensures Seconds(d1) == Seconds(d2) <==> d1 == d2
  {
    if d1.year < d2.year || (d1.year == d2.year && d1.month < d2.month)
       || (d1.year == d2.year && d1.month == d2.month && d1.day < d2.day) {
      OrdinalOrder(d1, d2);
    } else if d2.year < d1.year || (d2.year == d1.year && d2.month < d1.month)
       || (d2.year == d1.year && d2.month == d1.month && d2.day < d1.day) {
      OrdinalOrder(d2, d1);
    }
  }

  /** The three layouts of ts_formats, in their priority order. */
  datatype Format = OffsetSuffix | ZuluSuffix | NoSuffix

  const Formats: seq<Format> := [OffsetSuffix, ZuluSuffix, NoSuffix]

  /** The literal text each layout expects after the seconds. */
  function Suffix(f: Format): string {
    match f
    case OffsetSuffix => "+00:00"
    case ZuluSuffix => "Z"
    case NoSuffix => ""
  }

  /** strptime matches literal text ignoring case. */
  predicate SuffixMatches(f: Format, u: string) {
    match f
    case OffsetSuffix => u == "+00:00"
    case ZuluSuffix => u == "Z" || u == "z"
    case NoSuffix => u == ""
  }

  /** The number written by the n characters of s from position i, read
      digit by digit as strptime does; None when one is not an ASCII digit. */
  function Field(s: string, i: nat, n: nat): Option<int>
    requires i + n <= |s|
  {
    if n == 0 then Some(0)
    else
      match Field(s, i, n - 1)
      case None => None
      case Some(v) => if IsDigit(s[i + n - 1]) then Some(10 * v + DigitOf(s[i + n - 1])) else None
  }

  /** The separators of "YYYY-MM-DDTHH:MM:SS": '-', '-', 'T' (either case), ':', ':'. */
  predicate Separators(s: string)
    requires |s| >= 19
  {
    s[4] == '-' && s[7] == '-' && (s[10] == 'T' || s[10] == 't') && s[13] == ':' && s[16] == ':'
  }

  /** datetime.strptime(s, fmt) for one layout, with fixed-width fields:
      None where strptime raises. */
  function ParseDateTime(f: Format, s: string): (r: Option<DateTime>)
    ensures r.Some? ==> Valid(r.value) && |s| == 19 + |Suffix(f)|
  {
    if |s| != 19 + |Suffix(f)| || !SuffixMatches(f, s[19..]) || !Separators(s) then None
    else
      match (Field(s, 0, 4), Field(s, 5, 2), Field(s, 8, 2), Field(s, 11, 2), Field(s, 14, 2), Field(s, 17, 2))
      case (Some(year), Some(month), Some(day), Some(hour), Some(minute), Some(second)) =>
        var d := DateTime(year, month, day, hour, minute, second);
        if Valid(d) then Some(d) else None
      case _ => None
  }

  /** One layout's parse, as an instant. */
  function ParseAs(f: Format, s: string): Option<int> {
    match ParseDateTime(f, s)
    case None => None
    case Some(d) => Some(Seconds(d))
  }

  /** The first layout of fmts that parses s, or None. */
  function FirstParse(fmts: seq<Format>, s: string): Option<int> {
    if fmts == [] then None
    else if ParseAs(fmts[0], s).Some? then ParseAs(fmts[0], s)
    else FirstParse(fmts[1..], s)
  }

  /** What ts_parse returns. */
  function ParseTimestamp(s: string): Option<int> {
    FirstParse(Formats, s)
  }

  /** ts_parse: tries the layouts in order, stops at the first that parses,
      and returns None (never an exception) when none does. */
  method TsParse(ts: string) returns (dt: Option<int>)
    ensures dt == ParseTimestamp(ts)
  {
    for i := 0 to |Formats|
      invariant FirstParse(Formats[i..], ts) == ParseTimestamp(ts)
    {
      var attempt := ParseAs(Formats[i], ts);
      if attempt.Some? {
        return attempt;
      }
      assert Formats[i..][1..] == Formats[i + 1..];
    }
    return None;
  }

  /** The result is the parse of the first layout that succeeds; no later
      layout is consulted, and None means that no layout parses. */
  lemma {:induction false} FirstParseIsFirstSuccess(fmts: seq<Format>, s: string)
    ensures FirstParse(fmts, s).None? <==> forall i :: 0 <= i < |fmts| ==> ParseAs(fmts[i], s).None?
    ensures FirstParse(fmts, s).Some? ==>
              exists i :: 0 <= i < |fmts| && FirstParse(fmts, s) == ParseAs(fmts[i], s)
                          && forall j :: 0 <= j < i ==> ParseAs(fmts[j], s).None?
  {
    if fmts != [] && ParseAs(fmts[0], s).None? {
      FirstParseIsFirstSuccess(fmts[1..], s);
      if FirstParse(fmts[1..], s).Some? {
        var i :| 0 <= i < |fmts[1..]| && FirstParse(fmts[1..], s) == ParseAs(fmts[1..][i], s)
                  && forall j :: 0 <= j < i ==> ParseAs(fmts[1..][j], s).None?;
        assert FirstParse(fmts, s) == ParseAs(fmts[i + 1], s);
        assert forall j :: 0 <= j < i + 1 ==> ParseAs(fmts[j], s).None? by {
          forall j | 0 <= j < i + 1 ensures ParseAs(fmts[j], s).None? {
            if j > 0 { assert fmts[j] == fmts[1..][j - 1]; }
          }
        }
      }
      assert (forall i :: 0 <= i < |fmts[1..]| ==> ParseAs(fmts[1..][i], s).None?)
             <==> (forall i :: 1 <= i < |fmts| ==> ParseAs(fmts[i], s).None?) by {
        forall i | 1 <= i < |fmts| ensures fmts[i] == fmts[1..][i - 1] { }
      }
    }
  }

  /** "YYYY-MM-DDTHH:MM:SS" for a datetime, zero-padded. */
  function BaseText(d: DateTime): (t: string)
    requires Valid(d)
  {
    [DigitChar(d.year / 1000), DigitChar(d.year / 100 % 10), DigitChar(d.year / 10 % 10), DigitChar(d.year % 10),
     '-', DigitChar(d.month / 10), DigitChar(d.month % 10),
     '-', DigitChar(d.day / 10), DigitChar(d.day % 10),
     'T', DigitChar(d.hour / 10), DigitChar(d.hour % 10),
     ':', DigitChar(d.minute / 10), DigitChar(d.minute % 10),
     ':', DigitChar(d.second / 10), DigitChar(d.second % 10)]
  }

  /** The text of a datetime in one of the layouts. */
  function Render(f: Format, d: DateTime): (s: string)
    requires Valid(d)
  {
    BaseText(d) + Suffix(f)
  }

  /** Two zero-padded digits read back as the number they write. */
  lemma FieldOfDigits2(s: string, i: nat, n: int)
    requires 0 <= n < 100 && i + 2 <= |s|
    requires s[i] == DigitChar(n / 10) && s[i + 1] == DigitChar(n % 10)
    ensures Field(s, i, 2) == Some(n)
  {
    assert Field(s, i, 1) == Some(n / 10);
  }

  /** Four zero-padded digits read back as the number they write. */
  lemma FieldOfDigits4(s: string, i: nat, n: int)
    requires 0 <= n < 10000 && i + 4 <= |s|
    requires s[i] == DigitChar(n / 1000) && s[i + 1] == DigitChar(n / 100 % 10)
    requires s[i + 2] == DigitChar(n / 10 % 10) && s[i + 3] == DigitChar(n % 10)
    ensures Field(s, i, 4) == Some(n)
  {
    assert n / 100 / 10 == n / 1000;
    FieldOfDigits2(s, i, n / 100);
    assert n / 10 == 10 * (n / 100) + n / 10 % 10;
    assert Field(s, i, 3) == Some(n / 10);
    assert n == 10 * (n / 10) + n % 10;
  }

  /** The fields of "YYYY-MM-DDTHH:MM:SS" read back. */
  lemma BaseTextFields(d: DateTime)
    requires Valid(d)
    ensures Field(BaseText(d), 0, 4) == Some(d.year) && Field(BaseText(d), 5, 2) == Some(d.month)
    ensures Field(BaseText(d), 8, 2) == Some(d.day) && Field(BaseText(d), 11, 2) == Some(d.hour)
    ensures Field(BaseText(d), 14, 2) == Some(d.minute) && Field(BaseText(d), 17, 2) == Some(d.second)
  {
    var t := BaseText(d);
    FieldOfDigits4(t, 0, d.year);
    FieldOfDigits2(t, 5, d.month);
    FieldOfDigits2(t, 8, d.day);
    FieldOfDigits2(t, 11, d.hour);
    FieldOfDigits2(t, 14, d.minute);
    FieldOfDigits2(t, 17, d.second);
  }

  /** A field is read from its own characters only: text after it does not matter. */
  lemma {:induction false} FieldOfPrefix(t: string, u: string, i: nat, n: nat)
    requires i + n <= |t|
    ensures Field(t + u, i, n) == Field(t, i, n)
  {
    if n > 0 {
      FieldOfPrefix(t, u, i, n - 1);
      assert (t + u)[i + n - 1] == t[i + n - 1];
    }
  }

  /** A rendered datetime has the fixed layout and its fields read back. */
  lemma RenderFields(f: Format, d: DateTime)
    requires Valid(d)
    ensures |Render(f, d)| == 19 + |Suffix(f)| && Render(f, d)[19..] == Suffix(f) && Separators(Render(f, d))
    ensures Field(Render(f, d), 0, 4) == Some(d.year) && Field(Render(f, d), 5, 2) == Some(d.month)
    ensures Field(Render(f, d), 8, 2) == Some(d.day) && Field(Render(f, d), 11, 2) == Some(d.hour)
    ensures Field(Render(f, d), 14, 2) == Some(d.minute) && Field(Render(f, d), 17, 2) == Some(d.second)
  {
    var t, u := BaseText(d), Suffix(f);
    assert Render(f, d) == t + u;
    BaseTextFields(d);
    FieldOfPrefix(t, u, 0, 4);
    FieldOfPrefix(t, u, 5, 2);
    FieldOfPrefix(t, u, 8, 2);
    FieldOfPrefix(t, u, 11, 2);
    FieldOfPrefix(t, u, 14, 2);
    FieldOfPrefix(t, u, 17, 2);
  }

  /** Each layout reads back the datetime it renders. */
  lemma ParseRender(f: Format, d: DateTime)
    requires Valid(d)
    ensures ParseDateTime(f, Render(f, d)) == Some(d)
  {
    RenderFields(f, d);
  }

  /** Round trip through ts_parse: a datetime written in any of the three
      layouts is read back as the same instant. */
  lemma ParseTimestampRender(f: Format, d: DateTime)
    requires Valid(d)
    ensures ParseTimestamp(Render(f, d)) == Some(Seconds(d))
  {
    var s := Render(f, d);
    ParseRender(f, d);
    assert ParseAs(f, s) == Some(Seconds(d));
    assert |s| == 19 + |Suffix(f)|;
    assert Formats[1..] == [ZuluSuffix, NoSuffix] && Formats[2..] == [NoSuffix];
    match f
    case OffsetSuffix =>
    case ZuluSuffix =>
      assert ParseAs(OffsetSuffix, s).None?;
      assert FirstParse(Formats[1..], s) == ParseAs(ZuluSuffix, s);
    case NoSuffix =>
      assert ParseAs(OffsetSuffix, s).None? && ParseAs(ZuluSuffix, s).None?;
      assert FirstParse(Formats[2..], s) == ParseAs(NoSuffix, s);
      assert Formats[1..][1..] == Formats[2..];
      assert FirstParse(Formats[1..], s) == FirstParse(Formats[2..], s);
  }

  /** s is d written in layout f, up to the case of the 'T' separator and
      of a 'Z' suffix, which strptime matches either way. */
  predicate Spells(s: string, f: Format, d: DateTime) {
    && Valid(d)
    && |s| == 19 + |Suffix(f)|
    && (s[10] == 'T' || s[10] == 't')
    && SuffixMatches(f, s[19..])
    && forall i :: 0 <= i < 19 && i != 10 ==> s[i] == Render(f, d)[i]
  }

  /** Two characters that read as v are the two digits of v. */
  lemma FieldSpells2(s: string, i: nat)
    requires i + 2 <= |s| && Field(s, i, 2).Some?
    ensures 0 <= Field(s, i, 2).value < 100
    ensures s[i] == DigitChar(Field(s, i, 2).value / 10) && s[i + 1] == DigitChar(Field(s, i, 2).value % 10)
  {
    var a, b := DigitOf(s[i]), DigitOf(s[i + 1]);
    assert Field(s, i, 1) == Some(a);
    assert Field(s, i, 2) == Some(10 * a + b);
  }

  /** Four characters that read as v are the four digits of v. */
  lemma FieldSpells4(s: string, i: nat)
    requires i + 4 <= |s| && Field(s, i, 4).Some?
    ensures var v := Field(s, i, 4).value;
            && 0 <= v < 10000
            && s[i] == DigitChar(v / 1000) && s[i + 1] == DigitChar(v / 100 % 10)
            && s[i + 2] == DigitChar(v / 10 % 10) && s[i + 3] == DigitChar(v % 10)
  {
    assert Field(s, i, 3).Some? && IsDigit(s[i + 3]);
    assert Field(s, i, 2).Some? && IsDigit(s[i + 2]);
    FieldSpells2(s, i);
    var a, b, c, e := DigitOf(s[i]), DigitOf(s[i + 1]), DigitOf(s[i + 2]), DigitOf(s[i + 3]);
    assert Field(s, i, 2) == Some(10 * a + b);
    assert Field(s, i, 3) == Some(100 * a + 10 * b + c);
    assert Field(s, i, 4) == Some(1000 * a + 100 * b + 10 * c + e);
    DigitsOfFour(a, b, c, e);
  }

  /** The decimal digits of a four-digit number. */
  lemma DigitsOfFour(a: int, b: int, c: int, e: int)
    requires 0 <= a < 10 && 0 <= b < 10 && 0 <= c < 10 && 0 <= e < 10
    ensures var v := 1000 * a + 100 * b + 10 * c + e;
            && 0 <= v < 10000
            && v / 1000 == a && v / 100 % 10 == b && v / 10 % 10 == c && v % 10 == e
  {
    var v := 1000 * a + 100 * b + 10 * c + e;
    assert v / 10 == 100 * a + 10 * b + c && v % 10 == e;
    assert v / 100 == 10 * a + b;
  }

  /** A field is read from its own characters only. */
  lemma {:induction false} FieldAgree(s: string, t: string, i: nat, n: nat)
    requires i + n <= |s| && i + n <= |t|
    requires forall k :: i <= k < i + n ==> s[k] == t[k]
    ensures Field(s, i, n) == Field(t, i, n)
  {
    if n > 0 {
      FieldAgree(s, t, i, n - 1);
    }
  }

  /** Whatever one layout accepts spells the datetime it returns: no
      character of the text is skipped or misread. */
  lemma ParseIsRender(f: Format, s: string)
    requires ParseDateTime(f, s).Some?
    ensures Spells(s, f, ParseDateTime(f, s).value)
  {
    var d := ParseDateTime(f, s).value;
    assert Field(s, 0, 4) == Some(d.year) && Field(s, 5, 2) == Some(d.month) && Field(s, 8, 2) == Some(d.day);
    assert Field(s, 11, 2) == Some(d.hour) && Field(s, 14, 2) == Some(d.minute) && Field(s, 17, 2) == Some(d.second);
    SpellsOfFields(s, f, d);
  }

  /** A text with the layout's separators and suffix whose fields read as
      the fields of d spells d. */
  lemma SpellsOfFields(s: string, f: Format, d: DateTime)
    requires Valid(d) && |s| == 19 + |Suffix(f)| && SuffixMatches(f, s[19..]) && Separators(s)
    requires Field(s, 0, 4) == Some(d.year) && Field(s, 5, 2) == Some(d.month) && Field(s, 8, 2) == Some(d.day)
    requires Field(s, 11, 2) == Some(d.hour) && Field(s, 14, 2) == Some(d.minute) && Field(s, 17, 2) == Some(d.second)
    ensures Spells(s, f, d)
  {
    FieldSpells4(s, 0);
    FieldSpells2(s, 5);
    FieldSpells2(s, 8);
    FieldSpells2(s, 11);
    FieldSpells2(s, 14);
    FieldSpells2(s, 17);
    SpellsOfDigits(s, f, d);
  }

  /** A text with the layout's separators and suffix whose digits are those
      of d spells d. */
  lemma SpellsOfDigits(s: string, f: Format, d: DateTime)
    requires Valid(d) && |s| == 19 + |Suffix(f)| && SuffixMatches(f, s[19..]) && Separators(s)
    requires s[0] == DigitChar(d.year / 1000) && s[1] == DigitChar(d.year / 100 % 10)
    requires s[2] == DigitChar(d.year / 10 % 10) && s[3] == DigitChar(d.year % 10)
    requires s[5] == DigitChar(d.month / 10) && s[6] == DigitChar(d.month % 10)
    requires s[8] == DigitChar(d.day / 10) && s[9] == DigitChar(d.day % 10)
    requires s[11] == DigitChar(d.hour / 10) && s[12] == DigitChar(d.hour % 10)
    requires s[14] == DigitChar(d.minute / 10) && s[15] == DigitChar(d.minute % 10)
    requires s[17] == DigitChar(d.second / 10) && s[18] == DigitChar(d.second % 10)
    ensures Spells(s, f, d)
  {
    var r := Render(f, d);
    assert forall i :: 0 <= i < 19 ==> r[i] == BaseText(d)[i];
  }

  /** Whatever spells a valid datetime in a layout, in either case of 'T'
      and 'Z', is accepted by that layout as that datetime. */
  lemma ParseSpelled(f: Format, s: string, d: DateTime)
    requires Spells(s, f, d)
    ensures ParseDateTime(f, s) == Some(d)
  {
    var r := Render(f, d);
    RenderFields(f, d);
    FieldAgree(s, r, 0, 4);
    FieldAgree(s, r, 5, 2);
    FieldAgree(s, r, 8, 2);
    FieldAgree(s, r, 11, 2);
    FieldAgree(s, r, 14, 2);
    FieldAgree(s, r, 17, 2);
  }

  /** One layout accepts exactly the texts that spell a valid datetime in
      it, and returns that datetime. */
  lemma ParseDateTimeExact(f: Format, s: string, d: DateTime)
    ensures ParseDateTime(f, s) == Some(d) <==> Spells(s, f, d)
  {
    if ParseDateTime(f, s) == Some(d) {
      ParseIsRender(f, s);
    }
    if Spells(s, f, d) {
      ParseSpelled(f, s, d);
    }
  }

  /** ts_parse accepts a text that spells a valid datetime in any layout,
      and returns that datetime's instant. */
  lemma ParseTimestampSpelled(s: string, f: Format, d: DateTime)
    requires Spells(s, f, d)
    ensures ParseTimestamp(s) == Some(Seconds(d))
  {
    ParseSpelled(f, s, d);
    assert ParseAs(f, s) == Some(Seconds(d));
    assert Formats[1..] == [ZuluSuffix, NoSuffix] && Formats[2..] == [NoSuffix];
    match f
    case OffsetSuffix =>
    case ZuluSuffix =>
      assert ParseAs(OffsetSuffix, s).None?;
      assert FirstParse(Formats[1..], s) == ParseAs(ZuluSuffix, s);
    case NoSuffix =>
      assert ParseAs(OffsetSuffix, s).None? && ParseAs(ZuluSuffix, s).None?;
      assert FirstParse(Formats[2..], s) == ParseAs(NoSuffix, s);
      assert Formats[1..][1..] == Formats[2..];
      assert FirstParse(Formats[1..], s) == FirstParse(Formats[2..], s);
  }

  /** Conversely, every text ts_parse accepts spells, in some layout, a
      valid datetime whose instant it returns: any other text gives None. */
  lemma ParseTimestampSpells(s: string)
    requires ParseTimestamp(s).Some?
    ensures exists f, d :: Spells(s, f, d) && ParseTimestamp(s) == Some(Seconds(d))
  {
    FirstParseIsFirstSuccess(Formats, s);
    var i :| 0 <= i < |Formats| && ParseTimestamp(s) == ParseAs(Formats[i], s);
    var f := Formats[i];
    var d := ParseDateTime(f, s).value;
    ParseIsRender(f, s);
    assert Spells(s, f, d) && ParseTimestamp(s) == Some(Seconds(d));
  }

  /** ts_parse applied to a field of a JSON object, as in
      ts_parse(record['start_date']): None when the field is not a string
      (strptime raises on a non-string, and ts_parse catches it). None also
      stands for a missing field, where the lookup raises KeyError before
      ts_parse runs; every caller fails on either. */
  function TimeField(o: Object, field: string): Option<int> {
    if field in o && o[field].Str? then ParseTimestamp(o[field].s) else None
  }

  method ReadTimeField(o: Object, field: string) returns (t: Option<int>)
    ensures t == TimeField(o, field)
  {
    t := None;
    if field in o && o[field].Str? {
      t := TsParse(o[field].s);
    }
  }
}
