/**
 * parse_date: read a timestamp in the form %Y-%m-%dT%H:%M:%SZ and render it
 * as %d %b %Y; any text that does not parse is passed through.
 */
module Dates {
  import opened Wrappers

  datatype DateTime = DateTime(year: int, month: int, day: int, hour: int, minute: int, second: int)

  /** The proleptic Gregorian rule. */
  predicate IsLeapYear(y: int)
    ensures IsLeapYear(y) ==> y % 4 == 0
  {
    (y % 4 == 0 && y % 100 != 0) || y % 400 == 0
  }

  function DaysInMonth(y: int, m: int): int
    requires 1 <= m <= 12
    ensures 28 <= DaysInMonth(y, m) <= 31
    ensures DaysInMonth(y, m) == 29 <==> m == 2 && IsLeapYear(y)
    ensures DaysInMonth(y, m) == 28 <==> m == 2 && !IsLeapYear(y)
  {
    if m == 2 then (if IsLeapYear(y) then 29 else 28)
    else if m == 4 || m == 6 || m == 9 || m == 11 then 30
    else 31
  }

  /** A moment that Python's datetime accepts (it refuses seconds 60 and 61). */
  predicate IsValid(d: DateTime)
    // 29 February exists only in leap years, and no month has a 32nd day
    ensures IsValid(d) && d.month == 2 && d.day == 29 ==> IsLeapYear(d.year)
    ensures IsValid(d) ==> d.day <= 31
  {
    && 1 <= d.year <= 9999
    && 1 <= d.month <= 12
    && 1 <= d.day <= DaysInMonth(d.year, d.month)
    && 0 <= d.hour < 24 && 0 <= d.minute < 60 && 0 <= d.second < 60
  }

  predicate IsDigit(c: char) {
    '0' <= c <= '9'
  }

  function DigitChar(n: int): (c: char)
    requires 0 <= n < 10
    ensures IsDigit(c)
  {
    (n + '0' as int) as char
  }

  function DigitValue(c: char): (n: nat)
    requires IsDigit(c)
    ensures n < 10
  {
    c as int - '0' as int
  }

  predicate AllDigits(s: string) {
    forall i :: 0 <= i < |s| ==> IsDigit(s[i])
  }

  /** The value of a run of decimal digits, as int() reads it. */
  function DigitsValue(s: string): (n: nat)
    requires AllDigits(s)
  {
    if s == [] then 0
    else DigitsValue(s[..|s| - 1]) * 10 + DigitValue(s[|s| - 1])
  }

  /** n rendered with exactly two digits, zero-padded (%d, %m, %H, %M, %S). */
  function Pad2(n: int): (s: string)
    requires 0 <= n < 100
    ensures |s| == 2 && AllDigits(s) && DigitsValue(s) == n
  {
    var s := [DigitChar(n / 10), DigitChar(n % 10)];
    TwoDigits(s);
    s
  }

  /** The value of two digits. */
  lemma TwoDigits(s: string)
    requires |s| == 2 && AllDigits(s)
    ensures DigitsValue(s) == DigitValue(s[0]) * 10 + DigitValue(s[1]) < 100
  {
    var p := s[..1];
    assert p[..0] == [] && p[0] == s[0];
    assert DigitsValue(p) == DigitValue(s[0]);
    assert s[..|s| - 1] == p;
    assert DigitsValue(s) == DigitsValue(p) * 10 + DigitValue(s[1]);
  }

  /** n rendered with exactly four digits, zero-padded (%Y). */
  function Pad4(n: int): (s: string)
    requires 0 <= n < 10000
    ensures |s| == 4 && AllDigits(s) && DigitsValue(s) == n
  {
    var s := Pad2(n / 100) + Pad2(n % 100);
    DigitsOfConcat(Pad2(n / 100), Pad2(n % 100));
    s
  }

  lemma DigitsOfConcat(a: string, b: string)
    requires |b| == 2 && AllDigits(a) && AllDigits(b)
    ensures AllDigits(a + b)
    ensures DigitsValue(a + b) == DigitsValue(a) * 100 + DigitsValue(b)
  {
    var s := a + b;
    var a1 := a + [b[0]];
    assert s[..|s| - 1] == a1;
    assert a1[..|a|] == a;
    assert DigitsValue(a1) == DigitsValue(a) * 10 + DigitValue(b[0]);
    assert DigitsValue(s) == DigitsValue(a1) * 10 + DigitValue(b[1]);
    TwoDigits(b);
  }

  /** The English month abbreviations of %b. */
  function MonthAbbreviation(m: int): (s: string)
    requires 1 <= m <= 12
    ensures |s| == 3
  {
    ["Jan", "Feb", "Mar", "Apr", "May", "Jun", "Jul", "Aug", "Sep", "Oct", "Nov", "Dec"][m - 1]
  }

  /**
   * Six fields in the source format, zero-padded, with upper-case T and Z;
   * any field values that fit the widths, valid as a moment or not.
   */
  function Format(year: int, month: int, day: int, hour: int, minute: int, second: int): (s: string)
    requires 0 <= year < 10000
    requires 0 <= month < 100 && 0 <= day < 100 && 0 <= hour < 100 && 0 <= minute < 100 && 0 <= second < 100
    ensures |s| == 20
  {
    Pad4(year) + "-" + Pad2(month) + "-" + Pad2(day) + "T"
    + Pad2(hour) + ":" + Pad2(minute) + ":" + Pad2(second) + "Z"
  }

  /** The timestamp of a valid moment in the source format. */
  function Iso(d: DateTime): (s: string)
    requires IsValid(d)
    ensures |s| == 20
  {
    Format(d.year, d.month, d.day, d.hour, d.minute, d.second)
  }

  /** Formatted fields have the shape of the source format, and each field reads back as its value. */
  lemma FormatReadsBack(year: int, month: int, day: int, hour: int, minute: int, second: int)
    requires 0 <= year < 10000
    requires 0 <= month < 100 && 0 <= day < 100 && 0 <= hour < 100 && 0 <= minute < 100 && 0 <= second < 100
    ensures var s := Format(year, month, day, hour, minute, second);
      && HasIsoShape(s)
      && DigitsValue(s[0..4]) == year && DigitsValue(s[5..7]) == month && DigitsValue(s[8..10]) == day
      && DigitsValue(s[11..13]) == hour && DigitsValue(s[14..16]) == minute && DigitsValue(s[17..19]) == second
  {
    var s := Format(year, month, day, hour, minute, second);
    assert s[0..4] == Pad4(year);
    assert s[5..7] == Pad2(month);
    assert s[8..10] == Pad2(day);
    assert s[11..13] == Pad2(hour);
    assert s[14..16] == Pad2(minute);
    assert s[17..19] == Pad2(second);
  }

  /** The display form %d %b %Y, for example "07 Jan 2024". */
  function Display(d: DateTime): (s: string)
    requires IsValid(d)
    ensures |s| == 11
  {
    Pad2(d.day) + " " + MonthAbbreviation(d.month) + " " + Pad4(d.year)
  }

  /**
   * The display form reads back: the two-digit day, a space, the month's
   * abbreviation, a space and the four-digit year.
   */
  lemma DisplayReadsBack(d: DateTime)
    requires IsValid(d)
    ensures var t := Display(d);
      && AllDigits(t[..2]) && DigitsValue(t[..2]) == d.day
      && t[2] == ' ' && t[3..6] == MonthAbbreviation(d.month) && t[6] == ' '
      && AllDigits(t[7..]) && DigitsValue(t[7..]) == d.year
  {
    var t := Display(d);
    assert t[..2] == Pad2(d.day);
    assert t[7..] == Pad4(d.year);
  }

  /** The positions of the source format that hold digits. */
  predicate IsDigitPosition(i: int) {
    0 <= i < 20 && i != 4 && i != 7 && i != 10 && i != 13 && i != 16 && i != 19
  }

  /**
   * s has the shape of the source format: twenty characters, digits where
   * the fields are, the separators, and 'T' and 'Z' in either case (strptime
   * matches the format ignoring case).
   */
  predicate HasIsoShape(s: string)
    // no field may be padded with a space
    ensures HasIsoShape(s) ==> ' ' !in s
  {
    && |s| == 20
    && (forall i :: 0 <= i < 20 && IsDigitPosition(i) ==> IsDigit(s[i]))
    && s[4] == '-' && s[7] == '-' && (s[10] == 'T' || s[10] == 't')
    && s[13] == ':' && s[16] == ':' && (s[19] == 'Z' || s[19] == 'z')
  }

  /** s spells d in the source format, up to the case of 'T' and 'Z'. */
  ghost predicate Spells(s: string, d: DateTime)
    requires IsValid(d)
  {
    |s| == 20 && (s[10] == 'T' || s[10] == 't') && (s[19] == 'Z' || s[19] == 'z')
    && forall i :: 0 <= i < 20 && i != 10 && i != 19 ==> s[i] == Iso(d)[i]
  }

  /** datetime.strptime(s, "%Y-%m-%dT%H:%M:%SZ") on fixed-width ASCII input. */
  function ParseIso(s: string): (r: Option<DateTime>)
    ensures r.Some? ==> IsValid(r.value) && Spells(s, r.value)
  {
    if !HasIsoShape(s) then None
    else
      var d := DateTime(DigitsValue(s[0..4]), DigitsValue(s[5..7]), DigitsValue(s[8..10]),
                        DigitsValue(s[11..13]), DigitsValue(s[14..16]), DigitsValue(s[17..19]));
      if IsValid(d) then
        IsoSpelling(s, d);
        Some(d)
      else None
  }

  /** Two digits are the zero-padded rendering of their value. */
  lemma Pad2OfDigits(s: string)
    requires |s| == 2 && AllDigits(s)
    ensures DigitsValue(s) < 100 && Pad2(DigitsValue(s)) == s
  {
    TwoDigits(s);
    var v := DigitsValue(s);
    assert v / 10 == DigitValue(s[0]) && v % 10 == DigitValue(s[1]);
  }

  /** Four digits are the zero-padded rendering of their value. */
  lemma Pad4OfDigits(s: string)
    requires |s| == 4 && AllDigits(s)
    ensures DigitsValue(s) < 10000 && Pad4(DigitsValue(s)) == s
  {
    var hi, lo := s[..2], s[2..];
    DigitsOfConcat(hi, lo);
    assert hi + lo == s;
    TwoDigits(hi);
    TwoDigits(lo);
    var v := DigitsValue(s);
    assert v == DigitsValue(hi) * 100 + DigitsValue(lo);
    assert v / 100 == DigitsValue(hi) && v % 100 == DigitsValue(lo);
    Pad2OfDigits(hi);
    Pad2OfDigits(lo);
  }

  lemma IsoSpelling(s: string, d: DateTime)
    requires HasIsoShape(s) && IsValid(d)
    requires d == DateTime(DigitsValue(s[0..4]), DigitsValue(s[5..7]), DigitsValue(s[8..10]),
                           DigitsValue(s[11..13]), DigitsValue(s[14..16]), DigitsValue(s[17..19]))
    ensures Spells(s, d)
  {
    Pad4OfDigits(s[0..4]);
    Pad2OfDigits(s[5..7]);
    Pad2OfDigits(s[8..10]);
    Pad2OfDigits(s[11..13]);
    Pad2OfDigits(s[14..16]);
    Pad2OfDigits(s[17..19]);
    var t := Iso(d);
    assert t[0..4] == s[0..4] && t[5..7] == s[5..7] && t[8..10] == s[8..10];
    assert t[11..13] == s[11..13] && t[14..16] == s[14..16] && t[17..19] == s[17..19];
    forall i | 0 <= i < 20 && i != 10 && i != 19 ensures s[i] == t[i] {
      if i < 4 { assert s[i] == s[0..4][i]; }
      else if 4 < i < 7 { assert s[i] == s[5..7][i - 5]; }
      else if 7 < i < 10 { assert s[i] == s[8..10][i - 8]; }
      else if 10 < i < 13 { assert s[i] == s[11..13][i - 11]; }
      else if 13 < i < 16 { assert s[i] == s[14..16][i - 14]; }
      else if 16 < i < 19 { assert s[i] == s[17..19][i - 17]; }
    }
  }

  /** Reading the source form of a valid moment gives that moment back. */
  lemma ParseIsoRoundTrip(d: DateTime)
    requires IsValid(d)
    ensures ParseIso(Iso(d)) == Some(d)
  {
    FormatReadsBack(d.year, d.month, d.day, d.hour, d.minute, d.second);
  }

  /**
   * parse_date: text that spells a valid moment in the source format is
   * shown as day, English month abbreviation and year; all other text is
   * returned unchanged.
   */
  function ParseDate(s: string): (r: string)
    ensures forall d :: IsValid(d) && Spells(s, d) ==> r == Display(d)
    ensures (forall d :: IsValid(d) ==> !Spells(s, d)) ==> r == s
  {
    ParsesExactlyWhatIsSpelt(s);
    match ParseIso(s)
    case Some(d) => Display(d)
    case None => s
  }

  /** ParseIso finds a moment exactly when s spells one, and then it finds that one. */
  lemma ParsesExactlyWhatIsSpelt(s: string)
    ensures forall d :: IsValid(d) && Spells(s, d) ==> ParseIso(s) == Some(d)
  {
    forall d | IsValid(d) && Spells(s, d) ensures ParseIso(s) == Some(d) {
      SpellingIsParsed(s, d);
    }
  }

  /** Two moments spelt by the same text are the same. */
  lemma SpellingDetermines(s: string, d1: DateTime, d2: DateTime)
    requires IsValid(d1) && IsValid(d2) && Spells(s, d1) && Spells(s, d2)
    ensures d1 == d2
  {
    var t1, t2 := Iso(d1), Iso(d2);
    assert forall i :: 0 <= i < 20 && i != 10 && i != 19 ==> t1[i] == t2[i];
    assert t1[0..4] == t2[0..4] && t1[5..7] == t2[5..7] && t1[8..10] == t2[8..10];
    assert t1[11..13] == t2[11..13] && t1[14..16] == t2[14..16] && t1[17..19] == t2[17..19];
    ParseIsoRoundTrip(d1);
    ParseIsoRoundTrip(d2);
  }

  /** Text that spells a valid moment parses. */
  lemma SpellingIsParsed(s: string, d: DateTime)
    requires IsValid(d) && Spells(s, d)
    ensures ParseIso(s) == Some(d)
  {
    var t := Iso(d);
    ParseIsoRoundTrip(d);
    assert HasIsoShape(t);
    assert s[0..4] == t[0..4] && s[5..7] == t[5..7] && s[8..10] == t[8..10];
    assert s[11..13] == t[11..13] && s[14..16] == t[14..16] && s[17..19] == t[17..19];
    assert HasIsoShape(s);
  }

  /** The zero-padded fields of the feed timestamp below. */
  lemma FeedTimestampFields()
    ensures Pad4(2024) == "2024"
    ensures Pad2(1) == "01" && Pad2(7) == "07" && Pad2(10) == "10" && Pad2(30) == "30" && Pad2(0) == "00"
  {
    assert Pad2(20) == "20" && Pad2(24) == "24";
  }

  /** The moment of the feed timestamp below, and its two renderings. */
  lemma FeedTimestampForms()
    ensures IsValid(DateTime(2024, 1, 7, 10, 30, 0))
    ensures Iso(DateTime(2024, 1, 7, 10, 30, 0)) == "2024-01-07T10:30:00Z"
    ensures Display(DateTime(2024, 1, 7, 10, 30, 0)) == "07 Jan 2024"
  {
    FeedTimestampFields();
  }

  /** A feed timestamp is shown as day, month and year. */
  lemma DisplaysFeedTimestamp()
    ensures ParseDate("2024-01-07T10:30:00Z") == "07 Jan 2024"
  {
    FeedTimestampForms();
    ParseIsoRoundTrip(DateTime(2024, 1, 7, 10, 30, 0));
  }

  /**
   * A timestamp whose day is past the end of its month is not a date, so
   * the text is returned as it is.
   */
  lemma KeepsImpossibleDay(year: int, month: int, day: int, hour: int, minute: int, second: int)
    requires 1 <= year < 10000 && 1 <= month <= 12 && DaysInMonth(year, month) < day < 100
    requires 0 <= hour < 24 && 0 <= minute < 60 && 0 <= second < 60
    ensures var s := Format(year, month, day, hour, minute, second); ParseDate(s) == s
  {
    FormatReadsBack(year, month, day, hour, minute, second);
  }

  /** The zero-padded fields of 29 February 2023, 10:30. */
  lemma February29Of2023Fields()
    ensures Pad4(2023) == "2023"
    ensures Pad2(2) == "02" && Pad2(29) == "29" && Pad2(10) == "10" && Pad2(30) == "30" && Pad2(0) == "00"
  {
    assert Pad2(20) == "20" && Pad2(23) == "23";
  }

  /** The formatted timestamp of 29 February 2023, 10:30. */
  lemma February29Of2023Format()
    ensures Format(2023, 2, 29, 10, 30, 0) == "2023-02-29T10:30:00Z"
  {
    February29Of2023Fields();
  }

  /** 2023 is not a leap year, so 29 February 2023 is kept as written. */
  lemma KeepsFebruary29Of2023()
    ensures ParseDate("2023-02-29T10:30:00Z") == "2023-02-29T10:30:00Z"
  {
    February29Of2023Format();
    KeepsImpossibleDay(2023, 2, 29, 10, 30, 0);
  }
}
