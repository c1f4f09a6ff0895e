/**
 The comment date: `datetime.strptime(s, '%Y-%m-%d %H:%M:%S')` followed by
 `strftime('%Y-%m-%dT%H:%M:%SZ')`, as Python 2.7 does them.

 Python's `_strptime` turns the format into the pattern
   (\d\d\d\d)-(1[0-2]|0[1-9]|[1-9])-(3[01]|[12]\d|0[1-9]|[1-9]| [1-9])\s+
   (2[0-3]|[0-1]\d|\d):([0-5]\d|\d):(6[0-1]|[0-5]\d|\d)
 matched at the start of the text, and fails when text is left over. So
 month, day, hour, minute and second may have one digit or two, the day may
 also be a space and one digit, and any run of ASCII whitespace separates
 date and time. The `datetime` constructor then rejects impossible days and
 seconds 60 and 61, and Python 2.7's `strftime` rejects years before 1900.
 */
module Dates {
  import opened Text

  datatype DateTime = DateTime(year: int, month: int, day: int, hour: int, minute: int, second: int)

  predicate IsLeapYear(y: int) {
    y % 4 == 0 && (y % 100 != 0 || y % 400 == 0)
  }

  function DaysInMonth(y: int, m: int): int
    requires 1 <= m <= 12
  {
    if m == 2 then (if IsLeapYear(y) then 29 else 28)
    else if m == 4 || m == 6 || m == 9 || m == 11 then 30
    else 31
  }

  /**
   Field values the pattern can match when each field is written with two
   digits (four for the year, here without a leading zero).
   */
  predicate InPattern(dt: DateTime) {
    && 1000 <= dt.year <= 9999
    && 1 <= dt.month <= 12
    && 1 <= dt.day <= 31
    && 0 <= dt.hour <= 23
    && 0 <= dt.minute <= 59
    && 0 <= dt.second <= 61
  }

  /** A date and time `datetime` accepts, with a year `strftime` accepts. */
  predicate Valid(dt: DateTime) {
    && InPattern(dt)
    && 1900 <= dt.year
    && dt.day <= DaysInMonth(dt.year, dt.month)
    && dt.second <= 59
  }

  // ---------------------------------------------------------------------
  // Parsing

  /** Whether `s` starts with four decimal digits, the `%Y` field. */
  predicate YearDigits(s: string) {
    |s| >= 4 && IsDigit(s[0]) && IsDigit(s[1]) && IsDigit(s[2]) && IsDigit(s[3])
  }

  function YearValue(s: string): nat
    requires YearDigits(s)
  {
    DigitValue(s[0]) * 1000 + DigitValue(s[1]) * 100 + DigitValue(s[2]) * 10 + DigitValue(s[3])
  }

  /** The number of decimal digits `s` starts with, counting at most three. */
  function LeadingDigits(s: string): (n: nat)
    ensures n <= 3 && n <= |s|
    ensures n > 0 ==> IsDigit(s[0])
    ensures n > 1 ==> IsDigit(s[1])
    ensures n < 3 && n < |s| ==> !IsDigit(s[n])
  {
    if |s| > 0 && IsDigit(s[0]) then
      if |s| > 1 && IsDigit(s[1]) then
        if |s| > 2 && IsDigit(s[2]) then 3 else 2
      else 1
    else 0
  }

  /**
   A field of one or two digits and the text after it. The pattern's
   alternatives for a field either take all of its digits or leave a digit
   where a separator or the end must come, so a field is exactly the run of
   digits before the next non-digit.
   */
  function ShortField(s: string): (r: Option<(nat, string)>)
    ensures r.Some? ==> r.value.0 <= 99
    ensures r.Some? ==> |r.value.1| < |s| && (|r.value.1| == 0 || !IsDigit(r.value.1[0]))
  {
    var n := LeadingDigits(s);
    if n == 1 then Some((DigitValue(s[0]), s[1..]))
    else if n == 2 then Some((DigitValue(s[0]) * 10 + DigitValue(s[1]), s[2..]))
    else None
  }

  /** A field followed by the separator `sep`, with its value in `lo..hi`. */
  function FieldThen(s: string, lo: nat, hi: nat, sep: char): Option<(nat, string)> {
    match ShortField(s)
    case Some((v, rest)) =>
      if lo <= v <= hi && |rest| > 0 && rest[0] == sep then Some((v, rest[1..])) else None
    case None => None
  }

  /** The day field: one or two digits, or a space and a digit 1-9, with a value in 1..31. */
  function DayField(s: string): Option<(nat, string)> {
    if |s| >= 2 && s[0] == ' ' && '1' <= s[1] <= '9' then Some((DigitValue(s[1]), s[2..]))
    else
      match ShortField(s)
      case Some((v, rest)) => if 1 <= v <= 31 then Some((v, rest)) else None
      case None => None
  }

  /** The number of whitespace characters `s` starts with. */
  function LeadingSpaces(s: string): (n: nat)
    ensures n <= |s|
    ensures forall k :: 0 <= k < n ==> IsSpace(s[k])
    ensures n < |s| ==> !IsSpace(s[n])
    decreases |s|
  {
    if |s| > 0 && IsSpace(s[0]) then 1 + LeadingSpaces(s[1..]) else 0
  }

  /** `%Y-%m-%d`: year, month and day, and the text after the day. */
  function ParseDate(s: string): Option<(nat, nat, nat, string)> {
    if |s| < 5 || !YearDigits(s) || s[4] != '-' then None
    else
      match FieldThen(s[5..], 1, 12, '-')
      case None => None
      case Some((month, afterMonth)) =>
        match DayField(afterMonth)
        case None => None
        case Some((day, rest)) => Some((YearValue(s), month, day, rest))
  }

  /** `%H:%M:%S`, which must take up all of the remaining text. */
  function ParseTime(s: string): Option<(nat, nat, nat)> {
    match FieldThen(s, 0, 23, ':')
    case None => None
    case Some((hour, afterHour)) =>
      match FieldThen(afterHour, 0, 59, ':')
      case None => None
      case Some((minute, afterMinute)) =>
        match ShortField(afterMinute)
        case None => None
        case Some((second, rest)) => if |rest| == 0 then Some((hour, minute, second)) else None
  }

  /** `datetime.strptime(s, '%Y-%m-%d %H:%M:%S')`, with the year limit `strftime` adds. */
  function ParseGmt(s: string): Option<DateTime> {
    match ParseDate(s)
    case None => None
    case Some((year, month, day, afterDay)) =>
      var gap := LeadingSpaces(afterDay);
      if gap == 0 then None
      else
        match ParseTime(afterDay[gap..])
        case None => None
        case Some((hour, minute, second)) =>
          var dt := DateTime(year, month, day, hour, minute, second);
          if Valid(dt) then Some(dt) else None
  }

  // ---------------------------------------------------------------------
  // Formatting

  /** `%m`, `%d`, `%H`, `%M`, `%S`: two digits, zero-padded. */
  function Pad2(v: nat): (r: string)
    requires v <= 99
    ensures |r| == 2 && IsDigit(r[0]) && IsDigit(r[1])
    ensures DigitValue(r[0]) * 10 + DigitValue(r[1]) == v
  {
    [DigitChar(v / 10), DigitChar(v % 10)]
  }

  /** `%Y` for four-digit years. */
  function Year4(y: nat): (r: string)
    requires 1000 <= y <= 9999
    ensures |r| == 4 && YearDigits(r)
    ensures YearValue(r) == y
  {
    var tens := y / 10;
    var hundreds := tens / 10;
    var thousands := hundreds / 10;
    [DigitChar(thousands), DigitChar(hundreds % 10), DigitChar(tens % 10), DigitChar(y % 10)]
  }

  /** `%Y-%m-%d` */
  function DateText(dt: DateTime): (r: string)
    requires InPattern(dt)
    ensures |r| == 10
  {
    Year4(dt.year) + "-" + Pad2(dt.month) + "-" + Pad2(dt.day)
  }

  /** `%H:%M:%S` */
  function TimeText(dt: DateTime): (r: string)
    requires InPattern(dt)
    ensures |r| == 8
  {
    Pad2(dt.hour) + ":" + Pad2(dt.minute) + ":" + Pad2(dt.second)
  }

  /** The source's format, `%Y-%m-%d %H:%M:%S`. */
  function GmtText(dt: DateTime): string
    requires InPattern(dt)
  {
    DateText(dt) + " " + TimeText(dt)
  }

  /** The comment's format, `%Y-%m-%dT%H:%M:%SZ`. */
  function IsoText(dt: DateTime): string
    requires InPattern(dt)
  {
    DateText(dt) + "T" + TimeText(dt) + "Z"
  }

  /** Line 107: the comment date rewritten, or `None` where Python raises ValueError. */
  function ReformatCommentDate(s: string): Option<string> {
    match ParseGmt(s)
    case Some(dt) => Some(IsoText(dt))
    case None => None
  }

  // ---------------------------------------------------------------------
  // Properties

  lemma DateTextShape(dt: DateTime)
    requires InPattern(dt)
    ensures var r := DateText(dt);
            r[4] == '-' && r[7] == '-' && forall k :: 0 <= k < 10 && k != 4 && k != 7 ==> IsDigit(r[k])
  {
    var y, mo, d := Year4(dt.year), Pad2(dt.month), Pad2(dt.day);
    var r := DateText(dt);
    forall k | 0 <= k < 10 && k != 4 && k != 7 ensures IsDigit(r[k]) {
      if k < 4 { assert r[k] == y[k]; }
      else if k < 7 { assert r[k] == mo[k - 5]; }
      else { assert r[k] == d[k - 8]; }
    }
  }

  lemma TimeTextShape(dt: DateTime)
    requires InPattern(dt)
    ensures var r := TimeText(dt);
            r[2] == ':' && r[5] == ':' && forall k :: 0 <= k < 8 && k != 2 && k != 5 ==> IsDigit(r[k])
  {
    var h, mi, se := Pad2(dt.hour), Pad2(dt.minute), Pad2(dt.second);
    var r := TimeText(dt);
    forall k | 0 <= k < 8 && k != 2 && k != 5 ensures IsDigit(r[k]) {
      if k < 2 { assert r[k] == h[k]; }
      else if k < 5 { assert r[k] == mi[k - 3]; }
      else { assert r[k] == se[k - 6]; }
    }
  }

  /** Every rewritten date has the shape `YYYY-MM-DDTHH:MM:SSZ`. */
  lemma ReformatShape(s: string)
    requires ReformatCommentDate(s).Some?
    ensures var r := ReformatCommentDate(s).value;
            && |r| == 20
            && r[4] == '-' && r[7] == '-' && r[10] == 'T' && r[13] == ':' && r[16] == ':' && r[19] == 'Z'
            && forall k :: 0 <= k < 20 && k !in {4, 7, 10, 13, 16, 19} ==> IsDigit(r[k])
  {
    var dt := ParseGmt(s).value;
    var d, t := DateText(dt), TimeText(dt);
    DateTextShape(dt);
    TimeTextShape(dt);
    var r := IsoText(dt);
    assert forall k :: 0 <= k < 10 ==> r[k] == d[k];
    assert forall k :: 11 <= k < 19 ==> r[k] == t[k - 11];
  }

  lemma ShortFieldPad2(v: nat, rest: string)
    requires v <= 99
    requires |rest| == 0 || !IsDigit(rest[0])
    ensures ShortField(Pad2(v) + rest) == Some((v, rest))
  {
    var s := Pad2(v) + rest;
    assert s[2..] == rest;
  }

  lemma ParseDateText(dt: DateTime, rest: string)
    requires InPattern(dt)
    requires |rest| > 0 && !IsDigit(rest[0])
    ensures ParseDate(DateText(dt) + rest) == Some((dt.year, dt.month, dt.day, rest))
  {
    var y := Year4(dt.year);
    var afterMonth := Pad2(dt.day) + rest;
    var afterYear := Pad2(dt.month) + ("-" + afterMonth);
    var s := DateText(dt) + rest;
    assert s == y + "-" + afterYear;
    assert s[..4] == y && s[5..] == afterYear;
    ShortFieldPad2(dt.month, "-" + afterMonth);
    ShortFieldPad2(dt.day, rest);
  }

  lemma ParseTimeText(dt: DateTime)
    requires InPattern(dt)
    ensures ParseTime(TimeText(dt)) == Some((dt.hour, dt.minute, dt.second))
  {
    var afterMinute := Pad2(dt.second);
    var afterHour := Pad2(dt.minute) + (":" + afterMinute);
    assert TimeText(dt) == Pad2(dt.hour) + (":" + afterHour);
    ShortFieldPad2(dt.hour, ":" + afterHour);
    ShortFieldPad2(dt.minute, ":" + afterMinute);
    ShortFieldPad2(dt.second, "");
    assert afterMinute + "" == afterMinute;
  }

  /**
   Text in the source's own format parses back to the date it spells when
   that date exists, and is rejected when it does not (February 30, a leap
   second, a year before 1900).
   */
  lemma ParseGmtText(dt: DateTime)
    requires InPattern(dt)
    ensures ParseGmt(GmtText(dt)) == if Valid(dt) then Some(dt) else None
  {
    var t := TimeText(dt);
    ParseDateText(dt, " " + t);
    assert GmtText(dt) == DateText(dt) + (" " + t);
    assert LeadingSpaces(" " + t) == 1 by {
      assert (" " + t)[1..] == t;
    }
    assert (" " + t)[1..] == t;
    ParseTimeText(dt);
  }

  /**
   A comment date in the canonical form `YYYY-MM-DD HH:MM:SS` is rewritten
   as `YYYY-MM-DDTHH:MM:SSZ`: the space becomes `T` and a `Z` is appended.
   */
  lemma ReformatCanonical(dt: DateTime)
    requires Valid(dt)
    ensures ReformatCommentDate(GmtText(dt)) == Some(GmtText(dt)[..10] + "T" + GmtText(dt)[11..] + "Z")
  {
    ParseGmtText(dt);
    var g := GmtText(dt);
    assert g[..10] == DateText(dt);
    assert g[11..] == TimeText(dt);
  }

  lemma LenientDate()
    ensures ParseDate("2010-1-5\t\t3:04:05") == Some((2010, 1, 5, "\t\t3:04:05"))
  {
    var s := "2010-1-5\t\t3:04:05";
    assert YearValue(s) == 2010;
    assert s[5..] == "1-5\t\t3:04:05";
    assert FieldThen("1-5\t\t3:04:05", 1, 12, '-') == Some((1, "5\t\t3:04:05"));
    assert DayField("5\t\t3:04:05") == Some((5, "\t\t3:04:05"));
  }

  lemma LenientGapAndTime()
    ensures LeadingSpaces("\t\t3:04:05") == 2
    ensures "\t\t3:04:05"[2..] == "3:04:05"
    ensures ParseTime("3:04:05") == Some((3, 4, 5))
  {
    var afterDay := "\t\t3:04:05";
    assert afterDay[1..] == "\t3:04:05";
    assert afterDay[1..][1..] == "3:04:05";
    assert FieldThen("3:04:05", 0, 23, ':') == Some((3, "04:05"));
    assert FieldThen("04:05", 0, 59, ':') == Some((4, "05"));
    assert ShortField("05") == Some((5, ""));
  }

  lemma LenientParse()
    ensures ParseGmt("2010-1-5\t\t3:04:05") == Some(DateTime(2010, 1, 5, 3, 4, 5))
  {
    LenientDate();
    LenientGapAndTime();
    ValidExample();
  }

  lemma ValidExample()
    ensures Valid(DateTime(2010, 1, 5, 3, 4, 5))
  {
  }

  lemma IsoTextExample()
    ensures Valid(DateTime(2010, 1, 5, 3, 4, 5))
    ensures IsoText(DateTime(2010, 1, 5, 3, 4, 5)) == "2010-01-05T03:04:05Z"
  {
    ValidExample();
    DateTextExample();
    TimeTextExample();
  }

  lemma DateTextExample()
    ensures DateText(DateTime(2010, 1, 5, 3, 4, 5)) == "2010-01-05"
  {
    Year4Example();
    assert Pad2(1) == "01" && Pad2(5) == "05";
  }

  lemma Year4Example()
    ensures Year4(2010) == "2010"
  {
  }

  lemma TimeTextExample()
    ensures TimeText(DateTime(2010, 1, 5, 3, 4, 5)) == "03:04:05"
  {
    assert Pad2(3) == "03" && Pad2(4) == "04" && Pad2(5) == "05";
  }

  /** `strptime` also takes one-digit fields and a run of tabs; the output is always padded. */
  lemma ReformatLenientExample()
    ensures ReformatCommentDate("2010-1-5\t\t3:04:05") == Some("2010-01-05T03:04:05Z")
  {
    LenientParse();
    IsoTextExample();
  }

  /** Rewriting a comment date fails exactly where the date does not exist. */
  lemma ReformatRejects(dt: DateTime)
    requires InPattern(dt) && !Valid(dt)
    ensures ReformatCommentDate(GmtText(dt)) == None
  {
    ParseGmtText(dt);
  }

  /** February 30, a year before 1900 and second 60 all make the importer stop. */
  lemma ReformatRejectsExamples()
    ensures ReformatCommentDate(GmtText(DateTime(2010, 2, 30, 0, 0, 0))) == None
    ensures ReformatCommentDate(GmtText(DateTime(1899, 12, 31, 23, 59, 59))) == None
    ensures ReformatCommentDate(GmtText(DateTime(2010, 6, 30, 23, 59, 60))) == None
  {
    ReformatRejects(DateTime(2010, 2, 30, 0, 0, 0));
    ReformatRejects(DateTime(1899, 12, 31, 23, 59, 59));
    ReformatRejects(DateTime(2010, 6, 30, 23, 59, 60));
  }
}
