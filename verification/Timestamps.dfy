/** The timestamp of a page: instants of the proleptic Gregorian calendar, their text, and reading it back. */
module Timestamps {
  import opened Outcomes
  import opened Texts

  datatype Instant = Instant(year: nat, month: nat, day: nat, hour: nat, minute: nat, second: nat)

  predicate Leap(year: nat) { year % 4 == 0 && (year % 100 != 0 || year % 400 == 0) }

  function DaysIn(year: nat, month: nat): nat {
    if month == 2 then (if Leap(year) then 29 else 28) else if month in {4, 6, 9, 11} then 30 else 31
  }

  predicate ValidInstant(t: Instant) {
    1 <= t.year <= 9999 && 1 <= t.month <= 12 && 1 <= t.day <= DaysIn(t.year, t.month)
    && t.hour < 24 && t.minute < 60 && t.second < 60
  }

  function DaysBefore(year: nat, month: nat): nat {
    if month <= 1 then 0 else DaysBefore(year, month - 1) + DaysIn(year, month - 1)
  }

  /** Days since the last day of the year 0. */
  function Ordinal(t: Instant): int {
    var y := t.year - 1;
    y * 365 + y / 4 - y / 100 + y / 400 + DaysBefore(t.year, t.month) + t.day
  }

  /** Monday is 0. */
  function Weekday(t: Instant): (n: nat)
    ensures n < 7
  {
    (Ordinal(t) + 6) % 7
  }

  /** Seconds since 1970. */
  function Seconds(t: Instant): int {
    (Ordinal(t) - 719_163) * 86_400 + t.hour * 3_600 + t.minute * 60 + t.second
  }

  /** datetime.fromtimestamp in UTC: the instant of a second, if it has one. */
  type Calendar = c: int -> Option<Instant>
    | forall s :: c(s).Some? ==> ValidInstant(c(s).value) && Seconds(c(s).value) == s
    witness s => None

  const WEEKDAYS: seq<string> := ["Mon", "Tue", "Wed", "Thu", "Fri", "Sat", "Sun"]
  const MONTHS: seq<string> := ["Jan", "Feb", "Mar", "Apr", "May", "Jun", "Jul", "Aug", "Sep", "Oct", "Nov", "Dec"]

  /** The names of section 3.3 of RFC 5322, in calendar order from Monday and from January, read letter by letter. */
  lemma DayNames(i: nat)
    requires i < 7
    ensures |WEEKDAYS| == 7 && WEEKDAYS[i] == ["MTWTFSS"[i], "ouehrau"[i], "neduitn"[i]]
  {
    var name := [WEEKDAYS[i][0], WEEKDAYS[i][1], WEEKDAYS[i][2]];
    assert WEEKDAYS[i] == name;
  }

  lemma MonthNames(i: nat)
    requires i < 12
    ensures |MONTHS| == 12 && MONTHS[i] == ["JFMAMJJASOND"[i], "aeapauuuecoe"[i], "nbrrynlgptvc"[i]]
  {
    var name := [MONTHS[i][0], MONTHS[i][1], MONTHS[i][2]];
    assert MONTHS[i] == name;
  }

  function DigitOf(n: nat): char { ('0' as int + n % 10) as char }

  function Two(n: nat): (s: string)
    ensures |s| == 2
  {
    [DigitOf(n / 10), DigitOf(n)]
  }

  function Four(n: nat): (s: string)
    ensures |s| == 4
  {
    Two(n / 100) + Two(n % 100)
  }

  function FormatInstant(t: Instant): string
    requires ValidInstant(t)
  {
    WEEKDAYS[Weekday(t)] + ", " + Two(t.day) + " " + MONTHS[t.month - 1] + " " + Four(t.year) + " "
    + Two(t.hour) + ":" + Two(t.minute) + ":" + Two(t.second) + " UTC"
  }

  /** format_last_crawled */
  function FormatLastCrawled(c: Calendar, milliseconds: int): Result<string> {
    if !(0 <= milliseconds <= MAX_EXACT_INTEGER) then Err("INVALID_UNSIGNED_DECIMAL")
    else
      match c(milliseconds / 1000)
      case None => Err("INVALID_TIMESTAMP")
      case Some(t) => Ok(FormatInstant(t))
  }

  /** The place of a name, or the length. */
  function IndexOf(names: seq<string>, name: string): (n: nat)
    ensures n <= |names| && (n < |names| ==> names[n] == name)
  {
    if names == [] || names[0] == name then 0 else 1 + IndexOf(names[1..], name)
  }

  /** Weekday, day, month, year and time of day at their places. */
  predicate TimestampShape(s: string) {
    && |s| == 29 && s[3..5] == ", " && s[7] == ' ' && s[11] == ' ' && s[16] == ' ' && s[19] == ':' && s[22] == ':'
    && s[25..] == " UTC"
    && AllDigits(s[5..7]) && AllDigits(s[12..16])
    && AllDigits(s[17..19]) && AllDigits(s[20..22]) && AllDigits(s[23..25])
    && s[..3] in WEEKDAYS && s[8..11] in MONTHS
  }

  /** The timestamp check of a page_fields chunk, and the instant it reads. */
  function ParseTimestamp(s: string): Option<Instant> {
    if !TimestampShape(s) then None
    else
      var t := Instant(Value(s[12..16]), IndexOf(MONTHS, s[8..11]) + 1, Value(s[5..7]), Value(s[17..19]),
                       Value(s[20..22]), Value(s[23..25]));
      if !ValidInstant(t) || WEEKDAYS[Weekday(t)] != s[..3] then None else Some(t)
  }

  //////////////////////////////////////////////////////////////////////////////
  // Reading back what was written
  //////////////////////////////////////////////////////////////////////////////

  lemma TwoValue(n: nat)
    requires n < 100
    ensures AllDigits(Two(n)) && Value(Two(n)) == n
  {
    var s := Two(n);
    assert n / 10 < 10 && s[..1] == [s[0]] && s[..1][..0] == "";
    ValueStep(s);
    ValueStep(s[..1]);
    ValueOfNothing();
    hide Value;
  }

  /** Four digits are two pairs. */
  lemma PairValues(s: string)
    requires |s| == 4 && AllDigits(s)
    ensures AllDigits(s[..2]) && AllDigits(s[2..]) && Value(s) == 100 * Value(s[..2]) + Value(s[2..])
  {
    var last := s[2..];
    assert s[..3][..2] == s[..2] && last[..1] == [s[2]] && last[..1][..0] == "";
    assert forall i :: 0 <= i < 4 ==> s[i] in s;
    ValueStep(s);
    ValueStep(s[..3]);
    ValueStep(last);
    ValueStep(last[..1]);
    ValueOfNothing();
    hide Value, Digit;
  }

  lemma FourValue(n: nat)
    requires n < 10000
    ensures AllDigits(Four(n)) && Value(Four(n)) == n
  {
    hide Value, Two;
    var a, c := Two(n / 100), Two(n % 100);
    TwoValue(n / 100);
    TwoValue(n % 100);
    assert (a + c)[..2] == a && (a + c)[2..] == c;
    PairValues(a + c);
  }

  lemma {:induction false} IndexOfAt(names: seq<string>, k: nat)
    requires k < |names| && forall i, j :: 0 <= i < j < |names| ==> names[i] != names[j]
    ensures IndexOf(names, names[k]) == k
  {
    if k > 0 {
      IndexOfAt(names[1..], k - 1);
    }
  }

  lemma MonthsDiffer()
    ensures forall i, j :: 0 <= i < j < 12 ==> MONTHS[i] != MONTHS[j]
  {
    forall i, j | 0 <= i < j < 12 ensures MONTHS[i] != MONTHS[j] {
      assert MONTHS[i][0] != MONTHS[j][0] || MONTHS[i][1] != MONTHS[j][1] || MONTHS[i][2] != MONTHS[j][2];
    }
  }

  lemma NameLengths()
    ensures |WEEKDAYS| == 7 && forall i :: 0 <= i < 7 ==> |WEEKDAYS[i]| == 3
    ensures |MONTHS| == 12 && forall i :: 0 <= i < 12 ==> |MONTHS[i]| == 3
  {
  }

  /** Where the parts of the text stand. */
  lemma FormatPlaces(w: string, d: string, m: string, y: string, h: string, n: string, s: string)
    requires |w| == 3 && |d| == 2 && |m| == 3 && |y| == 4 && |h| == 2 && |n| == 2 && |s| == 2
    ensures var r := w + ", " + d + " " + m + " " + y + " " + h + ":" + n + ":" + s + " UTC";
      && |r| == 29 && r[..3] == w && r[3..5] == ", " && r[5..7] == d && r[7] == ' ' && r[8..11] == m && r[11] == ' '
      && r[12..16] == y && r[16] == ' ' && r[17..19] == h && r[19] == ':' && r[20..22] == n && r[22] == ':'
      && r[23..25] == s && r[25..] == " UTC"
  {
  }

  /** A formatted instant passes the check, and is read back whole. */
  lemma TimestampRoundTrip(t: Instant)
    requires ValidInstant(t)
    ensures ParseTimestamp(FormatInstant(t)) == Some(t)
  {
    hide Weekday, Two, Four, Value, AllDigits, IndexOf, DaysIn, WEEKDAYS, MONTHS;
    NamesKnown(t);
    var w, m := WEEKDAYS[Weekday(t)], MONTHS[t.month - 1];
    assert 1 <= t.day <= 31 by { DaysBound(t.year, t.month); }
    FormatPlaces(w, Two(t.day), m, Four(t.year), Two(t.hour), Two(t.minute), Two(t.second));
    TwoValue(t.day);
    FourValue(t.year);
    TwoValue(t.hour);
    TwoValue(t.minute);
    TwoValue(t.second);
  }

  lemma DaysBound(year: nat, month: nat)
    ensures 28 <= DaysIn(year, month) <= 31
  {
  }

  lemma NamesKnown(t: Instant)
    requires ValidInstant(t)
    ensures |WEEKDAYS| == 7 && |MONTHS| == 12
    ensures var w, m := WEEKDAYS[Weekday(t)], MONTHS[t.month - 1];
      |w| == 3 && |m| == 3 && w in WEEKDAYS && m in MONTHS && IndexOf(MONTHS, m) == t.month - 1
  {
    hide Weekday, WEEKDAYS, MONTHS, IndexOf;
    NameLengths();
    MonthsDiffer();
    IndexOfAt(MONTHS, t.month - 1);
  }

  lemma DigitOfText(c: char)
    requires Digit(c)
    ensures DigitOf(c as int - '0' as int) == c
  {
  }

  lemma TwoOfValue(d: string)
    requires |d| == 2 && AllDigits(d)
    ensures Two(Value(d)) == d && Value(d) < 100
  {
    assert d[0] in d && d[1] in d && d[..1] == [d[0]] && d[..1][..0] == "";
    ValueStep(d);
    ValueStep(d[..1]);
    ValueOfNothing();
    var x, y := d[0] as int - '0' as int, d[1] as int - '0' as int;
    DivideByTen(x, y);
    DigitOfText(d[0]);
    DigitOfText(d[1]);
    assert y % 10 == y;
    hide Value, AllDigits;
  }

  lemma FourOfValue(d: string)
    requires |d| == 4 && AllDigits(d)
    ensures Four(Value(d)) == d
  {
    hide Value, Two, Digit;
    PairValues(d);
    TwoOfValue(d[..2]);
    TwoOfValue(d[2..]);
    var a, c := Value(d[..2]), Value(d[2..]);
    assert (100 * a + c) / 100 == a && (100 * a + c) % 100 == c;
    assert d == d[..2] + d[2..];
  }

  lemma TextOfPlaces(s: string)
    requires TimestampShape(s)
    ensures s == s[..3] + ", " + s[5..7] + " " + s[8..11] + " " + s[12..16] + " " + s[17..19] + ":" + s[20..22] + ":"
                 + s[23..25] + " UTC"
  {
    hide AllDigits, WEEKDAYS, MONTHS;
    assert s == s[..3] + s[3..5] + s[5..7] + s[7..8] + s[8..11] + s[11..12] + s[12..16] + s[16..17] + s[17..19]
                + s[19..20] + s[20..22] + s[22..23] + s[23..25] + s[25..];
    assert s[7..8] == " " && s[11..12] == " " && s[16..17] == " " && s[19..20] == ":" && s[22..23] == ":";
  }

  /** The check passes exactly the texts of instants, and reads the instant. */
  lemma TimestampExactly(s: string, t: Instant)
    ensures ParseTimestamp(s) == Some(t) <==> ValidInstant(t) && s == FormatInstant(t)
  {
    hide Weekday, Two, Four, Value, AllDigits, DaysIn, WEEKDAYS, MONTHS, FormatInstant, TimestampShape, IndexOf;
    if ValidInstant(t) { TimestampRoundTrip(t); }
    if ParseTimestamp(s) == Some(t) {
      ReadText(s, t);
    }
  }

  lemma ReadText(s: string, t: Instant)
    requires ParseTimestamp(s) == Some(t)
    ensures ValidInstant(t) && s == FormatInstant(t)
  {
    hide Weekday, Two, Four, Value, AllDigits, DaysIn, WEEKDAYS, MONTHS;
    NameLengths();
    TextOfPlaces(s);
    TwoOfValue(s[5..7]);
    FourOfValue(s[12..16]);
    TwoOfValue(s[17..19]);
    TwoOfValue(s[20..22]);
    TwoOfValue(s[23..25]);
    assert IndexOf(MONTHS, s[8..11]) < |MONTHS|;
    hide TimestampShape, IndexOf;
  }

  /** The timestamp of an output names the second of the request it is taken from. */
  lemma LastCrawledNames(c: Calendar, milliseconds: int)
    requires FormatLastCrawled(c, milliseconds).Ok?
    ensures var t := ParseTimestamp(FormatLastCrawled(c, milliseconds).value);
      t.Some? && ValidInstant(t.value) && Seconds(t.value) == milliseconds / 1000
  {
    hide ParseTimestamp, FormatInstant, Seconds;
    TimestampRoundTrip(c(milliseconds / 1000).value);
  }

  //////////////////////////////////////////////////////////////////////////////
  // The calendar
  //////////////////////////////////////////////////////////////////////////////

  /** How many days February has, by the rule of the Gregorian calendar. */
  function February(year: nat): nat {
    if year % 400 == 0 then 29 else if year % 100 == 0 then 28 else if year % 4 == 0 then 29 else 28
  }

  function MonthLength(year: nat, month: nat): nat {
    match month
    case 1 => 31 case 2 => February(year) case 3 => 31 case 4 => 30 case 5 => 31 case 6 => 30
    case 7 => 31 case 8 => 31 case 9 => 30 case 10 => 31 case 11 => 30 case _ => 31
  }

  /** The next day at the same time. */
  function NextDay(t: Instant): Instant {
    if t.day < MonthLength(t.year, t.month) then t.(day := t.day + 1)
    else if t.month < 12 then t.(day := 1, month := t.month + 1)
    else t.(day := 1, month := 1, year := t.year + 1)
  }

  lemma MonthsAgree(year: nat, month: nat)
    requires 1 <= month <= 12
    ensures DaysIn(year, month) == MonthLength(year, month)
  {
    LeapFebruary(year);
    hide Leap, February;
  }

  lemma LeapFebruary(year: nat)
    ensures February(year) == if Leap(year) then 29 else 28
  {
    var century := year / 100;
    assert year % 100 == 0 ==> year == 4 * (25 * century);
    assert year % 400 == 0 ==> year == 100 * (4 * (year / 400));
  }

  lemma YearLength(year: nat)
    requires year >= 1
    ensures DaysBefore(year, 12) + 31 == 337 + February(year)
  {
    NoDaysBefore(year);
    MonthStep(year, 1);
    MonthStep(year, 2);
    MonthStep(year, 3);
    MonthStep(year, 4);
    MonthStep(year, 5);
    MonthStep(year, 6);
    MonthStep(year, 7);
    MonthStep(year, 8);
    MonthStep(year, 9);
    MonthStep(year, 10);
    MonthStep(year, 11);
    hide DaysBefore;
  }

  lemma LeapDays(y: nat)
    ensures (y + 1) / 4 - (y + 1) / 100 + (y + 1) / 400 == y / 4 - y / 100 + y / 400 + February(y + 1) - 28
  {
    var z := y + 1;
    assert z / 4 == y / 4 + if z % 4 == 0 then 1 else 0;
    assert z / 100 == y / 100 + if z % 100 == 0 then 1 else 0;
    assert z / 400 == y / 400 + if z % 400 == 0 then 1 else 0;
    assert z % 400 == 0 ==> z % 100 == 0;
    assert z % 100 == 0 ==> z % 4 == 0;
  }

  /** Every day counts one more than the day before. */
  lemma DaysRun(t: Instant)
    requires ValidInstant(t)
    ensures Ordinal(NextDay(t)) == Ordinal(t) + 1
    ensures NextDay(t).year <= 9999 ==> ValidInstant(NextDay(t))
  {
    hide DaysBefore, DaysIn, MonthLength;
    MonthsAgree(t.year, t.month);
    MonthStep(t.year, t.month);
    if t.day < MonthLength(t.year, t.month) {
    } else if t.month < 12 {
      DaysBound(t.year, t.month + 1);
    } else {
      YearLength(t.year);
      LeapDays(t.year - 1);
      NoDaysBefore(t.year + 1);
      December(t.year);
      DaysBound(t.year + 1, 1);
    }
  }

  /** A day later the count of seconds is a day more and the weekday is the next one. */
  lemma CalendarRuns(t: Instant)
    requires ValidInstant(t)
    ensures Seconds(NextDay(t)) == Seconds(t) + 24 * 60 * 60
    ensures Weekday(NextDay(t)) == if Weekday(t) == 6 then 0 else Weekday(t) + 1
  {
    hide Ordinal, NextDay, ValidInstant;
    DaysRun(t);
    SameTime(t);
    NextMod(Ordinal(t) + 6);
  }

  lemma NextMod(n: int)
    ensures (n + 1) % 7 == if n % 7 == 6 then 0 else n % 7 + 1
  {
  }

  lemma SameTime(t: Instant)
    ensures var n := NextDay(t); n.hour == t.hour && n.minute == t.minute && n.second == t.second
  {
  }

  lemma SecondsFrom(t: Instant, days: int)
    requires Ordinal(t) == days + 719_163 && t.hour == 0 && t.minute == 0 && t.second == 0
    ensures Seconds(t) == days * 86_400
  {
    hide Ordinal;
  }

  lemma WeekdayFrom(t: Instant, weeks: int)
    requires Ordinal(t) == 7 * weeks + 4
    ensures Weekday(t) == 3
  {
    hide Ordinal;
  }

  /** The first of January 1970 is second 0, and a Thursday. */
  lemma EpochIs(t: Instant)
    requires t.year == 1970 && t.month == 1 && t.day == 1 && t.hour == 0 && t.minute == 0 && t.second == 0
    ensures Seconds(t) == 0 && Weekday(t) == 3
  {
    hide Ordinal, Seconds, Weekday;
    EpochDay(t);
    SecondsFrom(t, 0);
    WeekdayFrom(t, 102_737);
  }

  lemma EpochDay(t: Instant)
    requires t.year == 1970 && t.month == 1 && t.day == 1
    ensures Ordinal(t) == 719_163
  {
    hide DaysBefore;
    NoDaysBefore(1970);
  }

  lemma MonthStep(year: nat, month: nat)
    requires month >= 1
    ensures DaysBefore(year, month + 1) == DaysBefore(year, month) + DaysIn(year, month)
  {
  }

  lemma NoDaysBefore(year: nat)
    ensures DaysBefore(year, 1) == 0
  {
  }

  lemma December(year: nat)
    ensures MonthLength(year, 12) == 31 && DaysIn(year, 12) == 31
  {
  }

  /** A second, a minute and an hour count what they should. */
  lemma TimeOfDay(t: Instant)
    ensures Seconds(t) == Seconds(t.(hour := 0, minute := 0, second := 0)) + (t.hour * 60 + t.minute) * 60 + t.second
  {
  }
}
