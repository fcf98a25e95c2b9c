/**
 * Time normalisation: `datetime.strptime(s, "%d/%b/%Y:%H:%M:%S %z")`, the
 * conversion to UTC with `astimezone`, and the `isoformat()` rendering with
 * "+00:00" replaced by "Z".
 *
 * The parser follows the pattern `_strptime` compiles for the format: each
 * directive accepts a fixed set of digit strings, the space in the format
 * accepts any non-empty run of whitespace, month names are matched without
 * regard to ASCII case, and the whole text must be consumed. The offset is the
 * `[+-]HHMM` form. The fields are then checked the way the `datetime` and
 * `timezone` constructors check them.
 */
module LogTime {
  import opened Wrappers
  import opened Text
  import Coerce

  datatype DateTime = DateTime(year: int, month: int, day: int, hour: int, minute: int, second: int)

  /** A wall-clock reading and its offset from UTC in minutes (east positive). */
  datatype Stamp = Stamp(local: DateTime, offset: int)

  predicate IsLeap(y: int) {
    y % 4 == 0 && (y % 100 != 0 || y % 400 == 0)
  }

  function DaysInMonth(y: int, m: int): (n: int)
    requires 1 <= m <= 12
    ensures 28 <= n <= 31
  {
    if m == 2 then (if IsLeap(y) then 29 else 28)
    else if m == 4 || m == 6 || m == 9 || m == 11 then 30
    else 31
  }

  function YearLength(y: int): int {
    if IsLeap(y) then 366 else 365
  }

  /** A proleptic Gregorian date and a time of day; the year is not bounded. */
  predicate Valid(d: DateTime) {
    && 1 <= d.month <= 12 && 1 <= d.day <= DaysInMonth(d.year, d.month)
    && 0 <= d.hour < 24 && 0 <= d.minute < 60 && 0 <= d.second < 60
  }

  /** The years `datetime` can represent. */
  predicate InRange(d: DateTime) {
    1 <= d.year <= 9999
  }

  /** Days in the years before `y` (Dafny's division is Euclidean, so this is floor division). */
  function DaysBeforeYear(y: int): int {
    var p := y - 1;
    365 * p + p / 4 - p / 100 + p / 400
  }

  function DaysBeforeMonth(y: int, m: int): int
    requires 1 <= m <= 12
  {
    [0, 31, 59, 90, 120, 151, 181, 212, 243, 273, 304, 334][m - 1]
      + (if m > 2 && IsLeap(y) then 1 else 0)
  }

  /** `date.toordinal()`: 0001-01-01 is day 1. */
  function Ordinal(d: DateTime): int
    requires Valid(d)
  {
    DaysBeforeYear(d.year) + DaysBeforeMonth(d.year, d.month) + d.day
  }

  /** The ordinal of 1970-01-01. */
  const EpochOrdinal: int := 719163

  /** Seconds since 1970-01-01T00:00:00 of the same clock. */
  function EpochSeconds(d: DateTime): int
    requires Valid(d)
  {
    (Ordinal(d) - EpochOrdinal) * 86400 + d.hour * 3600 + d.minute * 60 + d.second
  }

  lemma EpochStart()
    ensures EpochSeconds(DateTime(1970, 1, 1, 0, 0, 0)) == 0
  {
  }

  lemma MonthStep(y: int, m: int)
    requires 1 <= m < 12
    ensures DaysBeforeMonth(y, m + 1) == DaysBeforeMonth(y, m) + DaysInMonth(y, m)
  {
  }

  /** Floor division by each leap-year divisor steps up exactly at its multiples. */
  lemma DivSteps(y: int)
    ensures y / 4 - (y - 1) / 4 == (if y % 4 == 0 then 1 else 0)
    ensures y / 100 - (y - 1) / 100 == (if y % 100 == 0 then 1 else 0)
    ensures y / 400 - (y - 1) / 400 == (if y % 400 == 0 then 1 else 0)
  {
  }

  lemma YearStep(y: int)
    ensures DaysBeforeYear(y + 1) == DaysBeforeYear(y) + YearLength(y)
  {
    DivSteps(y);
    assert y % 100 == 0 ==> y % 4 == 0;
    assert y % 400 == 0 ==> y % 100 == 0;
  }

  lemma YearEnd(y: int)
    ensures DaysBeforeMonth(y, 12) + 31 == YearLength(y)
  {
  }

  /** The following calendar day at the same time. */
  function NextDay(d: DateTime): (n: DateTime)
    requires Valid(d)
    ensures Valid(n) && Ordinal(n) == Ordinal(d) + 1
    ensures n.hour == d.hour && n.minute == d.minute && n.second == d.second
    ensures d.year <= n.year <= d.year + 1
  {
    if d.day < DaysInMonth(d.year, d.month) then d.(day := d.day + 1)
    else if d.month < 12 then
      MonthStep(d.year, d.month);
      d.(month := d.month + 1, day := 1)
    else
      YearStep(d.year);
      YearEnd(d.year);
      d.(year := d.year + 1, month := 1, day := 1)
  }

  /** The preceding calendar day at the same time. */
  function PrevDay(d: DateTime): (p: DateTime)
    requires Valid(d)
    ensures Valid(p) && Ordinal(p) == Ordinal(d) - 1
    ensures p.hour == d.hour && p.minute == d.minute && p.second == d.second
    ensures d.year - 1 <= p.year <= d.year
  {
    if d.day > 1 then d.(day := d.day - 1)
    else if d.month > 1 then
      MonthStep(d.year, d.month - 1);
      d.(month := d.month - 1, day := DaysInMonth(d.year, d.month - 1))
    else
      YearStep(d.year - 1);
      YearEnd(d.year - 1);
      d.(year := d.year - 1, month := 12, day := 31)
  }

  /** `local - offset`: the UTC reading of a clock `offset` minutes east of UTC. */
  function ToUtc(local: DateTime, offset: int): (u: DateTime)
    requires Valid(local) && -1440 < offset < 1440
    ensures Valid(u) && EpochSeconds(u) == EpochSeconds(local) - offset * 60
    ensures u.second == local.second
    ensures local.year - 1 <= u.year <= local.year + 1
  {
    var total := local.hour * 60 + local.minute - offset;
    if total < 0 then
      PrevDay(local).(hour := (total + 1440) / 60, minute := (total + 1440) % 60)
    else if total >= 1440 then
      NextDay(local).(hour := (total - 1440) / 60, minute := (total - 1440) % 60)
    else
      local.(hour := total / 60, minute := total % 60)
  }

  /** A zero offset leaves every field unchanged. */
  lemma ToUtcZero(local: DateTime)
    requires Valid(local)
    ensures ToUtc(local, 0) == local
  {
  }

  // ---- parsing -------------------------------------------------------------

  /** One or two digits whose value lies in `lo..hi` (the %H, %M and %S alternatives). */
  predicate NumberText(t: string, lo: int, hi: int) {
    1 <= |t| <= 2 && AllDigits(t) && lo <= DigitsValue(t) <= hi
  }

  /** %d: "1".."9", " 1".." 9" or "01".."31". */
  predicate DayText(t: string) {
    NumberText(t, 1, 31) || (|t| == 2 && t[0] == ' ' && '1' <= t[1] <= '9')
  }

  function DayValue(t: string): int
    requires DayText(t)
  {
    if t[0] == ' ' then DigitValue(t[1]) else DigitsValue(t)
  }

  function LowerAscii(c: char): char {
    if 'A' <= c <= 'Z' then (c as int + 32) as char else c
  }

  const MonthKeys: seq<string> :=
    ["jan", "feb", "mar", "apr", "may", "jun", "jul", "aug", "sep", "oct", "nov", "dec"]

  /** %b: the number of the month whose abbreviation `t` spells in any ASCII case, or 0. */
  function MonthOf(t: string): (m: int)
    ensures 0 <= m <= 12
    ensures m > 0 ==> |t| == 3 && [LowerAscii(t[0]), LowerAscii(t[1]), LowerAscii(t[2])] == MonthKeys[m - 1]
  {
    if |t| == 3 then FindMonth([LowerAscii(t[0]), LowerAscii(t[1]), LowerAscii(t[2])], 0) else 0
  }

  function FindMonth(key: string, k: nat): (m: int)
    requires k <= 12
    ensures m == 0 || k < m <= 12
    ensures m > 0 ==> key == MonthKeys[m - 1]
    decreases 12 - k
  {
    if k == 12 then 0 else if key == MonthKeys[k] then k + 1 else FindMonth(key, k + 1)
  }

  /** %z in its `[+-]HHMM` form; the third digit is at most 5. */
  predicate ZoneText(z: string) {
    |z| == 5 && Coerce.IsSign(z[0]) && AllDigits(z[1..]) && z[3] <= '5'
  }

  function ZoneMinutes(z: string): int
    requires ZoneText(z)
  {
    var m := DigitsValue(z[1..3]) * 60 + DigitsValue(z[3..5]);
    if z[0] == '-' then -m else m
  }

  /** Both fields in range (`datetime` and `timezone` accept them). */
  predicate ValidStamp(st: Stamp) {
    Valid(st.local) && InRange(st.local) && -1440 < st.offset < 1440
  }

  /** The checks of the datetime(...) and timezone(timedelta(...)) constructors. */
  function Check(d: DateTime, offset: int): (r: Option<Stamp>)
    ensures r.Some? <==> ValidStamp(Stamp(d, offset))
    ensures r.Some? ==> r.value == Stamp(d, offset)
  {
    if ValidStamp(Stamp(d, offset)) then Some(Stamp(d, offset)) else None
  }

  /** 29 February passes the constructor checks exactly in a leap year. */
  lemma CheckLeapDay(year: int, offset: int)
    requires 1 <= year <= 9999 && -1440 < offset < 1440
    ensures Check(DateTime(year, 2, 29, 0, 0, 0), offset).Some? <==> IsLeap(year)
  {
  }

  /** The day after the last day of a month never passes. */
  lemma CheckDayPastMonth(d: DateTime, offset: int)
    requires 1 <= d.month <= 12 && d.day == DaysInMonth(d.year, d.month) + 1
    ensures Check(d, offset).None?
  {
  }

  /** An offset is admitted exactly when it is strictly under a day either way. */
  lemma CheckOffsetBounds(d: DateTime)
    requires Valid(d) && InRange(d)
    ensures Check(d, 1439).Some? && Check(d, -1439).Some?
    ensures Check(d, 1440).None? && Check(d, -1440).None?
  {
  }

  /** parser.py's parse_time; None is the ValueError strptime raises. */
  function ParseTime(s: string): (r: Option<Stamp>)
    ensures r.Some? ==> ValidStamp(r.value)
  {
    var i := IndexOf(s, '/');
    if i < |s| && DayText(s[..i]) then ParseMonth(DayValue(s[..i]), s[i + 1..]) else None
  }

  function ParseMonth(day: int, r: string): (res: Option<Stamp>)
    ensures res.Some? ==> ValidStamp(res.value)
  {
    if |r| >= 4 && r[3] == '/' && MonthOf(r[..3]) > 0 then ParseYear(MonthOf(r[..3]), day, r[4..])
    else None
  }

  function ParseYear(month: int, day: int, r: string): (res: Option<Stamp>)
    ensures res.Some? ==> ValidStamp(res.value)
  {
    if |r| >= 5 && AllDigits(r[..4]) && r[4] == ':' then
      ParseHour(DateTime(DigitsValue(r[..4]), month, day, 0, 0, 0), r[5..])
    else None
  }

  function ParseHour(d: DateTime, r: string): (res: Option<Stamp>)
    ensures res.Some? ==> ValidStamp(res.value)
  {
    var i := IndexOf(r, ':');
    if i < |r| && NumberText(r[..i], 0, 23) then ParseMinute(d.(hour := DigitsValue(r[..i])), r[i + 1..])
    else None
  }

  function ParseMinute(d: DateTime, r: string): (res: Option<Stamp>)
    ensures res.Some? ==> ValidStamp(res.value)
  {
    var i := IndexOf(r, ':');
    if i < |r| && NumberText(r[..i], 0, 59) then ParseSecond(d.(minute := DigitsValue(r[..i])), r[i + 1..])
    else None
  }

  function ParseSecond(d: DateTime, r: string): (res: Option<Stamp>)
    ensures res.Some? ==> ValidStamp(res.value)
  {
    var i := Span(IsDigit, r);
    var gz := LeadingSpace(r[i..]);
    if NumberText(r[..i], 0, 61) && gz.0 != [] then ParseZone(d.(second := DigitsValue(r[..i])), gz.1)
    else None
  }

  function ParseZone(d: DateTime, z: string): (res: Option<Stamp>)
    ensures res.Some? ==> ValidStamp(res.value)
  {
    if ZoneText(z) then Check(d, ZoneMinutes(z)) else None
  }

  // ---- the format nginx writes, and the parser's round trip ------------------

  const MonthNames: seq<string> :=
    ["Jan", "Feb", "Mar", "Apr", "May", "Jun", "Jul", "Aug", "Sep", "Oct", "Nov", "Dec"]

  /** `[+-]HHMM` for an offset in minutes. */
  function ZoneString(offset: int): string
    requires -1440 < offset < 1440
  {
    var a := if offset < 0 then -offset else offset;
    [if offset < 0 then '-' else '+'] + Padded(a / 60, 2) + Padded(a % 60, 2)
  }

  function SecondsOn(st: Stamp): string
    requires ValidStamp(st)
  {
    Padded(st.local.second, 2) + " " + ZoneString(st.offset)
  }

  function MinutesOn(st: Stamp): string
    requires ValidStamp(st)
  {
    Padded(st.local.minute, 2) + ":" + SecondsOn(st)
  }

  function HoursOn(st: Stamp): string
    requires ValidStamp(st)
  {
    Padded(st.local.hour, 2) + ":" + MinutesOn(st)
  }

  function YearOn(st: Stamp): string
    requires ValidStamp(st)
  {
    Padded(st.local.year, 4) + ":" + HoursOn(st)
  }

  function MonthOn(st: Stamp): string
    requires ValidStamp(st)
  {
    MonthNames[st.local.month - 1] + "/" + YearOn(st)
  }

  /** nginx's $time_local, e.g. "26/Apr/2021:21:20:17 +0000". */
  function FormatLocal(st: Stamp): string
    requires ValidStamp(st)
  {
    Padded(st.local.day, 2) + "/" + MonthOn(st)
  }

  /** The first of two padded digits is the tens digit. */
  lemma TensDigit(n: nat)
    requires n < 100
    ensures Padded(n, 2)[0] == DigitChar(n / 10)
  {
    assert Padded(n, 2) == Padded(n / 10, 1) + [DigitChar(n % 10)];
    assert Padded(n / 10, 1) == Padded(n / 100, 0) + [DigitChar(n / 10 % 10)];
  }

  lemma ZoneRoundTrip(offset: int)
    requires -1440 < offset < 1440
    ensures ZoneText(ZoneString(offset)) && ZoneMinutes(ZoneString(offset)) == offset
  {
    var a := if offset < 0 then -offset else offset;
    var z := ZoneString(offset);
    var hh := Padded(a / 60, 2);
    var mm := Padded(a % 60, 2);
    PaddedValue(a / 60, 2);
    PaddedValue(a % 60, 2);
    TensDigit(a % 60);
    assert z[1..] == hh + mm;
    assert z[1..3] == hh && z[3..5] == mm && z[3] == mm[0];
  }

  lemma KeysDistinct()
    ensures forall i, j :: 0 <= i < j < 12 ==> MonthKeys[i] != MonthKeys[j]
  {
    forall i, j | 0 <= i < j < 12 ensures MonthKeys[i] != MonthKeys[j] {
      assert || MonthKeys[i][0] != MonthKeys[j][0]
             || MonthKeys[i][1] != MonthKeys[j][1]
             || MonthKeys[i][2] != MonthKeys[j][2];
    }
  }

  /** The search stops at the first abbreviation equal to the key. */
  lemma {:induction false} FindFirst(key: string, k: nat, m: int)
    requires k < m <= 12 && key == MonthKeys[m - 1]
    requires forall j :: k <= j < m - 1 ==> MonthKeys[j] != key
    ensures FindMonth(key, k) == m
    decreases 12 - k
  {
    if k < m - 1 {
      assert MonthKeys[k] != key;
      FindFirst(key, k + 1, m);
    } else {
      assert key == MonthKeys[k];
    }
  }

  lemma MonthRoundTrip(m: int)
    requires 1 <= m <= 12
    ensures MonthOf(MonthNames[m - 1]) == m
  {
    var t := MonthNames[m - 1];
    assert [LowerAscii(t[0]), LowerAscii(t[1]), LowerAscii(t[2])] == MonthKeys[m - 1];
    KeysDistinct();
    FindFirst(MonthKeys[m - 1], 0, m);
  }

  lemma SecondStage(d: DateTime, st: Stamp)
    requires ValidStamp(st)
    ensures ParseSecond(d, SecondsOn(st)) == Check(d.(second := st.local.second), st.offset)
  {
    var sec := Padded(st.local.second, 2);
    var z := ZoneString(st.offset);
    var r := SecondsOn(st);
    assert r == sec + (" " + z);
    SpanOfRun(IsDigit, sec, " " + z);
    assert r[..2] == sec && r[2..] == " " + z;
    LeadingSpaceOf(" ", z);
    PaddedValue(st.local.second, 2);
    ZoneRoundTrip(st.offset);
  }

  lemma MinuteStage(d: DateTime, st: Stamp)
    requires ValidStamp(st)
    ensures ParseMinute(d, MinutesOn(st)) == ParseSecond(d.(minute := st.local.minute), SecondsOn(st))
  {
    var t := Padded(st.local.minute, 2);
    NotInDigits(t, ':');
    CutAt(t, ':', SecondsOn(st));
    PaddedValue(st.local.minute, 2);
  }

  lemma HourStage(d: DateTime, st: Stamp)
    requires ValidStamp(st)
    ensures ParseHour(d, HoursOn(st)) == ParseMinute(d.(hour := st.local.hour), MinutesOn(st))
  {
    var t := Padded(st.local.hour, 2);
    NotInDigits(t, ':');
    CutAt(t, ':', MinutesOn(st));
    PaddedValue(st.local.hour, 2);
  }

  lemma YearStage(month: int, day: int, st: Stamp)
    requires ValidStamp(st)
    ensures ParseYear(month, day, YearOn(st))
         == ParseHour(DateTime(st.local.year, month, day, 0, 0, 0), HoursOn(st))
  {
    var t := Padded(st.local.year, 4);
    var r := YearOn(st);
    assert r[..4] == t && r[4] == ':' && r[5..] == HoursOn(st);
    PaddedValue(st.local.year, 4);
  }

  lemma MonthStage(day: int, st: Stamp)
    requires ValidStamp(st)
    ensures ParseMonth(day, MonthOn(st)) == ParseYear(st.local.month, day, YearOn(st))
  {
    var r := MonthOn(st);
    var name := MonthNames[st.local.month - 1];
    assert |name| == 3;
    assert r[..3] == name && r[3] == '/' && r[4..] == YearOn(st);
    MonthRoundTrip(st.local.month);
  }

  /** strptime reads back every stamp nginx writes. */
  lemma ParseFormatLocal(st: Stamp)
    requires ValidStamp(st)
    ensures ParseTime(FormatLocal(st)) == Some(st)
  {
    var t := Padded(st.local.day, 2);
    NotInDigits(t, '/');
    CutAt(t, '/', MonthOn(st));
    PaddedValue(st.local.day, 2);
    assert DayText(t) && DayValue(t) == st.local.day;
    var l := st.local;
    MonthStage(l.day, st);
    YearStage(l.month, l.day, st);
    var d0 := DateTime(l.year, l.month, l.day, 0, 0, 0);
    HourStage(d0, st);
    MinuteStage(d0.(hour := l.hour), st);
    SecondStage(d0.(hour := l.hour).(minute := l.minute), st);
    assert d0.(hour := l.hour).(minute := l.minute).(second := l.second) == l;
  }

  /** The UTC reading of a time_local text; None when strptime or astimezone raises. */
  function TimeUtc(s: string): (r: Option<DateTime>)
    ensures ParseTime(s).None? ==> r.None?
    ensures r.Some? <==> ParseTime(s).Some?
                         && InRange(ToUtc(ParseTime(s).value.local, ParseTime(s).value.offset))
    ensures r.Some? ==> r.value == ToUtc(ParseTime(s).value.local, ParseTime(s).value.offset)
    ensures r.Some? ==> Valid(r.value) && InRange(r.value)
    ensures r.Some? ==> EpochSeconds(r.value)
                        == EpochSeconds(ParseTime(s).value.local) - ParseTime(s).value.offset * 60
  {
    match ParseTime(s)
    case None => None
    case Some(st) =>
      var u := ToUtc(st.local, st.offset);
      if InRange(u) then Some(u) else None
  }

  /** A `+0000` stamp is already in UTC. */
  lemma TimeUtcZeroOffset(s: string)
    requires ParseTime(s).Some? && ParseTime(s).value.offset == 0
    ensures TimeUtc(s) == Some(ParseTime(s).value.local)
  {
    ToUtcZero(ParseTime(s).value.local);
  }

  // ---- rendering -----------------------------------------------------------

  /** `isoformat()` of a UTC datetime with "+00:00" replaced by "Z". */
  function RenderUtc(d: DateTime): string
    requires Valid(d) && InRange(d)
  {
    Padded(d.year, 4) + "-" + Padded(d.month, 2) + "-" + Padded(d.day, 2) + "T"
      + Padded(d.hour, 2) + ":" + Padded(d.minute, 2) + ":" + Padded(d.second, 2) + "Z"
  }

  /** The rendering is 20 characters ending in 'Z', with every field readable at a fixed place. */
  lemma RenderUtcFields(d: DateTime)
    requires Valid(d) && InRange(d)
    ensures var r := RenderUtc(d);
            && |r| == 20 && r[19] == 'Z' && 'Z' !in r[..19]
            && AllDigits(r[..4]) && DigitsValue(r[..4]) == d.year
            && AllDigits(r[5..7]) && DigitsValue(r[5..7]) == d.month
            && AllDigits(r[8..10]) && DigitsValue(r[8..10]) == d.day
            && AllDigits(r[11..13]) && DigitsValue(r[11..13]) == d.hour
            && AllDigits(r[14..16]) && DigitsValue(r[14..16]) == d.minute
            && AllDigits(r[17..19]) && DigitsValue(r[17..19]) == d.second
  {
    var r := RenderUtc(d);
    PaddedValue(d.year, 4);
    PaddedValue(d.month, 2);
    PaddedValue(d.day, 2);
    PaddedValue(d.hour, 2);
    PaddedValue(d.minute, 2);
    PaddedValue(d.second, 2);
    assert r[..4] == Padded(d.year, 4);
    assert r[5..7] == Padded(d.month, 2);
    assert r[8..10] == Padded(d.day, 2);
    assert r[11..13] == Padded(d.hour, 2);
    assert r[14..16] == Padded(d.minute, 2);
    assert r[17..19] == Padded(d.second, 2);
  }
  // ---- worked examples ----------------------------------------------------

  /** "+0000" leaves the clock as it is; "+0200" reads two hours earlier in UTC. */
  lemma ExampleOffsets()
    ensures ToUtc(DateTime(2021, 4, 26, 21, 20, 17), 0) == DateTime(2021, 4, 26, 21, 20, 17)
    ensures ToUtc(DateTime(2021, 4, 26, 21, 20, 17), 120) == DateTime(2021, 4, 26, 19, 20, 17)
    ensures ToUtc(DateTime(2020, 12, 31, 23, 30, 0), -60) == DateTime(2021, 1, 1, 0, 30, 0)
  {
  }

  /** The rendering of the first of those instants. */
  lemma ExampleRender()
    ensures RenderUtc(DateTime(2021, 4, 26, 21, 20, 17)) == "2021-04-26T21:20:17Z"
  {
    assert Padded(2021, 4) == "2021";
    assert Padded(2021, 4) + "-" == "2021-";
    assert Padded(4, 2) == "04";
    assert "2021-" + Padded(4, 2) + "-" == "2021-04-";
    assert Padded(26, 2) == "26";
    assert "2021-04-" + Padded(26, 2) + "T" == "2021-04-26T";
    assert Padded(21, 2) == "21";
    assert "2021-04-26T" + Padded(21, 2) + ":" == "2021-04-26T21:";
    assert Padded(20, 2) == "20";
    assert "2021-04-26T21:" + Padded(20, 2) + ":" == "2021-04-26T21:20:";
    assert Padded(17, 2) == "17";
    assert "2021-04-26T21:20:" + Padded(17, 2) + "Z" == "2021-04-26T21:20:17Z";
  }
}
