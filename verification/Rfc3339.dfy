/** Timestamps in the layout 2006-01-02T15:04:05-07:00: how translated responses print them and how
    the expiry rules and the compact board read them back (RFC 3339, sections 5.6 and 5.7). */
module Rfc3339 {
  import opened Instants
  import opened Wire
  import opened Calendar
  import opened Digits
  import opened ZonedTime

  // -- printing --

  function FormatZone(tz: int): string {
    var minutes := if tz < 0 then -tz else tz;
    (if tz < 0 then "-" else "+") + (Pad(minutes / 60, 2) + (":" + Pad(minutes % 60, 2)))
  }

  /** `t.Format("2006-01-02T15:04:05-07:00")` in the zone `tz` minutes east. */
  function Format(t: Instant, tz: int): string {
    FormatLocal(Unix(t) + 60 * tz, tz)
  }

  /** `local` is the wall-clock time of the zone, in seconds. */
  function FormatLocal(local: int, tz: int): string {
    CivilRoundTrip(local / 86400);
    var c, tod := CivilOf(local / 86400), local % 86400;
    Timestamp(c.year, c.month, c.day, ClockString(tod / 3600, tod % 3600 / 60, tod % 60, FormatZone(tz)))
  }

  function Timestamp(year: int, month: nat, day: nat, clock: string): string {
    PadSigned(year, 4) + ("-" + (Pad(month, 2) + ("-" + (Pad(day, 2) + ("T" + clock)))))
  }

  /** A time of day in two-digit fields, with what is behind the seconds. */
  function ClockString(h: nat, m: nat, sec: nat, tail: string): string {
    Pad(h, 2) + (":" + (Pad(m, 2) + (":" + (Pad(sec, 2) + tail))))
  }

  // -- reading --

  /** A scanner takes a value off the front of a string, or fails. */
  datatype Scan<+T> = Fail | Got(value: T, rest: string) {
    predicate IsFailure() { Fail? }

    function PropagateFailure<U>(): Scan<U>
      requires Fail?
    {
      Fail
    }

    function Extract(): (T, string)
      requires Got?
    {
      (value, rest)
    }
  }

  function Skip(s: string, c: char): Scan<char> {
    if s != [] && s[0] == c then Got(c, s[1..]) else Fail
  }

  predicate DigitAt(s: string, i: nat) {
    i < |s| && IsDigit(s[i])
  }

  /** Two digits, or one if `fixed` is not asked for. */
  function GetNum(s: string, fixed: bool): Scan<nat> {
    if !DigitAt(s, 0) then Fail
    else if DigitAt(s, 1) then Got(10 * DigitValue(s[0]) + DigitValue(s[1]), s[2..])
    else if fixed then Fail
    else Got(DigitValue(s[0]), s[1..])
  }

  function GetYear(s: string): Scan<nat> {
    if DigitAt(s, 0) && DigitAt(s, 1) && DigitAt(s, 2) && DigitAt(s, 3) then
      Got(1000 * DigitValue(s[0]) + 100 * DigitValue(s[1]) + 10 * DigitValue(s[2]) + DigitValue(s[3]), s[4..])
    else Fail
  }

  function Within(n: Scan<nat>, low: nat, high: nat): Scan<nat> {
    if n.Got? && low <= n.value <= high then n else Fail
  }

  /** The digits of a fractional second, as nanoseconds; digits after the ninth are dropped. */
  function GetFraction(s: string, scale: nat): (nat, string) {
    if DigitAt(s, 0) then
      var (n, rest) := GetFraction(s[1..], scale / 10);
      (DigitValue(s[0]) * scale + n, rest)
    else (0, s)
  }

  /** An optional fractional second, after a period or a comma. */
  function ScanFraction(s: string): (nat, string) {
    if s != [] && (s[0] == '.' || s[0] == ',') && DigitAt(s, 1) then GetFraction(s[1..], SECOND / 10) else (0, s)
  }

  /** `Z`, or a sign and hh:mm.  Offsets up to 24 hours and 60 minutes are let through. */
  function ScanZone(s: string): Scan<int> {
    if s != [] && s[0] == 'Z' then Got(0, s[1..])
    else if |s| < 6 || s[3] != ':' || (s[0] != '+' && s[0] != '-') then Fail
    else
      var (hours, r1) :- Within(GetNum(s[1..3], true), 0, 24);
      var (minutes, r2) :- Within(GetNum(s[4..6], true), 0, 60);
      var offset := 60 * (60 * hours + minutes);
      Got(if s[0] == '-' then -offset else offset, s[6..])
  }

  /** The time of day and the zone, offset in seconds east. */
  datatype Clock = Clock(hour: nat, min: nat, sec: nat, nanos: nat, offset: int)

  function ScanClock(s: string): Scan<Clock> {
    var (hour, s) :- Within(GetNum(s, false), 0, 23);
    var (_, s) :- Skip(s, ':');
    var (min, s) :- Within(GetNum(s, true), 0, 59);
    var (_, s) :- Skip(s, ':');
    var (sec, s) :- Within(GetNum(s, true), 0, 59);
    var (nanos, s) := ScanFraction(s);
    var (offset, s) :- ScanZone(s);
    Got(Clock(hour, min, sec, nanos, offset), s)
  }

  /** The month, day, time and zone of a timestamp of year `year`. */
  function ScanRest(year: nat, s: string): Scan<Instant> {
    var (month, s) :- Within(GetNum(s, true), 1, 12);
    var (_, s) :- Skip(s, '-');
    var (day, s) :- GetNum(s, true);
    var (_, s) :- Skip(s, 'T');
    var (clock, s) :- ScanClock(s);
    if s == [] && 1 <= day <= MonthDays(year, month) then
      Got(Date(year, month, day, clock.hour, clock.min, clock.sec, clock.offset) + clock.nanos, s)
    else Fail
  }

  function Parse(s: string): Option<Instant> {
    var year := GetYear(s);
    if year.Fail? then None
    else
      var dash := Skip(year.rest, '-');
      if dash.Fail? then None
      else
        var r := ScanRest(year.value, dash.rest);
        if r.Got? then Some(r.value) else None
  }

  /** `parseTimestamp`: the zero instant for anything that does not parse. */
  function ParseTimestamp(s: string): Instant {
    if s == "" then ZERO
    else match Parse(s)
      case Some(t) => t
      case None => ZERO
  }

  // -- round trip --

  lemma TwoDigits(n: nat, rest: string, fixed: bool)
    requires n < 100
    ensures GetNum(Pad(n, 2) + rest, fixed) == Got(n, rest)
    ensures |Pad(n, 2)| == 2 && AllDigits(Pad(n, 2)) && GetNum(Pad(n, 2), fixed) == Got(n, "")
  {
    var p := Pad(n, 2);
    NumberOfPad(n, 2);
    assert Power10(2) == 100 by { assert Power10(1) == 10; }
    DecimalLength(n, 2);
    assert p[..1][..0] == [] && p[..2] == p;
    assert Number(p) == 10 * Number(p[..1]) + DigitValue(p[1]);
    assert Number(p[..1]) == 10 * Number([]) + DigitValue(p[0]);
    assert (p + rest)[2..] == rest;
    assert p[2..] == [];
  }

  lemma FourDigitNumber(p: string)
    requires |p| == 4 && AllDigits(p)
    ensures Number(p) == 1000 * DigitValue(p[0]) + 100 * DigitValue(p[1]) + 10 * DigitValue(p[2]) + DigitValue(p[3])
  {
    assert p[..1][..0] == [] && p[..2][..1] == p[..1] && p[..3][..2] == p[..2];
    assert Number(p[..1]) == DigitValue(p[0]);
    assert Number(p[..2]) == 10 * Number(p[..1]) + DigitValue(p[1]);
    assert Number(p[..3]) == 10 * Number(p[..2]) + DigitValue(p[2]);
  }

  lemma FourDigits(n: nat, rest: string)
    requires n < 10000
    ensures GetYear(Pad(n, 4) + rest) == Got(n, rest)
  {
    var p := Pad(n, 4);
    NumberOfPad(n, 4);
    assert Power10(4) == 10000 by { assert Power10(2) == 100 by { assert Power10(1) == 10; } }
    DecimalLength(n, 4);
    FourDigitNumber(p);
    hide Pad, Number;
    assert (p + rest)[4..] == rest;
  }

  lemma SkipHead(c: char, rest: string)
    ensures Skip([c] + rest, c) == Got(c, rest)
  {
    assert ([c] + rest)[1..] == rest;
  }

  predicate ZoneFits(tz: int) {
    -1500 < tz < 1500
  }

  lemma ZoneTooWide(sign: char, h: nat, m: nat)
    requires h >= 100 && m < 60 && (sign == '+' || sign == '-')
    ensures ScanZone([sign] + (Pad(h, 2) + (":" + Pad(m, 2)))) == Fail
  {
    var hs := Pad(h, 2);
    NumberOfPad(h, 2);
    DecimalLength(h, 2);
    assert Power10(2) == 100 by { assert Power10(1) == 10; }
    assert |hs| > 2 && IsDigit(hs[2]);
    assert ([sign] + (hs + (":" + Pad(m, 2))))[3] == hs[2];
  }

  lemma ZoneScans(sign: char, h: nat, m: nat)
    requires h < 100 && m < 60 && (sign == '+' || sign == '-')
    ensures ScanZone([sign] + (Pad(h, 2) + (":" + Pad(m, 2))))
         == if h <= 24 then Got(if sign == '-' then -60 * (60 * h + m) else 60 * (60 * h + m), "") else Fail
  {
    hide Pad, GetNum;
    TwoDigits(h, "", true);
    TwoDigits(m, "", true);
    ZoneParts(sign, Pad(h, 2), Pad(m, 2));
  }

  lemma ZoneParts(sign: char, hs: string, ms: string)
    requires |hs| == 2 && |ms| == 2
    ensures var s := [sign] + (hs + (":" + ms));
            |s| == 6 && s[0] == sign && s[1..3] == hs && s[3] == ':' && s[4..6] == ms && s[6..] == ""
  {
  }

  lemma MinutesSplit(minutes: nat)
    ensures minutes == 60 * (minutes / 60) + minutes % 60
    ensures minutes / 60 <= 24 <==> minutes < 1500
  {
  }

  /** A printed zone is read back exactly when it is below 25 hours. */
  lemma ZoneRoundTrip(tz: int)
    ensures ScanZone(FormatZone(tz)) == if ZoneFits(tz) then Got(60 * tz, "") else Fail
  {
    hide Pad, ScanZone;
    var minutes := if tz < 0 then -tz else tz;
    MinutesSplit(minutes);
    var h, m := minutes / 60, minutes % 60;
    if h < 100 {
      ZoneScans(if tz < 0 then '-' else '+', h, m);
    } else {
      ZoneTooWide(if tz < 0 then '-' else '+', h, m);
    }
  }

  lemma NoFraction(tz: int)
    ensures ScanFraction(FormatZone(tz)) == (0, FormatZone(tz))
  {
    assert FormatZone(tz)[0] == if tz < 0 then '-' else '+';
  }

  lemma SecondsSplit(tod: nat)
    ensures tod == 3600 * (tod / 3600) + 60 * (tod % 3600 / 60) + tod % 60
  {
  }

  lemma DayOfMonth(c: Civil)
    requires ValidCivil(c)
    ensures DayNumber(c.year, c.month, 1) + c.day - 1 == DaysOf(c)
  {
    hide DaysBeforeYear, DaysBeforeMonth, MonthDays;
  }

  lemma ClockReads(h: nat, m: nat, sec: nat, tail: string)
    requires h < 100 && m < 100 && sec < 100
    ensures var (nanos, zone) := ScanFraction(tail);
            ScanClock(ClockString(h, m, sec, tail))
            == if h < 24 && m < 60 && sec < 60 && ScanZone(zone).Got?
               then Got(Clock(h, m, sec, nanos, ScanZone(zone).value), ScanZone(zone).rest) else Fail
  {
    hide Pad, GetNum, Skip, ScanZone, ScanFraction;
    var s6 := Pad(sec, 2) + tail;
    var s3 := Pad(m, 2) + (":" + s6);
    TwoDigits(h, ":" + s3, false);
    SkipHead(':', s3);
    TwoDigits(m, ":" + s6, true);
    SkipHead(':', s6);
    TwoDigits(sec, tail, true);
  }

  lemma TimestampReads(year: nat, month: nat, day: nat, clock: string)
    requires year < 10000 && month < 100 && day < 100
    ensures ParseTimestamp(Timestamp(year, month, day, clock))
         == match ScanClock(clock)
            case Got(c, rest) =>
              if 1 <= month <= 12 && 1 <= day <= MonthDays(year, month) && rest == "" then
                Date(year, month, day, c.hour, c.min, c.sec, c.offset) + c.nanos
              else ZERO
            case Fail => ZERO
  {
    hide Pad, GetNum, Skip, GetYear, ScanClock, Date, MonthDays;
    var s3 := Pad(day, 2) + ("T" + clock);
    var rest := Pad(month, 2) + ("-" + s3);
    FourDigits(year, "-" + rest);
    SkipHead('-', rest);
    TwoDigits(month, "-" + s3, true);
    SkipHead('-', s3);
    TwoDigits(day, "T" + clock, true);
    SkipHead('T', clock);
  }

  /** A timestamp, exactly: a calendar date and a time of day, with the offset of a zone below 25 hours,
      reads as its instant; a field out of range, or anything behind the zone, makes it unreadable. */
  lemma TimestampExactly(year: nat, month: nat, day: nat, h: nat, m: nat, sec: nat, tz: int, rest: string)
    requires year < 10000 && month < 100 && day < 100 && h < 100 && m < 100 && sec < 100
    ensures var c := Civil(year, month, day);
            ParseTimestamp(Timestamp(year, month, day, ClockString(h, m, sec, FormatZone(tz))))
            == if ValidCivil(c) && h < 24 && m < 60 && sec < 60 && ZoneFits(tz)
               then FromUnix(86400 * DaysOf(c) + 3600 * h + 60 * m + sec - 60 * tz) else ZERO
    ensures rest != "" ==> ParseTimestamp(Timestamp(year, month, day, ClockString(h, m, sec, "Z" + rest))) == ZERO
  {
    hide ParseTimestamp, Timestamp, ClockString, FormatZone, ScanClock, MonthDays, DaysOf, Date, ScanZone, ScanFraction;
    var zone := FormatZone(tz);
    TimestampReads(year, month, day, ClockString(h, m, sec, zone));
    ClockReads(h, m, sec, zone);
    NoFraction(tz);
    ZoneRoundTrip(tz);
    TimestampReads(year, month, day, ClockString(h, m, sec, "Z" + rest));
    ClockReads(h, m, sec, "Z" + rest);
    UtcReads(rest);
    if ValidCivil(Civil(year, month, day)) {
      DateOfCivil(Civil(year, month, day), h, m, sec, 60 * tz);
    }
  }

  lemma UtcReads(rest: string)
    ensures ScanFraction("Z" + rest) == (0, "Z" + rest) && ScanZone("Z" + rest) == Got(0, rest)
  {
    assert ("Z" + rest)[1..] == rest;
  }

  lemma DateOfCivil(c: Civil, h: int, m: int, sec: int, offset: int)
    requires ValidCivil(c)
    ensures Date(c.year, c.month, c.day, h, m, sec, offset) == FromUnix(86400 * DaysOf(c) + 3600 * h + 60 * m + sec - offset)
  {
    hide Date, DayNumber, DaysOf;
    DateIsPositional(c.year, c.month, c.day, h, m, sec, offset);
    DayOfMonth(c);
    FromUnixOfUnix(Date(c.year, c.month, c.day, h, m, sec, offset));
  }

  lemma MonthLength(c: Civil)
    requires ValidCivil(c)
    ensures 1 <= c.month < 100 && 1 <= c.day < 100
  {
  }

  /** What the layout can carry: a four-digit year in the zone, and a zone below 25 hours. */
  predicate Representable(t: Instant, tz: int) {
    FourDigitYear(Unix(t) + 60 * tz) && ZoneFits(tz)
  }

  predicate FourDigitYear(local: int) {
    0 <= CivilOf(local / 86400).year <= 9999
  }

  lemma WideYearFails(year: int, rest: string)
    requires !(0 <= year <= 9999)
    ensures Parse(PadSigned(year, 4) + ("-" + rest)) == None
  {
    var p := PadSigned(year, 4);
    var s := p + ("-" + rest);
    if year < 0 {
      assert s[0] == '-';
    } else {
      NumberOfPad(year, 4);
      DecimalLength(year, 4);
      assert Power10(4) == 10000 by { assert Power10(2) == 100 by { assert Power10(1) == 10; } }
      assert s[4] == p[4] && IsDigit(p[4]);
      assert s[4..][0] == s[4];
    }
  }

  lemma LocalRoundTrip(local: int, tz: int)
    ensures ParseTimestamp(FormatLocal(local, tz))
         == if FourDigitYear(local) && ZoneFits(tz) then FromUnix(local - 60 * tz) else ZERO
  {
    hide Pad, ParseTimestamp, ClockString, FormatZone, DaysOf, CivilOf, MonthDays;
    var days, tod := local / 86400, local % 86400;
    CivilRoundTrip(days);
    SecondsSplit(tod);
    var c := CivilOf(days);
    var clock := ClockString(tod / 3600, tod % 3600 / 60, tod % 60, FormatZone(tz));
    if 0 <= c.year <= 9999 {
      MonthLength(c);
      TimestampExactly(c.year, c.month, c.day, tod / 3600, tod % 3600 / 60, tod % 60, tz, "");
    } else {
      WideYearUnread(c.year, Pad(c.month, 2) + ("-" + (Pad(c.day, 2) + ("T" + clock))));
    }
  }

  lemma WideYearUnread(year: int, rest: string)
    requires !(0 <= year <= 9999)
    ensures ParseTimestamp(PadSigned(year, 4) + ("-" + rest)) == ZERO
  {
    WideYearFails(year, rest);
  }

  /** Round trip, exactly: what is printed reads back as the same instant (in whole seconds) if the
      year has four digits and the zone is below 25 hours, and as the zero instant otherwise. */
  lemma FormatThenParse(t: Instant, tz: int)
    ensures ParseTimestamp(Format(t, tz)) == if Representable(t, tz) then FromUnix(Unix(t)) else ZERO
  {
    hide FormatLocal, ParseTimestamp, FourDigitYear;
    LocalRoundTrip(Unix(t) + 60 * tz, tz);
  }

  /** The round trip is lossless on whole seconds exactly for representable instants (the zero
      instant being what a failed parse gives anyway). */
  lemma RoundTripExactly(t: Instant, tz: int)
    requires t % 1_000_000_000 == 0
    ensures ParseTimestamp(Format(t, tz)) == t <==> Representable(t, tz) || t == ZERO
  {
    FormatThenParse(t, tz);
    assert t == 1_000_000_000 * (t / 1_000_000_000);
  }

  // -- the layout, character by character --

  /** `s` begins with a number in exactly `k` digits, followed by `c`. */
  ghost predicate Field(s: string, k: nat, n: int, c: char) {
    |s| > k && AllDigits(s[..k]) && Number(s[..k]) == n && s[k] == c
  }

  lemma PrintedField(n: nat, k: nat, c: char, rest: string)
    requires k > 0 && n < Power10(k)
    ensures Field(Pad(n, k) + ([c] + rest), k, n, c) && (Pad(n, k) + ([c] + rest))[k + 1..] == rest
    ensures |Pad(n, k)| == k && AllDigits(Pad(n, k)) && Number(Pad(n, k)) == n
  {
    hide Number, Power10, Decimal;
    NumberOfPad(n, k);
    DecimalLength(n, k);
    hide Pad;
    var s := Pad(n, k) + ([c] + rest);
    assert |Pad(n, k)| == k;
    assert s[..k] == Pad(n, k);
  }

  /** A sign, hours and minutes of an offset, two digits each with a colon between. */
  ghost predicate ZoneField(s: string, tz: int) {
    var minutes := if tz < 0 then -tz else tz;
    && |s| == 6
    && s[0] == (if tz < 0 then '-' else '+')
    && Field(s[1..], 2, minutes / 60, ':')
    && AllDigits(s[4..]) && Number(s[4..]) == minutes % 60
  }

  lemma PowersOfTen()
    ensures Power10(2) == 100 && Power10(4) == 10000
  {
    assert Power10(1) == 10;
    assert Power10(3) == 1000;
  }

  lemma PrintedZone(tz: int)
    requires -6000 < tz < 6000
    ensures ZoneField(FormatZone(tz), tz)
  {
    hide Pad, Number;
    var minutes := if tz < 0 then -tz else tz;
    PowersOfTen();
    PrintedField(minutes / 60, 2, ':', Pad(minutes % 60, 2));
    NumberOfPad(minutes % 60, 2);
    DecimalLength(minutes % 60, 2);
    PadLength(minutes % 60);
    var s := FormatZone(tz);
    assert s[1..] == Pad(minutes / 60, 2) + (":" + Pad(minutes % 60, 2));
    assert s[4..] == s[1..][3..];
  }

  lemma PadLength(n: nat)
    requires n < 100
    ensures |Pad(n, 2)| == 2 && AllDigits(Pad(n, 2)) && Number(Pad(n, 2)) == n
  {
    PowersOfTen();
    PrintedField(n, 2, ':', "");
  }

  /** A printed timestamp: the year in four digits, month, day, hour, minute and second in two each,
      with the separators of the layout, and the offset. */
  ghost predicate Laid(s: string, c: Civil, tod: nat, tz: int) {
    && |s| == 25
    && Field(s, 4, c.year, '-')
    && Field(s[5..], 2, c.month, '-')
    && Field(s[8..], 2, c.day, 'T')
    && Field(s[11..], 2, tod / 3600, ':')
    && Field(s[14..], 2, tod % 3600 / 60, ':')
    && AllDigits(s[17..19]) && Number(s[17..19]) == tod % 60
    && ZoneField(s[19..], tz)
  }

  lemma PrintedClock(tod: nat, tz: int)
    requires tod < 86400 && -6000 < tz < 6000
    ensures var s := ClockString(tod / 3600, tod % 3600 / 60, tod % 60, FormatZone(tz));
            && |s| == 14
            && Field(s, 2, tod / 3600, ':')
            && Field(s[3..], 2, tod % 3600 / 60, ':')
            && AllDigits(s[6..8]) && Number(s[6..8]) == tod % 60
            && ZoneField(s[8..], tz)
  {
    hide Pad, Number, Field, ZoneField, FormatZone;
    PowersOfTen();
    PrintedZone(tz);
    var zone := FormatZone(tz);
    var s6 := Pad(tod % 60, 2) + zone;
    var s3 := Pad(tod % 3600 / 60, 2) + (":" + s6);
    ZoneLength(zone, tz);
    PadLength(tod % 60);
    PrintedField(tod % 3600 / 60, 2, ':', s6);
    PrintedField(tod / 3600, 2, ':', s3);
    var s := ClockString(tod / 3600, tod % 3600 / 60, tod % 60, FormatZone(tz));
    assert s[3..] == s3 && s3[3..] == s6 && s[6..] == s6;
    assert s[6..8] == s6[..2] == Pad(tod % 60, 2);
    assert s[8..] == s6[2..] == zone;
  }

  lemma ZoneLength(s: string, tz: int)
    requires ZoneField(s, tz)
    ensures |s| == 6
  {
  }

  lemma PrintedDate(c: Civil, clock: string)
    requires ValidCivil(c) && 0 <= c.year <= 9999
    ensures var s := Timestamp(c.year, c.month, c.day, clock);
            && |s| == 11 + |clock|
            && Field(s, 4, c.year, '-') && Field(s[5..], 2, c.month, '-') && Field(s[8..], 2, c.day, 'T')
            && s[11..] == clock
  {
    hide Pad, Number, Field;
    PowersOfTen();
    var s8 := Pad(c.day, 2) + ("T" + clock);
    var s5 := Pad(c.month, 2) + ("-" + s8);
    PrintedField(c.day, 2, 'T', clock);
    PrintedField(c.month, 2, '-', s8);
    PrintedField(c.year, 4, '-', s5);
    var s := Timestamp(c.year, c.month, c.day, clock);
    assert s[5..] == s5 && s[8..] == s[5..][3..] == s8 && s[11..] == s[8..][3..] == clock;
  }

  /** The layout: year, month, day, time of day and offset of the instant in the zone, each at its
      place, in decimal. */
  lemma PrintedExactly(t: Instant, tz: int)
    requires Representable(t, tz)
    ensures var local := Unix(t) + 60 * tz; Laid(Format(t, tz), CivilOf(local / 86400), local % 86400, tz)
  {
    hide Pad, Number, Field, ZoneField, ClockString, Timestamp, CivilOf;
    var local := Unix(t) + 60 * tz;
    CivilRoundTrip(local / 86400);
    var c, tod := CivilOf(local / 86400), local % 86400;
    var clock := ClockString(tod / 3600, tod % 3600 / 60, tod % 60, FormatZone(tz));
    PrintedClock(tod, tz);
    PrintedDate(c, clock);
    PlacedAt(Format(t, tz), clock);
  }

  lemma PlacedAt(s: string, clock: string)
    requires |s| == 25 && |clock| == 14 && s[11..] == clock
    ensures s[14..] == clock[3..] && s[17..19] == clock[6..8] && s[19..] == clock[8..]
  {
    assert s[14..] == s[11..][3..];
    assert s[19..] == s[11..][8..];
    assert s[17..19] == s[11..][6..8];
  }

  // -- timestamps with a fraction, or in UTC --

  lemma {:induction false} NumberHead(c: char, s: string)
    requires IsDigit(c) && AllDigits(s)
    ensures AllDigits([c] + s) && Number([c] + s) == DigitValue(c) * Power10(|s|) + Number(s)
  {
    if s == [] {
      assert [c] + s == [c] && [c][..0] == [];
    } else {
      var n := |s| - 1;
      NumberHead(c, s[..n]);
      assert ([c] + s)[..n + 1] == [c] + s[..n];
      TenTimes(DigitValue(c), Power10(n));
    }
  }

  lemma TenTimes(d: int, p: int)
    ensures 10 * (d * p) == d * (10 * p)
  {
  }

  lemma {:induction false} PowersMultiply(i: nat, j: nat)
    ensures Power10(i) * Power10(j) == Power10(i + j)
  {
    if i == 0 {
    } else {
      PowersMultiply(i - 1, j);
      assert 10 * Power10(i - 1) * Power10(j) == 10 * (Power10(i - 1) * Power10(j));
    }
  }

  /** The digits of a fraction, the first of them worth 10^n. */
  lemma {:induction false} FractionDigits(frac: string, rest: string, n: nat)
    requires AllDigits(frac) && !DigitAt(rest, 0) && |frac| <= n + 1
    ensures GetFraction(frac + rest, Power10(n)) == (Number(frac) * Power10(n + 1 - |frac|), rest)
  {
    if frac == [] {
      assert frac + rest == rest;
    } else {
      var d, more := frac[0], frac[1..];
      assert (frac + rest)[1..] == more + rest && frac == [d] + more;
      NumberHead(d, more);
      if more == [] {
        assert more + rest == rest;
      } else {
        FractionDigits(more, rest, n - 1);
        Power10Tenth(n);
        PowersMultiply(|more|, n - |more|);
        Distributed(DigitValue(d), Power10(|more|), Number(more), Power10(n - |more|));
      }
    }
  }

  lemma Power10Tenth(n: nat)
    requires n > 0
    ensures Power10(n) / 10 == Power10(n - 1)
  {
  }

  lemma Distributed(d: int, p: int, m: int, q: int)
    ensures (d * p + m) * q == d * (p * q) + m * q
  {
    assert (d * p) * q == d * (p * q);
  }

  lemma FractionScans(frac: string, zone: string)
    requires AllDigits(frac) && 1 <= |frac| <= 9 && !DigitAt(zone, 0)
    ensures ScanFraction("." + (frac + zone)) == (Number(frac) * Power10(9 - |frac|), zone)
  {
    hide GetFraction, Number;
    var s := "." + (frac + zone);
    assert s[1..] == frac + zone && s[1] == frac[0];
    EighthPower();
    FractionDigits(frac, zone, 8);
  }

  lemma EighthPower()
    ensures Power10(8) == SECOND / 10
  {
    PowersOfTen();
    PowersMultiply(4, 4);
  }

  /** Up to nine fractional digits count as decimals of the second; `Z` is UTC. */
  lemma FractionReads(c: Civil, h: nat, m: nat, sec: nat, frac: string, tz: int)
    requires ValidCivil(c) && 0 <= c.year <= 9999 && h < 24 && m < 60 && sec < 60 && ZoneFits(tz)
    requires AllDigits(frac) && 1 <= |frac| <= 9
    ensures var nanos, local := Number(frac) * Power10(9 - |frac|), 86400 * DaysOf(c) + 3600 * h + 60 * m + sec;
            && ParseTimestamp(Timestamp(c.year, c.month, c.day, ClockString(h, m, sec, "." + (frac + FormatZone(tz)))))
               == FromUnix(local - 60 * tz) + nanos
            && ParseTimestamp(Timestamp(c.year, c.month, c.day, ClockString(h, m, sec, "." + (frac + "Z")))) == FromUnix(local) + nanos
            && ParseTimestamp(Timestamp(c.year, c.month, c.day, ClockString(h, m, sec, "Z"))) == FromUnix(local)
  {
    hide ParseTimestamp, Timestamp, ClockString, FormatZone, Number, ScanZone, ScanFraction;
    NoDigit(tz);
    ZoneRoundTrip(tz);
    FractionScans(frac, FormatZone(tz));
    FractionScans(frac, "Z");
    TailReads(c, h, m, sec, "." + (frac + FormatZone(tz)), Number(frac) * Power10(9 - |frac|), 60 * tz);
    TailReads(c, h, m, sec, "." + (frac + "Z"), Number(frac) * Power10(9 - |frac|), 0);
    TailReads(c, h, m, sec, "Z", 0, 0);
  }

  lemma TailReads(c: Civil, h: nat, m: nat, sec: nat, tail: string, nanos: int, offset: int)
    requires ValidCivil(c) && 0 <= c.year <= 9999 && h < 24 && m < 60 && sec < 60
    requires ScanFraction(tail).0 == nanos && ScanZone(ScanFraction(tail).1) == Got(offset, "")
    ensures ParseTimestamp(Timestamp(c.year, c.month, c.day, ClockString(h, m, sec, tail)))
         == FromUnix(86400 * DaysOf(c) + 3600 * h + 60 * m + sec - offset) + nanos
  {
    hide ParseTimestamp, Timestamp, ClockString, ScanClock, DaysOf, Date, ScanZone, ScanFraction;
    MonthLength(c);
    TimestampReads(c.year, c.month, c.day, ClockString(h, m, sec, tail));
    ClockReads(h, m, sec, tail);
    DateOfCivil(c, h, m, sec, offset);
  }

  lemma NoDigit(tz: int)
    ensures !DigitAt(FormatZone(tz), 0)
    ensures ScanZone("Z") == Got(0, "") && ScanFraction("Z") == (0, "Z")
  {
    assert FormatZone(tz)[0] == if tz < 0 then '-' else '+';
    assert "Z"[1..] == "";
  }
}
