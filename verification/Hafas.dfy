/** HAFAS station boards and their notations for times and products (hafas.go). */
module Hafas {
  import opened Instants
  import opened Wire
  import opened Calendar
  import opened Digits
  import opened ZonedTime

  // -- the decoded station board, with the fields the program reads --

  datatype Location = Location(name: string, extId: string, x: int, y: int, pCls: int, tzOffset: int)
  datatype Product = Product(name: string, nameS: string, cls: int)

  datatype StbStop = StbStop(
    locX: int,
    dTimeS: string, dTimeR: string, dPlatform: Option<string>, dCncl: bool,
    aTimeS: string, aTimeR: string, aPlatform: Option<string>, aCncl: bool)

  datatype Journey = Journey(jid: string, date: string, prodX: int, dirTxt: string, stbStop: StbStop)

  datatype StationBoard = StationBoard(
    locL: seq<Location>, prodL: seq<Product>, jnyL: seq<Journey>, planrtTS: string)

  // -- times --

  /** `parseHAFASTime`: an eight-character date, a time of six characters with an optional day
      offset in front, and a zone `tz` minutes east.  Unparseable fields count as the value
      `strconv.Atoi` returns with its error. */
  function ParseTime(date: string, time: string, tz: int): Instant {
    if |date| != 8 || |time| < 6 then ZERO
    else
      var n := |time| - 6;
      var dayOffset := if n > 0 then Atoi(time[..n]).value else 0;
      Date(Atoi(date[0..4]).value, Atoi(date[4..6]).value, Atoi(date[6..8]).value + dayOffset,
           Atoi(time[n..n + 2]).value, Atoi(time[n + 2..n + 4]).value, Atoi(time[n + 4..]).value, 60 * tz)
  }

  /** The zone the parsed time prints in: a time that cannot be read is Go's zero time, in UTC. */
  function ParsedZone(date: string, time: string, tz: int): int {
    if |date| != 8 || |time| < 6 then 0 else tz
  }

  predicate DateDigits(date: string) {
    |date| == 8 && AllDigits(date)
  }

  predicate TimeDigits(time: string) {
    |time| >= 6 && AllDigits(time)
  }

  /** The day number of a date string; a month outside 1..12 or a day beyond its month counts on. */
  function DateDays(date: string): int
    requires DateDigits(date)
  {
    DayNumber(Number(date[0..4]), Number(date[4..6]), Number(date[6..8]))
  }

  /** The days, and the seconds within them, that a time string adds to its date. */
  function TimeSeconds(time: string): int
    requires TimeDigits(time)
  {
    var n := |time| - 6;
    86400 * Clamp64(Number(time[..n])) + 3600 * Number(time[n..n + 2]) + 60 * Number(time[n + 2..n + 4]) + Number(time[n + 4..])
  }

  lemma AtoiField(s: string, i: nat, j: nat)
    requires AllDigits(s) && i < j <= |s| && j - i <= 4
    ensures Atoi(s[i..j]).value == Number(s[i..j])
  {
    AtoiDigits(s[i..j]);
    NumberBelow(s[i..j]);
    assert Power10(4) == 10000 by { assert Power10(2) == 100 by { assert Power10(1) == 10; } }
    PowerGrows(j - i, 4);
  }

  lemma {:induction false} NumberBelow(s: string)
    requires AllDigits(s)
    ensures Number(s) < Power10(|s|)
  {
    if s == [] {
    } else {
      NumberBelow(s[..|s| - 1]);
    }
  }

  lemma {:induction false} PowerGrows(i: nat, j: nat)
    requires i <= j
    ensures Power10(i) <= Power10(j)
  {
    if i == j {
    } else {
      PowerGrows(i, j - 1);
    }
  }

  lemma TimeFields(date: string, time: string, tz: int)
    requires DateDigits(date) && TimeDigits(time)
    ensures var n := |time| - 6;
            ParseTime(date, time, tz)
            == Date(Number(date[0..4]), Number(date[4..6]), Number(date[6..8]) + Clamp64(Number(time[..n])),
                    Number(time[n..n + 2]), Number(time[n + 2..n + 4]), Number(time[n + 4..]), 60 * tz)
  {
    hide Date, Atoi;
    var n := |time| - 6;
    AtoiField(date, 0, 4);
    AtoiField(date, 4, 6);
    AtoiField(date, 6, 8);
    AtoiField(time, n, n + 2);
    AtoiField(time, n + 2, n + 4);
    AtoiField(time, n + 4, n + 6);
    assert time[n + 4..n + 6] == time[n + 4..];
    if n > 0 {
      AtoiDigits(time[..n]);
    } else {
      assert time[..n] == [];
    }
  }

  /** On digit strings the parsed time is the date's day plus the time's seconds, less the zone. */
  lemma TimeIsArithmetic(date: string, time: string, tz: int)
    requires DateDigits(date) && TimeDigits(time)
    ensures ParseTime(date, time, tz) == FromUnix(86400 * DateDays(date) + TimeSeconds(time) - 60 * tz)
  {
    hide Number, ParseTime, Date, DayNumber, Clamp64;
    TimeFields(date, time, tz);
    var n := |time| - 6;
    var y, m, d := Number(date[0..4]), Number(date[4..6]), Number(date[6..8]);
    var off := Clamp64(Number(time[..n]));
    var hh, mm, ss := Number(time[n..n + 2]), Number(time[n + 2..n + 4]), Number(time[n + 4..]);
    DateArithmetic(y, m, d, off, hh, mm, ss, 60 * tz);
  }

  lemma DateArithmetic(y: int, m: int, d: int, off: int, hh: int, mm: int, ss: int, offset: int)
    ensures Date(y, m, d + off, hh, mm, ss, offset)
         == FromUnix(86400 * DayNumber(y, m, d) + (86400 * off + 3600 * hh + 60 * mm + ss) - offset)
  {
    hide Date, DayNumber;
    DateIsPositional(y, m, d + off, hh, mm, ss, offset);
    DayNumberShifts(y, m, d);
    FromUnixOfUnix(Date(y, m, d + off, hh, mm, ss, offset));
  }

  lemma DayNumberShifts(y: int, m: int, d: int)
    ensures DayNumber(y, m, d) == DayNumber(y, m, 1) + (d - 1)
  {
  }

  /** Every parsed time is in whole seconds. */
  lemma WholeSeconds(date: string, time: string, tz: int)
    ensures ParseTime(date, time, tz) % 1_000_000_000 == 0
  {
    hide Atoi, DayNumber, Date;
    if |date| == 8 && |time| >= 6 {
      var n := |time| - 6;
      var dayOffset := if n > 0 then Atoi(time[..n]).value else 0;
      DateIsPositional(Atoi(date[0..4]).value, Atoi(date[4..6]).value, Atoi(date[6..8]).value + dayOffset,
                       Atoi(time[n..n + 2]).value, Atoi(time[n + 2..n + 4]).value, Atoi(time[n + 4..]).value, 60 * tz);
    }
  }

  /** Hours past 24 and the day-offset prefix are two spellings of one time: if prefix days and
      hours make up the same number of hours and minutes and seconds agree, so do the instants. */
  lemma OverflowAgreesWithPrefix(date: string, a: string, b: string, tz: int)
    requires DateDigits(date) && TimeDigits(a) && TimeDigits(b)
    requires var m, n := |a| - 6, |b| - 6;
             && 24 * Clamp64(Number(a[..m])) + Number(a[m..m + 2]) == 24 * Clamp64(Number(b[..n])) + Number(b[n..n + 2])
             && a[m + 2..] == b[n + 2..]
    ensures ParseTime(date, a, tz) == ParseTime(date, b, tz)
  {
    hide Number, ParseTime, DateDays, Clamp64;
    TimeIsArithmetic(date, a, tz);
    TimeIsArithmetic(date, b, tz);
    var m, n := |a| - 6, |b| - 6;
    assert a[m + 2..m + 4] == a[m + 2..][..2] && b[n + 2..n + 4] == b[n + 2..][..2];
    assert a[m + 4..] == a[m + 2..][2..] && b[n + 4..] == b[n + 2..][2..];
  }

  /** The difference of two times on one date depends on neither the date nor the zone. */
  lemma DelayIgnoresDateAndZone(date: string, tz: int, date': string, tz': int, a: string, b: string)
    requires DateDigits(date) && DateDigits(date') && TimeDigits(a) && TimeDigits(b)
    ensures ParseTime(date, a, tz) - ParseTime(date, b, tz) == ParseTime(date', a, tz') - ParseTime(date', b, tz')
    ensures ParseTime(date, a, tz) - ParseTime(date, b, tz) == FromUnix(TimeSeconds(a) - TimeSeconds(b))
  {
    TimeIsArithmetic(date, a, tz);
    TimeIsArithmetic(date, b, tz);
    TimeIsArithmetic(date', a, tz');
    TimeIsArithmetic(date', b, tz');
    hide TimeSeconds, DateDays, ParseTime;
  }

  /** The calendar date a string spells. */
  function CivilDate(date: string): Civil
    requires DateDigits(date)
  {
    Civil(Number(date[0..4]), Number(date[4..6]), Number(date[6..8]))
  }

  /** Six digits spelling a time of day. */
  predicate ClockTime(time: string) {
    |time| == 6 && AllDigits(time) && Number(time[0..2]) < 24 && Number(time[2..4]) < 60 && Number(time[4..]) < 60
  }

  lemma ClockTimeInDay(time: string)
    requires ClockTime(time)
    ensures TimeSeconds(time) == 3600 * Number(time[0..2]) + 60 * Number(time[2..4]) + Number(time[4..])
    ensures 0 <= TimeSeconds(time) < 86400
  {
    assert time[..0] == [];
  }

  lemma DateDaysOfCivil(date: string)
    requires DateDigits(date) && ValidCivil(CivilDate(date))
    ensures DateDays(date) == DaysOf(CivilDate(date))
  {
    hide Number, DaysBeforeYear, DaysBeforeMonth, ValidCivil;
    MonthInRange(CivilDate(date));
  }

  lemma MonthInRange(c: Civil)
    requires ValidCivil(c)
    ensures 1 <= c.month <= 12
  {
  }

  /** Valid dates and times of day map to instants in their order, strictly, in any one zone. */
  lemma TimesIncrease(date: string, time: string, date': string, time': string, tz: int)
    requires DateDigits(date) && ValidCivil(CivilDate(date)) && ClockTime(time)
    requires DateDigits(date') && ValidCivil(CivilDate(date')) && ClockTime(time')
    requires Earlier(CivilDate(date), CivilDate(date'))
          || (CivilDate(date) == CivilDate(date') && TimeSeconds(time) < TimeSeconds(time'))
    ensures ParseTime(date, time, tz) < ParseTime(date', time', tz)
  {
    TimeIsArithmetic(date, time, tz);
    TimeIsArithmetic(date', time', tz);
    DateDaysOfCivil(date);
    DateDaysOfCivil(date');
    ClockTimeInDay(time);
    ClockTimeInDay(time');
    hide TimeSeconds, DateDays, ParseTime, DaysOf;
    if Earlier(CivilDate(date), CivilDate(date')) {
      DaysOfIncreases(CivilDate(date), CivilDate(date'));
    }
  }

  // -- products --

  /** Whether bit `k` of a (two's complement) integer is set. */
  predicate Bit(n: int, k: nat) {
    n / Power2(k) % 2 == 1
  }

  function Power2(k: nat): (p: nat)
    ensures p > 0
  {
    if k == 0 then 1 else 2 * Power2(k - 1)
  }

  /** `hafasProductName`: the lowest known bit decides. */
  function ProductName(cls: int): string {
    if Bit(cls, 0) then "suburban"
    else if Bit(cls, 1) then "subway"
    else if Bit(cls, 2) then "tram"
    else if Bit(cls, 3) then "bus"
    else if Bit(cls, 4) then "ferry"
    else if Bit(cls, 5) then "express"
    else if Bit(cls, 6) then "regional"
    else ""
  }

  /** `hafasProductsMap`. */
  function ProductsMap(pCls: int): map<string, bool> {
    map["suburban" := Bit(pCls, 0), "subway" := Bit(pCls, 1), "tram" := Bit(pCls, 2), "bus" := Bit(pCls, 3),
        "ferry" := Bit(pCls, 4), "express" := Bit(pCls, 5), "regional" := Bit(pCls, 6)]
  }

  /** The products of a class, bit by bit; its name is the one of the lowest bit. */
  lemma ProductsExactly(cls: int)
    ensures ProductsMap(cls)["suburban"] <==> cls % 2 == 1
    ensures ProductsMap(cls)["subway"] <==> cls / 2 % 2 == 1
    ensures ProductsMap(cls)["tram"] <==> cls / 4 % 2 == 1
    ensures ProductsMap(cls)["bus"] <==> cls / 8 % 2 == 1
    ensures ProductsMap(cls)["ferry"] <==> cls / 16 % 2 == 1
    ensures ProductsMap(cls)["express"] <==> cls / 32 % 2 == 1
    ensures ProductsMap(cls)["regional"] <==> cls / 64 % 2 == 1
    ensures ProductName(cls)
         == if cls % 2 == 1 then "suburban" else if cls % 4 == 2 then "subway" else if cls % 8 == 4 then "tram"
            else if cls % 16 == 8 then "bus" else if cls % 32 == 16 then "ferry" else if cls % 64 == 32 then "express"
            else if cls % 128 == 64 then "regional" else ""
  {
    Powers();
    hide Power2;
    NextBit(cls, 2);
    NextBit(cls, 4);
    NextBit(cls, 8);
    NextBit(cls, 16);
    NextBit(cls, 32);
    NextBit(cls, 64);
  }

  lemma Powers()
    ensures Power2(0) == 1 && Power2(1) == 2 && Power2(2) == 4 && Power2(3) == 8
    ensures Power2(4) == 16 && Power2(5) == 32 && Power2(6) == 64
  {
    assert Power2(2) == 2 * Power2(1) && Power2(4) == 2 * Power2(3) && Power2(6) == 2 * Power2(5);
  }

  /** Above bits that are all clear, the remainder shows the next one. */
  lemma NextBit(n: int, k: int)
    requires k > 0
    ensures n % k == 0 ==> n % (2 * k) == if n / k % 2 == 1 then k else 0
  {
    if n % k == 0 {
      var q := n / k;
      var half, bit := q / 2, q % 2;
      assert n == k * (2 * half + bit);
      assert n == 2 * k * half + k * bit;
      DivisionIs(n, 2 * k, half, if bit == 1 then k else 0);
    }
  }

  /** The name of a product class is one of the products its map lists as true; it is empty exactly
      when the map lists none. */
  lemma NamedProductIsListed(cls: int)
    ensures ProductName(cls) != "" ==> ProductName(cls) in ProductsMap(cls) && ProductsMap(cls)[ProductName(cls)]
    ensures ProductName(cls) == "" <==> forall product :: product in ProductsMap(cls) ==> !ProductsMap(cls)[product]
  {
    hide Bit;
    var m := ProductsMap(cls);
    assert m["suburban"] == Bit(cls, 0) && m["subway"] == Bit(cls, 1) && m["tram"] == Bit(cls, 2) && m["bus"] == Bit(cls, 3);
    assert m["ferry"] == Bit(cls, 4) && m["express"] == Bit(cls, 5) && m["regional"] == Bit(cls, 6);
  }
}
