/** The proleptic Gregorian calendar, as days counted from 1970-01-01. */
module Calendar {

  datatype Civil = Civil(year: int, month: int, day: int)

  const DAYS_BEFORE_EPOCH: int := 719162

  predicate IsLeap(y: int) {
    y % 4 == 0 && (y % 100 != 0 || y % 400 == 0)
  }

  function MonthDays(y: int, m: int): int {
    if m == 2 then (if IsLeap(y) then 29 else 28)
    else if m == 4 || m == 6 || m == 9 || m == 11 then 30
    else 31
  }

  predicate ValidCivil(c: Civil) {
    1 <= c.month <= 12 && 1 <= c.day <= MonthDays(c.year, c.month)
  }

  /** Days from 0001-01-01 to the first day of year `y`. */
  function DaysBeforeYear(y: int): int {
    365 * (y - 1) + (y - 1) / 4 - (y - 1) / 100 + (y - 1) / 400
  }

  /** Days from the first day of the year to the first day of month `m`. */
  function DaysBeforeMonth(y: int, m: int): int
    requires 1 <= m <= 13
  {
    if m == 1 then 0 else DaysBeforeMonth(y, m - 1) + MonthDays(y, m - 1)
  }

  /** The day number of a date; any day of the month is accepted and counted through. */
  function DaysFrom(y: int, m: int, d: int): int
    requires 1 <= m <= 12
  {
    DaysBeforeYear(y) + DaysBeforeMonth(y, m) + (d - 1) - DAYS_BEFORE_EPOCH
  }

  function DaysOf(c: Civil): int
    requires ValidCivil(c)
  {
    DaysFrom(c.year, c.month, c.day)
  }

  /** The day after. */
  function NextDay(c: Civil): Civil {
    if c.day < MonthDays(c.year, c.month) then Civil(c.year, c.month, c.day + 1)
    else if c.month < 12 then Civil(c.year, c.month + 1, 1)
    else Civil(c.year + 1, 1, 1)
  }

  // -- from day numbers to dates --

  /** The year that day `n` (counted from 0001-01-01) falls in, by 400-, 100-, 4- and 1-year cycles. */
  function YearOf(n: int): int {
    var n400, r400 := n / 146097, n % 146097;
    var n100 := if r400 / 36524 > 3 then 3 else r400 / 36524;
    var r100 := r400 - 36524 * n100;
    var n4, r4 := r100 / 1461, r100 % 1461;
    var n1 := if r4 / 365 > 3 then 3 else r4 / 365;
    400 * n400 + 100 * n100 + 4 * n4 + n1 + 1
  }

  /** The month that day `yday` of year `y` falls in, searched from month `m`. */
  function MonthFrom(y: int, yday: int, m: int): int
    requires 1 <= m <= 12
    decreases 12 - m
  {
    if m == 12 || yday < DaysBeforeMonth(y, m + 1) then m else MonthFrom(y, yday, m + 1)
  }

  function CivilOf(days: int): Civil {
    var n := days + DAYS_BEFORE_EPOCH;
    var y := YearOf(n);
    var yday := n - DaysBeforeYear(y);
    var m := MonthFrom(y, yday, 1);
    if 1 <= m <= 12 then Civil(y, m, yday - DaysBeforeMonth(y, m) + 1) else Civil(y, 1, 1)
  }

  // -- the two directions are inverse --

  /** Floor division is the only quotient with a small remainder. */
  lemma DivisionIs(z: int, k: int, q: int, r: int)
    requires k > 0 && z == k * q + r && 0 <= r < k
    ensures z / k == q && z % k == r
  {
    var q', r' := z / k, z % k;
    if q > q' {
      Scale(k, q' + 1, q);
    } else if q < q' {
      Scale(k, q + 1, q');
    }
  }

  lemma Scale(k: int, a: int, b: int)
    requires k > 0 && a <= b
    ensures k * (a - 1) + k <= k * b
  {
    assert 0 <= k * (b - a);
  }

  lemma LeapByCycles(a: int, b: int, c: int, d: int)
    requires 0 <= b <= 3 && 0 <= c <= 24 && 0 <= d <= 3
    ensures DaysBeforeYear(400 * a + 100 * b + 4 * c + d + 1) == 146097 * a + 36524 * b + 1461 * c + 365 * d
    ensures IsLeap(400 * a + 100 * b + 4 * c + d + 1) <==> d == 3 && (c != 24 || b == 3)
  {
    var z := 400 * a + 100 * b + 4 * c + d;
    DivisionIs(z, 4, 100 * a + 25 * b + c, d);
    DivisionIs(z, 100, 4 * a + b, 4 * c + d);
    DivisionIs(z, 400, a, 100 * b + 4 * c + d);
    NextRemainder(z, 4);
    NextRemainder(z, 100);
    NextRemainder(z, 400);
  }

  /** The quotient goes up by one exactly when the remainder wraps round. */
  lemma NextRemainder(z: int, k: int)
    requires k > 1
    ensures (z + 1) % k == 0 <==> z % k == k - 1
    ensures (z + 1) / k == z / k + (if z % k == k - 1 then 1 else 0)
  {
    var q, r := z / k, z % k;
    if r == k - 1 {
      assert z + 1 == k * (q + 1);
      DivisionIs(z + 1, k, q + 1, 0);
    } else {
      DivisionIs(z + 1, k, q, r + 1);
    }
  }

  lemma YearLength(y: int)
    ensures DaysBeforeYear(y + 1) == DaysBeforeYear(y) + DaysBeforeMonth(y, 13)
    ensures DaysBeforeMonth(y, 13) == if IsLeap(y) then 366 else 365
  {
    MonthTable(y);
    NextRemainder(y - 1, 4);
    NextRemainder(y - 1, 100);
    NextRemainder(y - 1, 400);
    LeapRemainders(y);
  }

  lemma LeapRemainders(y: int)
    ensures y % 100 == 0 ==> y % 4 == 0
    ensures y % 400 == 0 ==> y % 100 == 0
  {
    var q := y / 100;
    if y % 100 == 0 {
      DivisionIs(y, 4, 25 * q, 0);
    }
    var p := y / 400;
    if y % 400 == 0 {
      DivisionIs(y, 100, 4 * p, 0);
    }
  }

  lemma MonthTable(y: int)
    ensures var feb := if IsLeap(y) then 29 else 28;
            && DaysBeforeMonth(y, 1) == 0
            && DaysBeforeMonth(y, 2) == 31
            && DaysBeforeMonth(y, 3) == 31 + feb
            && DaysBeforeMonth(y, 4) == 62 + feb
            && DaysBeforeMonth(y, 5) == 92 + feb
            && DaysBeforeMonth(y, 6) == 123 + feb
            && DaysBeforeMonth(y, 7) == 153 + feb
            && DaysBeforeMonth(y, 8) == 184 + feb
            && DaysBeforeMonth(y, 9) == 215 + feb
            && DaysBeforeMonth(y, 10) == 245 + feb
            && DaysBeforeMonth(y, 11) == 276 + feb
            && DaysBeforeMonth(y, 12) == 306 + feb
            && DaysBeforeMonth(y, 13) == 337 + feb
  {
    assert DaysBeforeMonth(y, 3) == DaysBeforeMonth(y, 2) + MonthDays(y, 2);
    assert DaysBeforeMonth(y, 5) == DaysBeforeMonth(y, 4) + MonthDays(y, 4);
    assert DaysBeforeMonth(y, 7) == DaysBeforeMonth(y, 6) + MonthDays(y, 6);
    assert DaysBeforeMonth(y, 9) == DaysBeforeMonth(y, 8) + MonthDays(y, 8);
    assert DaysBeforeMonth(y, 11) == DaysBeforeMonth(y, 10) + MonthDays(y, 10);
    assert DaysBeforeMonth(y, 13) == DaysBeforeMonth(y, 12) + MonthDays(y, 12);
  }

  /** What the cycles leave over: less than a year, or the last day of a leap year. */
  lemma YearOfCycles(n: int) returns (a: int, b: int, c: int, d: int, r: int)
    ensures 0 <= b <= 3 && 0 <= c <= 24 && 0 <= d <= 3
    ensures YearOf(n) == 400 * a + 100 * b + 4 * c + d + 1
    ensures n == 146097 * a + 36524 * b + 1461 * c + 365 * d + r
    ensures 0 <= r < 365 || (r == 365 && d == 3 && (c != 24 || b == 3))
  {
    a := n / 146097;
    var r400 := n % 146097;
    b := if r400 / 36524 > 3 then 3 else r400 / 36524;
    var r100 := r400 - 36524 * b;
    c := r100 / 1461;
    var r4 := r100 % 1461;
    d := if r4 / 365 > 3 then 3 else r4 / 365;
    r := r4 - 365 * d;
    assert 0 <= r100 && (r100 < 36524 || (b == 3 && r100 <= 36524));
  }

  lemma YearOfBrackets(n: int)
    ensures DaysBeforeYear(YearOf(n)) <= n < DaysBeforeYear(YearOf(n) + 1)
  {
    hide YearOf, DaysBeforeYear, IsLeap, DaysBeforeMonth;
    var a, b, c, d, r := YearOfCycles(n);
    LeapByCycles(a, b, c, d);
    YearLength(YearOf(n));
  }

  lemma {:induction false} MonthFromBrackets(y: int, yday: int, m: int)
    requires 1 <= m <= 12 && DaysBeforeMonth(y, m) <= yday < DaysBeforeMonth(y, 13)
    ensures var k := MonthFrom(y, yday, m);
            m <= k <= 12 && DaysBeforeMonth(y, k) <= yday < DaysBeforeMonth(y, k + 1)
    decreases 12 - m
  {
    if m == 12 || yday < DaysBeforeMonth(y, m + 1) {
    } else {
      MonthFromBrackets(y, yday, m + 1);
    }
  }

  /** Every day number is the number of the valid date computed from it. */
  lemma CivilRoundTrip(days: int)
    ensures ValidCivil(CivilOf(days)) && DaysOf(CivilOf(days)) == days
  {
    hide YearOf, MonthFrom, DaysBeforeYear, MonthDays;
    var n := days + DAYS_BEFORE_EPOCH;
    var y := YearOf(n);
    YearOfBrackets(n);
    YearLength(y);
    MonthFromBrackets(y, n - DaysBeforeYear(y), 1);
  }

  predicate Earlier(a: Civil, b: Civil) {
    a.year < b.year || (a.year == b.year && (a.month < b.month || (a.month == b.month && a.day < b.day)))
  }

  lemma {:induction false} LaterYear(y: int, z: int)
    requires y < z
    ensures DaysBeforeYear(y + 1) <= DaysBeforeYear(z)
    decreases z - y
  {
    if y + 1 == z {
    } else {
      YearLength(y + 1);
      LaterYear(y + 1, z);
    }
  }

  lemma {:induction false} LaterMonth(y: int, m: int, k: int)
    requires 1 <= m < k <= 13
    ensures DaysBeforeMonth(y, m) + MonthDays(y, m) <= DaysBeforeMonth(y, k)
    decreases k - m
  {
    if m + 1 == k {
    } else {
      LaterMonth(y, m, k - 1);
    }
  }

  /** Later dates have larger day numbers. */
  lemma DaysOfIncreases(a: Civil, b: Civil)
    requires ValidCivil(a) && ValidCivil(b) && Earlier(a, b)
    ensures DaysOf(a) < DaysOf(b)
  {
    if a.year < b.year {
      LaterMonth(a.year, a.month, 13);
      YearLength(a.year);
      LaterYear(a.year, b.year);
      if b.month > 1 {
        LaterMonth(b.year, 1, b.month);
      }
    } else if a.month < b.month {
      LaterMonth(a.year, a.month, b.month);
    }
  }

  /** Every valid date is the date computed from its day number. */
  lemma DaysRoundTrip(c: Civil)
    requires ValidCivil(c)
    ensures CivilOf(DaysOf(c)) == c
  {
    var b := CivilOf(DaysOf(c));
    CivilRoundTrip(DaysOf(c));
    if Earlier(b, c) {
      DaysOfIncreases(b, c);
    } else if Earlier(c, b) {
      DaysOfIncreases(c, b);
    }
  }

  /** The day numbers count the calendar: one day on is one more. */
  lemma NextDayIsNext(c: Civil)
    requires ValidCivil(c)
    ensures ValidCivil(NextDay(c)) && DaysOf(NextDay(c)) == DaysOf(c) + 1
  {
    YearLength(c.year);
  }

  lemma EpochIsDayZero()
    ensures DaysOf(Civil(1970, 1, 1)) == 0 && DaysOf(Civil(1, 1, 1)) == -DAYS_BEFORE_EPOCH
  {
  }
}
