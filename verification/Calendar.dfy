/**
 The civil calendar of the virtual clock: days since 1970-01-01 to Gregorian
 dates and back by the era arithmetic of the source, against the calendar as
 such, which knows only leap years, month lengths and the next day.
 */
module Calendar {
  import opened Arith

  /** ---- The calendar ---- */

  datatype Date = Date(year: int, month: int, day: int)

  predicate Leap(y: int) { y % 4 == 0 && (y % 100 != 0 || y % 400 == 0) }

  function MonthLength(y: int, m: int): (n: int) {
    if m == 2 then if Leap(y) then 29 else 28
    else if m == 4 || m == 6 || m == 9 || m == 11 then 30
    else 31
  }

  predicate ValidDate(t: Date) {
    1 <= t.month <= 12 && 1 <= t.day <= MonthLength(t.year, t.month)
  }

  function NextDay(t: Date): (n: Date) {
    if t.day < MonthLength(t.year, t.month) then Date(t.year, t.month, t.day + 1)
    else if t.month < 12 then Date(t.year, t.month + 1, 1)
    else Date(t.year + 1, 1, 1)
  }

  /** ---- The code ---- */

  /** Division as C does it, toward zero. */
  function TruncDiv(a: int, b: nat): (q: int)
    requires b > 0
  {
    if a >= 0 then a / b else -((-a) / b)
  }

  function Floor(a: int, b: nat): (q: int)
    requires b > 0
  {
    TruncDiv(if a >= 0 then a else a - (b - 1), b)
  }

  /** rtc_days_from_civil. */
  function DaysFromCivil(t: Date): (n: int) {
    var y := if t.month <= 2 then t.year - 1 else t.year;
    var era := Floor(y, 400);
    var yoe := y - era * 400;
    var doy := (153 * (t.month + (if t.month > 2 then -3 else 9)) + 2) / 5 + t.day - 1;
    var doe := yoe * 365 + yoe / 4 - yoe / 100 + doy;
    era * 146097 + doe - 719468
  }

  /** rtc_civil_from_days. */
  function CivilFromDays(n: int): (t: Date) {
    var z := n + 719468;
    var era := Floor(z, 146097);
    var doe := z - era * 146097;
    var yoe := YearOfEra(doe);
    var y := yoe + era * 400;
    var doy := doe - (365 * yoe + yoe / 4 - yoe / 100);
    var mp := (5 * doy + 2) / 153;
    var d := doy - (153 * mp + 2) / 5 + 1;
    var m := mp + (if mp < 10 then 3 else -9);
    Date(y + (if m <= 2 then 1 else 0), m, d)
  }

  function YearOfEra(doe: int): (yoe: int) {
    (doe - doe / 1460 + doe / 36524 - doe / 146096) / 365
  }

  /** ---- Proof: years of an era ---- */

  lemma FloorMeans(a: int, b: nat)
    requires b > 0
    ensures Floor(a, b) == a / b && 0 <= a - Floor(a, b) * b < b
  {
    if a < 0 {
      var x := b - 1 - a;
      var q, r := x / b, x % b;
      assert a == (-q) * b + (b - 1 - r);
      DivModUnique(a, b, -q, b - 1 - r);
    }
  }

  /** The day of the era on which year `yoe` starts; years start in March. */
  function YearStart(yoe: int): (n: int) { yoe * 365 + yoe / 4 - yoe / 100 }

  /** Year `yoe` ends with a leap day. */
  predicate LongYear(yoe: int) { (yoe + 1) % 4 == 0 && ((yoe + 1) % 100 != 0 || yoe == 399) }

  function YearLength(yoe: int): (n: int) { if LongYear(yoe) then 366 else 365 }

  lemma YearStarts(yoe: int)
    requires 0 <= yoe < 400
    ensures YearStart(yoe) + YearLength(yoe) == if yoe == 399 then 146097 else YearStart(yoe + 1)
  {
  }

  /** The quotient formula finds the year of every day. */
  lemma YearOfEraRight(yoe: int, doy: int)
    requires 0 <= yoe < 400 && 0 <= doy < YearLength(yoe)
    ensures YearOfEra(YearStart(yoe) + doy) == yoe
  {
    var c, q, r := yoe / 100, yoe % 100 / 4, yoe % 4;
    assert yoe == 100 * c + 4 * q + r && 0 <= c <= 3 && 0 <= q <= 24 && 0 <= r <= 3;
    assert yoe / 4 == 25 * c + q;
    var doe := 36524 * c + 1461 * q + 365 * r + doy;
    assert doe == YearStart(yoe) + doy;
    LongYears(c, q, r);
    Quotients(c, q, r, doy);
  }

  lemma LongYears(c: int, q: int, r: int)
    requires 0 <= c <= 3 && 0 <= q <= 24 && 0 <= r <= 3
    ensures LongYear(100 * c + 4 * q + r) <==> r == 3 && (q < 24 || c == 3)
  {
  }

  lemma Quotients(c: int, q: int, r: int, doy: int)
    requires 0 <= c <= 3 && 0 <= q <= 24 && 0 <= r <= 3
    requires 0 <= doy <= 364 || (doy == 365 && r == 3 && (q < 24 || c == 3))
    ensures YearOfEra(36524 * c + 1461 * q + 365 * r + doy) == 100 * c + 4 * q + r
  {
    var doe := 36524 * c + 1461 * q + 365 * r + doy;
    var last := if c == 3 && q == 24 && r == 3 && doy == 365 then 1 else 0;
    var rest := 24 * c + q + 365 * r + doy;
    var over := if rest >= 1460 then 1 else 0;
    DivModUnique(doe, 146096, last, if last == 1 then 0 else doe);
    DivModUnique(doe, 36524, c + last, doe - 36524 * (c + last));
    DivModUnique(doe, 1460, 25 * c + q + over, rest - 1460 * over);
    DivModUnique(doe - doe / 1460 + doe / 36524 - doe / 146096, 365, 100 * c + 4 * q + r, doy - over);
  }

  /** Every day of an era lies in some year of it. */
  lemma YearOfDay(doe: int) returns (yoe: int)
    requires 0 <= doe < 146097
    ensures 0 <= yoe < 400 && 0 <= doe - YearStart(yoe) < YearLength(yoe)
  {
    var c := if doe >= 109572 then 3 else doe / 36524;
    var t := doe - 36524 * c;
    var q := t / 1461;
    var u := t - 1461 * q;
    var r := if u >= 1095 then 3 else u / 365;
    assert 0 <= c <= 3 && 0 <= q <= 24 && 0 <= r <= 3;
    yoe := 100 * c + 4 * q + r;
    LongYears(c, q, r);
    DivModUnique(yoe, 4, 25 * c + q, r);
    DivModUnique(yoe, 100, c, 4 * q + r);
  }

  /** ---- Proof: months of a year that starts in March ---- */

  function MonthStart(mp: int): (n: int) { (153 * mp + 2) / 5 }

  /** Days of the month, given the days of the February that ends the year. */
  function MarchLength(mp: int, february: int): (n: int) {
    if mp == 11 then february else if mp == 1 || mp == 3 || mp == 6 || mp == 8 then 30 else 31
  }

  lemma MonthOf(mp: int, d: int)
    requires 0 <= mp <= 11 && 1 <= d <= MarchLength(mp, 29)
    ensures (5 * (MonthStart(mp) + d - 1) + 2) / 153 == mp
  {
  }

  lemma MonthStarts(mp: int)
    requires 0 <= mp < 11
    ensures MonthStart(mp) + MarchLength(mp, 28) == MonthStart(mp + 1) && MonthStart(0) == 0 && MonthStart(11) == 337
  {
  }

  lemma DayOf(doy: int)
    requires 0 <= doy <= 365
    ensures var mp := (5 * doy + 2) / 153;
            0 <= mp <= 11 && 1 <= doy - MonthStart(mp) + 1 <= MarchLength(mp, if doy == 365 then 29 else 28)
  {
  }

  /** ---- Proof: dates ---- */

  /** The year that started in March, and the month of it. */
  function MarchYear(t: Date): (y: int) { if t.month <= 2 then t.year - 1 else t.year }

  function MarchMonth(t: Date): (m: int) { if t.month > 2 then t.month - 3 else t.month + 9 }

  function DayOfYear(t: Date): (n: int) { MonthStart(MarchMonth(t)) + t.day - 1 }

  function DateOf(y: int, doy: int): (t: Date) {
    var mp := (5 * doy + 2) / 153;
    var m := if mp < 10 then mp + 3 else mp - 9;
    Date(if m <= 2 then y + 1 else y, m, doy - MonthStart(mp) + 1)
  }

  function DayNumber(y: int, doy: int): (n: int) { y / 400 * 146097 + YearStart(y % 400) + doy - 719468 }

  lemma LeapIsLong(y: int)
    ensures Leap(y + 1) <==> LongYear(y % 400)
  {
    var era, yoe := y / 400, y % 400;
    assert y + 1 == 4 * (100 * era) + (yoe + 1);
    var k := yoe + 1;
    DivModUnique(y + 1, 4, 100 * era + k / 4, k % 4);
    DivModUnique(y + 1, 100, 4 * era + k / 100, k % 100);
    DivModUnique(y + 1, 400, era + k / 400, k % 400);
  }

  lemma DaysByMarch(t: Date)
    ensures DaysFromCivil(t) == DayNumber(MarchYear(t), DayOfYear(t))
  {
    hide Floor;
    FloorMeans(MarchYear(t), 400);
  }

  lemma MarchFits(t: Date)
    requires ValidDate(t)
    ensures 0 <= DayOfYear(t) < YearLength(MarchYear(t) % 400) && DateOf(MarchYear(t), DayOfYear(t)) == t
  {
    hide Leap, LongYear;
    LeapIsLong(MarchYear(t));
    var mp := MarchMonth(t);
    assert 1 <= t.day <= MarchLength(mp, if Leap(MarchYear(t) + 1) then 29 else 28);
    MonthOf(mp, t.day);
    if mp < 11 { MonthStarts(mp); } else { MonthStarts(0); }
  }

  lemma DateFits(y: int, doy: int)
    requires 0 <= doy < YearLength(y % 400)
    ensures var t := DateOf(y, doy); ValidDate(t) && MarchYear(t) == y && DayOfYear(t) == doy
  {
    hide Leap, LongYear, MonthStart;
    LeapIsLong(y);
    DayOf(doy);
  }

  lemma CivilByMarch(y: int, doy: int)
    requires 0 <= doy < YearLength(y % 400)
    ensures CivilFromDays(DayNumber(y, doy)) == DateOf(y, doy)
  {
    hide Floor, LongYear, YearOfEra;
    var era, yoe := y / 400, y % 400;
    YearEnds(yoe);
    var doe := YearStart(yoe) + doy;
    var z := era * 146097 + doe;
    FloorMeans(z, 146097);
    DivModUnique(z, 146097, era, doe);
    YearOfEraRight(yoe, doy);
  }

  lemma YearEnds(yoe: int)
    requires 0 <= yoe < 400
    ensures 0 <= YearStart(yoe) && YearStart(yoe) + YearLength(yoe) <= 146097
  {
  }

  /** ---- The calendar is exact ---- */

  /** Every valid date survives the trip through its day number. */
  lemma DateRoundTrip(t: Date)
    requires ValidDate(t)
    ensures CivilFromDays(DaysFromCivil(t)) == t
  {
    hide DaysFromCivil, CivilFromDays, DayNumber, YearLength, DayOfYear, DateOf;
    DaysByMarch(t);
    MarchFits(t);
    CivilByMarch(MarchYear(t), DayOfYear(t));
  }

  /** Every integer is the day number of a valid date. */
  lemma DayRoundTrip(n: int)
    ensures ValidDate(CivilFromDays(n)) && DaysFromCivil(CivilFromDays(n)) == n
  {
    hide DaysFromCivil, CivilFromDays, YearLength, DayOfYear, DateOf, YearStart, ValidDate, MarchYear;
    var z := n + 719468;
    var era, doe := z / 146097, z % 146097;
    var yoe := YearOfDay(doe);
    var y, doy := 400 * era + yoe, doe - YearStart(yoe);
    DivModUnique(y, 400, era, yoe);
    assert DayNumber(y, doy) == n;
    CivilByMarch(y, doy);
    DateFits(y, doy);
    DaysByMarch(DateOf(y, doy));
  }

  /** The next calendar day has the next number. */
  lemma NextDayIsSuccessor(t: Date)
    requires ValidDate(t)
    ensures ValidDate(NextDay(t)) && DaysFromCivil(NextDay(t)) == DaysFromCivil(t) + 1
  {
    hide DaysFromCivil, Leap, LongYear, MonthStart, YearStart;
    var y, mp, u := MarchYear(t), MarchMonth(t), NextDay(t);
    DaysByMarch(t);
    DaysByMarch(u);
    LeapIsLong(y);
    if t.day == MonthLength(t.year, t.month) {
      if mp < 11 {
        MonthStarts(mp);
      } else {
        MonthStarts(0);
        assert u == Date(y + 1, 3, 1);
        YearStarts(y % 400);
        NextYear(y);
      }
    }
  }

  lemma NextYear(y: int)
    ensures if y % 400 == 399 then (y + 1) / 400 == y / 400 + 1 && (y + 1) % 400 == 0
            else (y + 1) / 400 == y / 400 && (y + 1) % 400 == y % 400 + 1
    ensures YearStart(0) == 0
  {
  }

  /** Day 0 is 1970-01-01, so the numbers are what they claim to be. */
  lemma Epoch()
    ensures DaysFromCivil(Date(1970, 1, 1)) == 0 && CivilFromDays(0) == Date(1970, 1, 1)
    ensures DaysFromCivil(Date(2100, 1, 1)) == 47482
  {
    hide CivilFromDays, DaysFromCivil;
    DateRoundTrip(Date(1970, 1, 1));
    DaysByMarch(Date(1970, 1, 1));
    DaysByMarch(Date(2100, 1, 1));
    assert YearStart(369) == 134774 && YearStart(99) == 36159;
  }

  /** January firsts are a year apart, and a date lies in its year. */
  lemma YearsApart(y: int)
    ensures DaysFromCivil(Date(y + 1, 1, 1)) == DaysFromCivil(Date(y, 1, 1)) + (if Leap(y) then 366 else 365)
  {
    hide DaysFromCivil, Leap, LongYear, YearStart;
    DaysByMarch(Date(y, 1, 1));
    DaysByMarch(Date(y + 1, 1, 1));
    LeapIsLong(y - 1);
    YearStarts((y - 1) % 400);
    NextYear(y - 1);
  }

  lemma WithinYear(t: Date)
    requires ValidDate(t)
    ensures var first := DaysFromCivil(Date(t.year, 1, 1));
            first <= DaysFromCivil(t) < first + (if Leap(t.year) then 366 else 365)
  {
    hide DaysFromCivil, Leap, LongYear, YearStart;
    var y := t.year;
    DaysByMarch(t);
    DaysByMarch(Date(y, 1, 1));
    LeapIsLong(y - 1);
    YearStarts((y - 1) % 400);
    NextYear(y - 1);
  }

  lemma {:induction false} YearsOrdered(y: int, z: int)
    requires y <= z
    ensures DaysFromCivil(Date(y, 1, 1)) <= DaysFromCivil(Date(z, 1, 1))
    decreases z - y
  {
    hide DaysFromCivil, Leap;
    if y < z {
      YearsApart(y);
      YearsOrdered(y + 1, z);
    }
  }

  /** Day numbers from 0 on lie in 1970 or later; those below 47482 lie before 2100. */
  lemma YearRange(n: nat)
    ensures CivilFromDays(n).year >= 1970
    ensures n < 47482 ==> CivilFromDays(n).year <= 2099
  {
    hide DaysFromCivil, CivilFromDays, Leap;
    var t := CivilFromDays(n);
    DayRoundTrip(n);
    WithinYear(t);
    Epoch();
    if t.year < 1970 { YearsApart(t.year); YearsOrdered(t.year + 1, 1970); }
    if t.year > 2099 { YearsOrdered(2100, t.year); }
  }
}
