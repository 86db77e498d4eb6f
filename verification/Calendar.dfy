/** Days since 1970-01-01 to civil dates and back (rust/http/http_date.rs:20-47), against the Gregorian leap-year
    rule. Years here start in March, so that the leap day is a year's last day. */
module Calendar {
  import opened Bytes

  // ---- as written ----

  /** Integer division that truncates toward zero. */
  function TruncDiv(a: int, b: int): int
    requires b > 0
  {
    if a >= 0 then a / b else -((-a) / b)
  }

  datatype Date = Date(y: int, m: int, d: int)

  /** Year of the 400-year era, from the day of the era. */
  function YearOfEra(doe: int): int {
    (doe - doe / 1460 + doe / 36524 - doe / 146096) / 365
  }

  function CivilFromDays(days: int): Date {
    var z := days + 719_468;
    var era := TruncDiv(if z >= 0 then z else z - 146_096, 146_097);
    var doe := z - era * 146_097;
    var yoe := YearOfEra(doe);
    var y := yoe + era * 400;
    var doy := doe - (365 * yoe + yoe / 4 - yoe / 100);
    var mp := (5 * doy + 2) / 153;
    var d := doy - (153 * mp + 2) / 5 + 1;
    var m := if mp < 10 then mp + 3 else mp - 9;
    Date(if m <= 2 then y + 1 else y, m, d)
  }

  function DaysFromCivil(date: Date): Option<int> {
    if !(1 <= date.m <= 12) || date.d <= 0 || date.d > 31 then None
    else
      var y := if date.m <= 2 then date.y - 1 else date.y;
      var era := TruncDiv(if y >= 0 then y else y - 399, 400);
      var yoe := y - era * 400;
      var mp := (date.m + 9) % 12;
      var doy := (153 * mp + 2) / 5 + (date.d - 1);
      var doe := yoe * 365 + yoe / 4 - yoe / 100 + doy;
      Some(era * 146_097 + doe - 719_468)
  }

  // ---- the calendar ----

  predicate Leap(y: int) { y % 4 == 0 && (y % 100 != 0 || y % 400 == 0) }

  function DaysIn(y: int, m: int): int {
    if m == 2 then (if Leap(y) then 29 else 28)
    else if m == 4 || m == 6 || m == 9 || m == 11 then 30
    else 31
  }

  predicate ValidDate(date: Date) { 1 <= date.m <= 12 && 1 <= date.d <= DaysIn(date.y, date.m) }

  function Next(date: Date): Date {
    if date.d < DaysIn(date.y, date.m) then date.(d := date.d + 1)
    else if date.m < 12 then Date(date.y, date.m + 1, 1)
    else Date(date.y + 1, 1, 1)
  }

  // ---- eras, years of the era, months ----

  /** The adjusted truncating divisions are floor divisions, also below zero. */
  lemma EraIsFloor(a: int)
    ensures TruncDiv(if a >= 0 then a else a - 146_096, 146_097) == a / 146_097
    ensures TruncDiv(if a >= 0 then a else a - 399, 400) == a / 400
  {
  }

  /** Days before year `y` of an era. */
  function YearStart(y: int): int { 365 * y + y / 4 - y / 100 }

  /** Year `y` of an era ends with the February of `y + 1`. */
  function YearLen(y: int): int { if Leap(y + 1) then 366 else 365 }

  /** The day of the era, for year `100a + 4b + e`. */
  lemma YearParts(a: int, b: int, e: int)
    requires 0 <= a < 4 && 0 <= b < 25 && 0 <= e < 4
    ensures YearStart(100 * a + 4 * b + e) == 36524 * a + 1461 * b + 365 * e
    ensures YearLen(100 * a + 4 * b + e) == if e == 3 && (b < 24 || a == 3) then 366 else 365
  {
    var y := 100 * a + 4 * b + e;
    assert y / 4 == 25 * a + b;
    assert y / 100 == a;
    if e == 3 {
      assert (y + 1) % 4 == 0;
      if b == 24 {
        assert (y + 1) % 100 == 0;
        assert (y + 1) % 400 == 0 <==> a == 3;
      } else {
        assert (y + 1) % 100 == 4 * b + 4;
      }
    } else {
      assert (y + 1) % 4 == e + 1;
    }
  }

  /** The year formula is right on every day of every year of the era. */
  lemma YearOfEraExact(y: int, doy: int)
    requires 0 <= y < 400 && 0 <= doy < YearLen(y)
    ensures 0 <= YearStart(y) + doy < 146_097
    ensures YearOfEra(YearStart(y) + doy) == y
  {
    var a, b, e := y / 100, y % 100 / 4, y % 4;
    assert y == 100 * a + 4 * b + e;
    YearParts(a, b, e);
    FormulaParts(a, b, e, doy);
  }

  lemma FormulaParts(a: int, b: int, e: int, doy: int)
    requires 0 <= a < 4 && 0 <= b < 25 && 0 <= e < 4
    requires 0 <= doy < if e == 3 && (b < 24 || a == 3) then 366 else 365
    ensures 0 <= 36524 * a + 1461 * b + 365 * e + doy < 146_097
    ensures YearOfEra(36524 * a + 1461 * b + 365 * e + doy) == 100 * a + 4 * b + e
  {
    var doe := 36524 * a + 1461 * b + 365 * e + doy;
    var s := 24 * a + b + 365 * e + doy;
    var carry := if s >= 1460 then 1 else 0;
    assert doe == 1460 * (25 * a + b) + s;
    assert doe / 1460 == 25 * a + b + carry;
    assert doe / 36524 - doe / 146096 == a;
    assert doe - doe / 1460 + doe / 36524 - doe / 146096 == 365 * (100 * a + 4 * b + e) + (doy - carry);
  }

  /** Every day of an era is a day of one of its years. */
  lemma DayOfEra(doe: int) returns (y: int, doy: int)
    requires 0 <= doe < 146_097
    ensures 0 <= y < 400 && 0 <= doy < YearLen(y) && doe == YearStart(y) + doy
  {
    var a := if doe / 36524 > 3 then 3 else doe / 36524;
    var r := doe - 36524 * a;
    var b := if r / 1461 > 24 then 24 else r / 1461;
    var s := r - 1461 * b;
    var e := if s / 365 > 3 then 3 else s / 365;
    y, doy := 100 * a + 4 * b + e, s - 365 * e;
    YearParts(a, b, e);
  }

  /** Days before month `mp` (March is 0) of a year. */
  function MonthStart(mp: int): int { (153 * mp + 2) / 5 }

  function MonthLen(mp: int): int {
    if mp == 1 || mp == 3 || mp == 6 || mp == 8 then 30 else if mp == 11 then 29 else 31
  }

  /** The month formula is right: month `mp` runs from its start for its length. */
  lemma MonthExact(mp: int, d: int)
    requires 0 <= mp < 12 && 0 <= d < MonthLen(mp)
    ensures (5 * (MonthStart(mp) + d) + 2) / 153 == mp
    ensures mp < 11 ==> MonthStart(mp + 1) == MonthStart(mp) + MonthLen(mp)
    ensures MonthStart(0) == 0 && MonthStart(11) == 337
  {
  }

  lemma MonthOf(doy: int) returns (mp: int, d: int)
    requires 0 <= doy < 366
    ensures 0 <= mp < 12 && 0 <= d < MonthLen(mp) && doy == MonthStart(mp) + d
  {
    mp := if doy < 31 then 0 else if doy < 61 then 1 else if doy < 92 then 2 else if doy < 122 then 3
      else if doy < 153 then 4 else if doy < 184 then 5 else if doy < 214 then 6 else if doy < 245 then 7
      else if doy < 275 then 8 else if doy < 306 then 9 else if doy < 337 then 10 else 11;
    d := doy - MonthStart(mp);
  }

  // ---- dates in eras ----

  /** The date that is day `d` (from 0) of month `mp` of year `y` of `era`. */
  function Place(era: int, y: int, mp: int, d: int): Date {
    var m := if mp < 10 then mp + 3 else mp - 9;
    Date(400 * era + y + (if m <= 2 then 1 else 0), m, d + 1)
  }

  predicate Placed(era: int, y: int, mp: int, d: int) {
    0 <= y < 400 && 0 <= mp < 12 && 0 <= d < MonthLen(mp) && MonthStart(mp) + d < YearLen(y)
  }

  lemma LeapInEra(era: int, y: int)
    ensures Leap(400 * era + y) <==> Leap(y)
  {
    Shift4(100 * era, y);
    Shift100(4 * era, y);
    Shift400(era, y);
  }

  lemma Shift4(k: int, x: int)
    ensures (4 * k + x) % 4 == x % 4
  {
  }

  lemma Shift100(k: int, x: int)
    ensures (100 * k + x) % 100 == x % 100
  {
  }

  lemma Shift400(k: int, x: int)
    ensures (400 * k + x) % 400 == x % 400
  {
  }

  lemma PlaceIsValid(era: int, y: int, mp: int, d: int)
    requires Placed(era, y, mp, d)
    ensures ValidDate(Place(era, y, mp, d))
  {
    LeapInEra(era, y + 1);
  }

  /** Every valid date has a place. */
  lemma PlaceOf(date: Date) returns (era: int, y: int, mp: int, d: int)
    requires ValidDate(date)
    ensures Placed(era, y, mp, d) && date == Place(era, y, mp, d)
  {
    var year := if date.m <= 2 then date.y - 1 else date.y;
    era, y := year / 400, year % 400;
    mp, d := (date.m + 9) % 12, date.d - 1;
    LeapInEra(era, y + 1);
  }

  function DayNumber(era: int, y: int, mp: int, d: int): int {
    146_097 * era + YearStart(y) + MonthStart(mp) + d - 719_468
  }

  lemma DaysOfPlace(era: int, y: int, mp: int, d: int)
    requires Placed(era, y, mp, d)
    ensures DaysFromCivil(Place(era, y, mp, d)) == Some(DayNumber(era, y, mp, d))
  {
    EraIsFloor(400 * era + y);
    assert (400 * era + y) / 400 == era;
    var m := Place(era, y, mp, d).m;
    assert (m + 9) % 12 == mp;
  }

  lemma CivilOfPlace(era: int, y: int, mp: int, d: int)
    requires Placed(era, y, mp, d)
    ensures CivilFromDays(DayNumber(era, y, mp, d)) == Place(era, y, mp, d)
  {
    hide YearLen, TruncDiv, YearOfEra;
    var doy := MonthStart(mp) + d;
    var doe := YearStart(y) + doy;
    YearOfEraExact(y, doy);
    MonthExact(mp, d);
    EraIsFloor(146_097 * era + doe);
    assert (146_097 * era + doe) / 146_097 == era;
  }

  /** Every day number is the number of some place. */
  lemma PlaceOfDay(z: int) returns (era: int, y: int, mp: int, d: int)
    ensures Placed(era, y, mp, d) && z == DayNumber(era, y, mp, d)
  {
    era := (z + 719_468) / 146_097;
    var doy;
    y, doy := DayOfEra((z + 719_468) % 146_097);
    mp, d := MonthOf(doy);
  }

  // ---- the results ----

  /** Every integer day number is a valid Gregorian date, and that date's day number again. */
  lemma CivilThenDays(z: int)
    ensures ValidDate(CivilFromDays(z))
    ensures DaysFromCivil(CivilFromDays(z)) == Some(z)
  {
    hide DaysFromCivil, CivilFromDays, ValidDate, Placed, Place, DayNumber;
    var era, y, mp, d := PlaceOfDay(z);
    CivilOfPlace(era, y, mp, d);
    PlaceIsValid(era, y, mp, d);
    DaysOfPlace(era, y, mp, d);
  }

  /** Of the triples `days_from_civil` accepts, those that come back are exactly the dates of the calendar. */
  lemma DaysThenCivil(date: Date)
    ensures ValidDate(date) ==> DaysFromCivil(date).Some?
    ensures DaysFromCivil(date).Some? ==> (CivilFromDays(DaysFromCivil(date).value) == date <==> ValidDate(date))
  {
    hide DaysFromCivil, CivilFromDays, ValidDate, Placed, Place, DayNumber;
    if ValidDate(date) {
      var era, y, mp, d := PlaceOf(date);
      DaysOfPlace(era, y, mp, d);
      CivilOfPlace(era, y, mp, d);
    } else if DaysFromCivil(date).Some? {
      CivilThenDays(DaysFromCivil(date).value);
    }
  }

  /** Day numbers are linear in the day of the month. */
  lemma LaterInMonth(date: Date, k: int)
    requires DaysFromCivil(date).Some? && 1 <= k <= 31
    ensures DaysFromCivil(date.(d := k)) == Some(DaysFromCivil(date).value + (k - date.d))
  {
  }

  /** An accepted triple that is no date lies behind the end of a short month and stands for that many days into the
      next one. */
  lemma NonDates(date: Date)
    requires DaysFromCivil(date).Some? && !ValidDate(date)
    ensures date.m < 12 && 1 <= date.d - DaysIn(date.y, date.m) <= 3
    ensures CivilFromDays(DaysFromCivil(date).value) == Date(date.y, date.m + 1, date.d - DaysIn(date.y, date.m))
  {
    hide CivilFromDays, DaysFromCivil, DaysIn, ValidDate, Next, Place, Placed, DayNumber;
    PastTheMonth(date);
    var n := DaysIn(date.y, date.m);
    var end, first := date.(d := n), Date(date.y, date.m + 1, 1);
    var era, y, mp, d := PlaceOf(end);
    DaysOfPlace(era, y, mp, d);
    NextPlace(era, y, mp, d);
    LaterInMonth(date, n);
    LaterInMonth(first, date.d - n);
    DaysThenCivil(first.(d := date.d - n));
  }

  lemma PastTheMonth(date: Date)
    requires DaysFromCivil(date).Some? && !ValidDate(date)
    ensures var n := DaysIn(date.y, date.m);
      && date.m < 12 && 28 <= n <= 30 && 1 <= date.d - n <= 3
      && ValidDate(date.(d := n)) && Next(date.(d := n)) == Date(date.y, date.m + 1, 1)
      && ValidDate(Date(date.y, date.m + 1, date.d - n))
  {
    hide Leap;
  }

  /** February 30 is taken for March 2. */
  lemma FebruaryThirty()
    ensures DaysFromCivil(Date(2023, 2, 30)) == DaysFromCivil(Date(2023, 3, 2)) == Some(19_418)
  {
    EraIsFloor(2022);
    EraIsFloor(2023);
  }

  /** The place of the calendar's next day has the next number. */
  lemma NextPlace(era: int, y: int, mp: int, d: int)
    requires Placed(era, y, mp, d)
    ensures DaysFromCivil(Next(Place(era, y, mp, d))) == Some(DayNumber(era, y, mp, d) + 1)
  {
    hide DaysFromCivil;
    var doy := MonthStart(mp) + d;
    MonthExact(mp, d);
    LeapInEra(era, y + 1);
    if doy + 1 == YearLen(y) {
      NextYear(era, y);
    } else if d + 1 < MonthLen(mp) {
      assert Next(Place(era, y, mp, d)) == Place(era, y, mp, d + 1);
      DaysOfPlace(era, y, mp, d + 1);
    } else {
      assert Next(Place(era, y, mp, d)) == Place(era, y, mp + 1, 0);
      DaysOfPlace(era, y, mp + 1, 0);
    }
  }

  lemma YearStep(y: int)
    requires 0 <= y < 399
    ensures YearStart(y + 1) == YearStart(y) + YearLen(y)
  {
    hide YearStart, YearLen;
    var a, b, e := y / 100, y % 100 / 4, y % 4;
    assert y == 100 * a + 4 * b + e;
    YearParts(a, b, e);
    if e < 3 {
      YearParts(a, b, e + 1);
    } else if b < 24 {
      YearParts(a, b + 1, 0);
    } else {
      YearParts(a + 1, 0, 0);
    }
  }

  /** The first of March after the last of February. */
  lemma NextYear(era: int, y: int)
    requires 0 <= y < 400
    ensures DaysFromCivil(Date(400 * era + y + 1, 3, 1)) == Some(146_097 * era + YearStart(y) + YearLen(y) - 719_468)
  {
    hide DaysFromCivil;
    if y == 399 {
      assert Date(400 * era + y + 1, 3, 1) == Place(era + 1, 0, 0, 0);
      DaysOfPlace(era + 1, 0, 0, 0);
    } else {
      YearStep(y);
      assert Date(400 * era + y + 1, 3, 1) == Place(era, y + 1, 0, 0);
      DaysOfPlace(era, y + 1, 0, 0);
    }
  }

  lemma NextIsValid(date: Date)
    requires ValidDate(date)
    ensures ValidDate(Next(date))
  {
    hide Leap;
  }

  /** Day `z + 1` is the calendar day after day `z`, from the epoch in both directions. */
  lemma CivilSuccessor(z: int)
    ensures CivilFromDays(z + 1) == Next(CivilFromDays(z))
  {
    hide CivilFromDays, DaysFromCivil, Placed, Place, DayNumber, Next, ValidDate;
    var era, y, mp, d := PlaceOfDay(z);
    CivilOfPlace(era, y, mp, d);
    PlaceIsValid(era, y, mp, d);
    NextPlace(era, y, mp, d);
    var next := Next(CivilFromDays(z));
    NextIsValid(CivilFromDays(z));
    DaysThenCivil(next);
  }

  lemma Epoch()
    ensures CivilFromDays(0) == Date(1970, 1, 1)
  {
  }
}
