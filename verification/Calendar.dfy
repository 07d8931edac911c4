/**
 Civil dates (crates/kernway-core/src/time.rs:63-74 and the logger's own copy,
 crates/kernway-log/src/lib.rs:420-431), against a calendar that only knows how to go
 from one day to the next.
 */
module Calendar {

  datatype Date = Date(y: int, m: int, d: int)

  // ---- The calendar, day by day ----------------------------------------------

  predicate IsLeap(y: int) {
    y % 4 == 0 && (y % 100 != 0 || y % 400 == 0)
  }

  function DaysInMonth(y: int, m: int): int {
    if m == 2 then (if IsLeap(y) then 29 else 28)
    else if m == 4 || m == 6 || m == 9 || m == 11 then 30
    else 31
  }

  predicate Exists(date: Date) {
    1 <= date.m <= 12 && 1 <= date.d <= DaysInMonth(date.y, date.m)
  }

  function NextDay(date: Date): Date {
    if date.d < DaysInMonth(date.y, date.m) then date.(d := date.d + 1)
    else if date.m < 12 then Date(date.y, date.m + 1, 1)
    else Date(date.y + 1, 1, 1)
  }

  function PreviousDay(date: Date): Date {
    if date.d > 1 then date.(d := date.d - 1)
    else if date.m > 1 then Date(date.y, date.m - 1, DaysInMonth(date.y, date.m - 1))
    else Date(date.y - 1, 12, 31)
  }

  /** The date `n` days after the epoch, stepping forwards or backwards one day at a time. */
  function DateOf(n: int): Date
    decreases if n < 0 then -n else n
  {
    if n == 0 then Date(1970, 1, 1)
    else if n > 0 then NextDay(DateOf(n - 1))
    else PreviousDay(DateOf(n + 1))
  }

  // ---- The two copies of the closed form -------------------------------------

  function YearOfEra(doe: int): int {
    (doe - doe / 1460 + doe / 36_524 - doe / 146_096) / 365
  }

  /** The days of the years of an era before year `yoe`, which starts in March. */
  function YearStart(yoe: int): int {
    365 * yoe + yoe / 4 - yoe / 100
  }

  /** The days of a year before its month `mp`, counted from March. */
  function MonthStart(mp: int): int {
    (153 * mp + 2) / 5
  }

  /** The common tail of both copies, from the era and the day of the era. */
  function FromEra(era: int, doe: int): Date {
    var yoe := YearOfEra(doe);
    var doy := doe - YearStart(yoe);
    var mp := (5 * doy + 2) / 153;
    var d := doy - MonthStart(mp) + 1;
    var m := if mp < 10 then mp + 3 else mp - 9;
    Date(yoe + era * 400 + (if m <= 2 then 1 else 0), m, d)
  }

  /** Division truncating toward zero, as Rust's `/` on `i64`. */
  function Truncated(a: int, b: int): int
    requires b > 0
  {
    if a >= 0 then a / b else -((-a) / b)
  }

  /** kernway-core: the era by `div_euclid`. */
  function CivilFromDays(day: int): Date {
    var z := day + 719_468;
    var era := (if z >= 0 then z else z - 146_096) / 146_097;
    FromEra(era, z - era * 146_097)
  }

  /** kernway-log: the era by truncating division. */
  function LogCivilFromDays(day: int): Date {
    var z := day + 719_468;
    var era := Truncated(if z >= 0 then z else z - 146_096, 146_097);
    FromEra(era, z - era * 146_097)
  }

  // ---- Counting days ---------------------------------------------------------

  /** The days from the epoch to a date; a day past the end of a month counts on. */
  function DaysFromCivil(date: Date): int {
    var y := if date.m <= 2 then date.y - 1 else date.y;
    var mp := if date.m > 2 then date.m - 3 else date.m + 9;
    365 * y + y / 4 - y / 100 + y / 400 + MonthStart(mp) + date.d - 1 - 719_468
  }

  lemma MonthLengths(y: int, m: int)
    requires 3 <= m <= 12 || m == 1
    ensures var mp := if m > 2 then m - 3 else m + 9; MonthStart(mp + 1) - MonthStart(mp) == DaysInMonth(y, m)
  {
  }

  /** Stepping a division: the quotient grows exactly when the divisor divides the next number. */
  lemma QuotientStep(y: int, n: int)
    requires n > 1
    ensures (y + 1) / n - y / n == if (y + 1) % n == 0 then 1 else 0
  {
    var q, r := y / n, y % n;
    assert y + 1 == n * q + (r + 1);
    if r + 1 == n {
      assert y + 1 == n * (q + 1);
      QuotientIs(y + 1, n, q + 1, 0);
    } else {
      QuotientIs(y + 1, n, q, r + 1);
    }
  }

  lemma QuotientIs(x: int, n: int, q: int, r: int)
    requires n > 0 && 0 <= r < n && x == n * q + r
    ensures x / n == q && x % n == r
  {
    SmallMultiple(n, x / n - q);
    assert n * (x / n - q) == r - x % n;
  }

  lemma SmallMultiple(n: int, d: int)
    requires n > 0
    ensures -n < n * d < n ==> d == 0
  {
    if d > 0 { assert n * (d - 1) >= 0; }
    if d < 0 { assert n * (-d - 1) >= 0; }
  }

  lemma LeapRemainders(x: int)
    ensures (x % 400 == 0 ==> x % 100 == 0) && (x % 100 == 0 ==> x % 4 == 0)
  {
    QuotientIs(x, 100, 4 * (x / 400) + (x % 400) / 100, (x % 400) % 100);
    QuotientIs(x, 4, 25 * (x / 100) + (x % 100) / 4, (x % 100) % 4);
  }

  lemma YearLengths(y: int)
    ensures (365 * (y + 1) + (y + 1) / 4 - (y + 1) / 100 + (y + 1) / 400) - (365 * y + y / 4 - y / 100 + y / 400) ==
            if IsLeap(y + 1) then 366 else 365
  {
    QuotientStep(y, 4);
    QuotientStep(y, 100);
    QuotientStep(y, 400);
    LeapRemainders(y + 1);
  }

  lemma MonthEndCounts(y: int, m: int)
    requires 1 <= m <= 11 && m != 2
    ensures DaysFromCivil(Date(y, m + 1, 1)) == DaysFromCivil(Date(y, m, DaysInMonth(y, m))) + 1
  {
    MonthLengths(y, m);
  }

  lemma FebruaryCounts(y: int)
    ensures DaysFromCivil(Date(y, 3, 1)) == DaysFromCivil(Date(y, 2, DaysInMonth(y, 2))) + 1
  {
    YearLengths(y - 1);
  }

  /** The next day of the calendar is one day later in the count. */
  lemma NextDayCounts(date: Date)
    requires Exists(date)
    ensures Exists(NextDay(date)) && DaysFromCivil(NextDay(date)) == DaysFromCivil(date) + 1
  {
    if date.d == DaysInMonth(date.y, date.m) && date.m < 12 {
      if date.m != 2 { MonthEndCounts(date.y, date.m); } else { FebruaryCounts(date.y); }
    }
  }

  lemma PreviousUndoesNext(date: Date)
    requires Exists(date)
    ensures Exists(PreviousDay(date)) && NextDay(PreviousDay(date)) == date
  {
  }

  // ---- The closed form inverts the count -------------------------------------

  lemma CyclesIn(c: int, q: int, rest: int)
    requires 0 <= rest < 2920
    ensures (36_500 * c + 1460 * q + rest) / 1460 == 25 * c + q + if rest >= 1460 then 1 else 0
  {
  }

  lemma CenturiesIn(c: int, rest: int)
    requires 0 <= c <= 3 && 0 <= rest <= 36_524 && (rest == 36_524 ==> c == 3)
    ensures var doe := 36_524 * c + rest; doe / 36_524 - doe / 146_096 == c
  {
    if rest == 36_524 {
      assert 36_524 * c + rest == 146_096;
    } else {
      assert (36_524 * c + rest) / 36_524 == c;
      assert 0 <= 36_524 * c + rest < 146_096;
    }
  }

  /** The year of era, by centuries, four-year cycles and single years. */
  lemma YearOfEraIs(c: int, q: int, r: int, t: int)
    requires 0 <= c <= 3 && 0 <= q <= 24 && 0 <= r <= 3 && 0 <= t <= 365
    requires t == 365 ==> r == 3 && (q < 24 || c == 3)
    ensures var y, doe := 100 * c + 4 * q + r, 36_524 * c + 1461 * q + 365 * r + t;
            0 <= y <= 399 && YearOfEra(doe) == y && YearStart(y) + t == doe
  {
    var y, doe := 100 * c + 4 * q + r, 36_524 * c + 1461 * q + 365 * r + t;
    var k := EraDays(c, q, r, t);
    YearStartIs(c, q, r);
    InYear(doe - doe / 1460 + doe / 36_524 - doe / 146_096, y, t - k);
  }

  /** The days of the closed form's years. */
  lemma EraDays(c: int, q: int, r: int, t: int) returns (k: int)
    requires 0 <= c <= 3 && 0 <= q <= 24 && 0 <= r <= 3 && 0 <= t <= 365
    requires t == 365 ==> r == 3 && (q < 24 || c == 3)
    ensures 0 <= t - k < 365
    ensures var doe := 36_524 * c + 1461 * q + 365 * r + t;
            doe - doe / 1460 + doe / 36_524 - doe / 146_096 == 365 * (100 * c + 4 * q + r) + t - k
  {
    k := if 24 * c + q + 365 * r + t >= 1460 then 1 else 0;
    CyclesIn(c, q, 24 * c + q + 365 * r + t);
    CenturiesIn(c, 1461 * q + 365 * r + t);
  }

  lemma InYear(days: int, y: int, rest: int)
    requires days == 365 * y + rest && 0 <= rest < 365
    ensures days / 365 == y
  {
  }

  /** Every day of an era splits that way. */
  lemma EraSplits(doe: int) returns (c: int, q: int, r: int, t: int)
    requires 0 <= doe <= 146_096
    ensures 0 <= c <= 3 && 0 <= q <= 24 && 0 <= r <= 3 && 0 <= t <= 365
    ensures t == 365 ==> r == 3 && (q < 24 || c == 3)
    ensures doe == 36_524 * c + 1461 * q + 365 * r + t
  {
    c := if doe == 146_096 then 3 else doe / 36_524;
    var rest := doe - 36_524 * c;
    q := rest / 1461;
    var days := rest - 1461 * q;
    r := if days == 1460 then 3 else days / 365;
    t := days - 365 * r;
  }

  lemma MonthOf(doy: int)
    requires 0 <= doy <= 366
    ensures var mp := (5 * doy + 2) / 153;
            0 <= mp <= 11 && MonthStart(mp) <= doy && (mp < 11 ==> doy < MonthStart(mp + 1)) && MonthStart(11) == 337
  {
  }

  /** Whatever the era, the date made from it counts back to its day, plus one if its year is over 400. */
  lemma FromEraCounts(era: int, doe: int)
    requires var yoe := YearOfEra(doe); 0 <= yoe <= 799 && 0 <= doe - YearStart(yoe) <= 366
    ensures DaysFromCivil(FromEra(era, doe)) == era * 146_097 + doe + YearOfEra(doe) / 400 - 719_468
  {
    var yoe := YearOfEra(doe);
    MonthOf(doe - YearStart(yoe));
    var y := yoe + era * 400;
    assert y / 4 == yoe / 4 + 100 * era && y / 100 == yoe / 100 + 4 * era && y / 400 == yoe / 400 + era;
  }

  /** Within an era the closed form gives a real date that counts back to its day. */
  lemma FromEraIs(era: int, doe: int)
    requires 0 <= doe <= 146_096
    ensures Exists(FromEra(era, doe)) && DaysFromCivil(FromEra(era, doe)) == era * 146_097 + doe - 719_468
  {
    var y, t := EraYear(era, doe);
    FromEraCounts(era, doe);
    DayOfYearExists(y + era * 400, t);
  }

  lemma EraYear(era: int, doe: int) returns (y: int, t: int)
    requires 0 <= doe <= 146_096
    ensures 0 <= y <= 399 && YearOfEra(doe) == y && YearStart(y) + t == doe
    ensures 0 <= t <= 365 && (t == 365 ==> IsLeap(y + era * 400 + 1))
  {
    var c, q, r, t0 := EraSplits(doe);
    YearOfEraIs(c, q, r, t0);
    LeapDay(era, c, q, r, t0);
    y, t := 100 * c + 4 * q + r, t0;
  }

  /** A day of a year that starts in March is a day of one of its months. */
  lemma DayOfYearExists(y: int, doy: int)
    requires 0 <= doy <= 365 && (doy == 365 ==> IsLeap(y + 1))
    ensures var mp := (5 * doy + 2) / 153;
            var m := if mp < 10 then mp + 3 else mp - 9;
            Exists(Date(y + (if m <= 2 then 1 else 0), m, doy - MonthStart(mp) + 1))
  {
    MonthOf(doy);
    var mp := (5 * doy + 2) / 153;
    var m := if mp < 10 then mp + 3 else mp - 9;
    if m != 2 { MonthLengths(y + (if m <= 2 then 1 else 0), m); }
  }

  /** A 366th day only happens in a year whose February has 29 days. */
  lemma LeapDay(era: int, c: int, q: int, r: int, t: int)
    requires 0 <= c <= 3 && 0 <= q <= 24 && 0 <= r <= 3
    requires t == 365 ==> r == 3 && (q < 24 || c == 3)
    ensures t == 365 ==> IsLeap(100 * c + 4 * q + r + 400 * era + 1)
  {
    if t == 365 {
      var y := 100 * c + 4 * q + 4 + 400 * era;
      assert y % 4 == 0;
      if q < 24 { assert y % 100 == 4 * q + 4; } else { assert y % 400 == 0; }
    }
  }

  lemma TruncatedEra(z: int)
    requires z < 0
    ensures Truncated(z - 146_096, 146_097) == z / 146_097
  {
    assert z == 146_097 * (z / 146_097) + z % 146_097;
    assert 146_096 - z == 146_097 * (-(z / 146_097)) + (146_096 - z % 146_097);
  }

  lemma LogIsFromEra(day: int)
    ensures LogCivilFromDays(day) == FromEra((day + 719_468) / 146_097, (day + 719_468) % 146_097)
  {
    var z := day + 719_468;
    if z < 0 { TruncatedEra(z); }
    assert z - z / 146_097 * 146_097 == z % 146_097;
  }

  /** The logger's copy gives real dates, and the day count undoes it, for every day. */
  lemma LogInverts(day: int)
    ensures Exists(LogCivilFromDays(day)) && DaysFromCivil(LogCivilFromDays(day)) == day
  {
    LogIsFromEra(day);
    FromEraIs((day + 719_468) / 146_097, (day + 719_468) % 146_097);
  }

  /** Two real dates with the same count are the same date. */
  lemma CountDecidesDate(a: Date, b: Date)
    requires Exists(a) && Exists(b) && DaysFromCivil(a) == DaysFromCivil(b)
    ensures a == b
  {
    if Earlier(a, b) { EarlierCounts(a, b); } else if Earlier(b, a) { EarlierCounts(b, a); }
  }

  predicate Earlier(a: Date, b: Date) {
    a.y < b.y || (a.y == b.y && (a.m < b.m || (a.m == b.m && a.d < b.d)))
  }

  lemma {:induction false} MonthsCount(y: int, m: int, n: nat)
    requires 1 <= m && m + n <= 12
    ensures DaysFromCivil(Date(y, m, 1)) + n <= DaysFromCivil(Date(y, m + n, 1))
    decreases n
  {
    if n > 0 {
      MonthsCount(y, m, n - 1);
      FirstPasses(y, m + n - 1);
    }
  }

  /** A month is over when the next one begins. */
  lemma MonthPasses(a: Date)
    requires Exists(a) && a.m < 12
    ensures DaysFromCivil(a) < DaysFromCivil(Date(a.y, a.m + 1, 1))
  {
    if a.m != 2 { MonthEndCounts(a.y, a.m); } else { FebruaryCounts(a.y); }
  }

  lemma FirstPasses(y: int, m: int)
    requires 1 <= m < 12
    ensures DaysFromCivil(Date(y, m, 1)) < DaysFromCivil(Date(y, m + 1, 1))
  {
    MonthPasses(Date(y, m, 1));
  }

  lemma DayCounts(a: Date)
    requires Exists(a)
    ensures DaysFromCivil(Date(a.y, a.m, 1)) <= DaysFromCivil(a)
  {
  }

  lemma LaterMonthCounts(a: Date, b: Date)
    requires Exists(a) && Exists(b) && a.y == b.y && a.m < b.m
    ensures DaysFromCivil(a) < DaysFromCivil(b)
  {
    MonthPasses(a);
    MonthsCount(a.y, a.m + 1, b.m - a.m - 1);
    DayCounts(b);
  }

  lemma YearBegins(a: Date)
    requires Exists(a)
    ensures DaysFromCivil(Date(a.y, 1, 1)) <= DaysFromCivil(a)
  {
    MonthsCount(a.y, 1, a.m - 1);
    DayCounts(a);
  }

  lemma NewYear(y: int)
    ensures DaysFromCivil(Date(y, 12, 31)) + 1 == DaysFromCivil(Date(y + 1, 1, 1))
  {
    NextDayCounts(Date(y, 12, 31));
  }

  /** A year is over when the next one begins. */
  lemma YearPasses(a: Date)
    requires Exists(a)
    ensures DaysFromCivil(a) < DaysFromCivil(Date(a.y + 1, 1, 1))
  {
    if a.m < 12 { LaterMonthCounts(a, Date(a.y, 12, 31)); }
    NewYear(a.y);
  }

  lemma {:induction false} YearsCount(y: int, n: nat)
    ensures DaysFromCivil(Date(y, 1, 1)) <= DaysFromCivil(Date(y + n, 1, 1))
    decreases n
  {
    if n > 0 {
      YearsCount(y, n - 1);
      YearPasses(Date(y + n - 1, 1, 1));
    }
  }

  /** The count is strictly monotone. */
  lemma EarlierCounts(a: Date, b: Date)
    requires Exists(a) && Exists(b) && Earlier(a, b)
    ensures DaysFromCivil(a) < DaysFromCivil(b)
  {
    if a.y < b.y { LaterYearCounts(a, b); } else if a.m < b.m { LaterMonthCounts(a, b); }
  }

  lemma LaterYearCounts(a: Date, b: Date)
    requires Exists(a) && Exists(b) && a.y < b.y
    ensures DaysFromCivil(a) < DaysFromCivil(b)
  {
    YearPasses(a);
    YearsCount(a.y + 1, b.y - a.y - 1);
    YearBegins(b);
  }

  lemma PreviousDayCounts(date: Date)
    requires Exists(date)
    ensures Exists(PreviousDay(date)) && DaysFromCivil(PreviousDay(date)) == DaysFromCivil(date) - 1
  {
    PreviousUndoesNext(date);
    NextDayCounts(PreviousDay(date));
  }

  lemma {:induction false} DateOfCounts(day: int)
    ensures Exists(DateOf(day)) && DaysFromCivil(DateOf(day)) == day
    decreases if day < 0 then -day else day
  {
    if day > 0 {
      DateOfCounts(day - 1);
      NextDayCounts(DateOf(day - 1));
    } else if day < 0 {
      DateOfCounts(day + 1);
      PreviousDayCounts(DateOf(day + 1));
    }
  }

  // ---- Main results ----------------------------------------------------------

  /** For every day the logger's copy is the calendar stepped day by day from the epoch. */
  lemma LogIsCalendar(day: int)
    ensures LogCivilFromDays(day) == DateOf(day)
  {
    LogInverts(day);
    DateOfCounts(day);
    CountDecidesDate(LogCivilFromDays(day), DateOf(day));
  }

  /** Outside the era boundary, a day before 1 March of year 0 is put in the era before its own. */
  lemma {:induction false} CoreEra(day: int)
    ensures var z := day + 719_468;
            var era := (if z >= 0 then z else z - 146_096) / 146_097;
            era == z / 146_097 - if z >= 0 || z % 146_097 == 146_096 then 0 else 1
  {
    var z := day + 719_468;
    if z < 0 {
      assert z == 146_097 * (z / 146_097) + z % 146_097;
    }
  }

  /** In the era before its own, the day counts one too many. */
  lemma OvershootCounts(era: int, doe: int)
    requires 0 <= doe < 146_096
    ensures DaysFromCivil(FromEra(era, doe + 146_097)) == era * 146_097 + doe + 146_097 + 1 - 719_468
  {
    LateYearOf(doe);
    LateCounts(era, doe + 146_097);
  }

  lemma LateYearOf(doe: int)
    requires 0 <= doe < 146_096
    ensures LateYear(doe + 146_097)
  {
    var c, q, r, t := EraSplits(doe + 1);
    if t == 0 { LateNewYear(c, q, r); } else { LateInYear(c, q, r, t); }
  }

  lemma LateCounts(era: int, doe: int)
    requires LateYear(doe)
    ensures DaysFromCivil(FromEra(era, doe)) == era * 146_097 + doe + 1 - 719_468
  {
    FromEraCounts(era, doe);
  }

  predicate LateYear(doe: int) {
    var yoe := YearOfEra(doe);
    400 <= yoe <= 799 && 0 <= doe - YearStart(yoe) <= 366
  }

  lemma YearStartIs(c: int, q: int, r: int)
    requires 0 <= c <= 3 && 0 <= q <= 24 && 0 <= r <= 3
    ensures var y, days := 100 * c + 4 * q + r, 36_524 * c + 1461 * q + 365 * r;
            YearStart(y) == days && YearStart(y + 400) == days + 146_096
  {
    var y := 100 * c + 4 * q + r;
    QuotientIs(y, 4, 25 * c + q, r);
    QuotientIs(y, 100, c, 4 * q + r);
    QuotientIs(y + 400, 4, 25 * c + q + 100, r);
    QuotientIs(y + 400, 100, c + 4, 4 * q + r);
  }

  lemma LateYearIs(doe: int, yoe: int, rest: int)
    requires doe - doe / 1460 + doe / 36_524 - doe / 146_096 == 365 * yoe + rest && 0 <= rest < 365
    requires 400 <= yoe <= 799 && 0 <= doe - YearStart(yoe) <= 366
    ensures LateYear(doe)
  {
    InYear(doe - doe / 1460 + doe / 36_524 - doe / 146_096, yoe, rest);
  }

  lemma LateInYear(c: int, q: int, r: int, t: int)
    requires 0 <= c <= 3 && 0 <= q <= 24 && 0 <= r <= 3 && 0 < t <= 365 && (t == 365 ==> r == 3 && (q < 24 || c == 3))
    ensures LateYear(36_524 * c + 1461 * q + 365 * r + t + 146_096)
  {
    var k := LateDays(c, q, r, t);
    YearStartIs(c, q, r);
    LateYearIs(36_524 * c + 1461 * q + 365 * r + t + 146_096, 100 * c + 4 * q + r + 400, t - 1 - k);
  }

  lemma LateNewYear(c: int, q: int, r: int)
    requires 0 <= c <= 3 && 0 <= q <= 24 && 0 <= r <= 3 && 100 * c + 4 * q + r > 0
    ensures LateYear(36_524 * c + 1461 * q + 365 * r + 146_096)
  {
    var k := LateDays(c, q, r, 0);
    YearStartIs(c, q, r);
    YearOfEraBefore(c, q, r);
    LateYearIs(36_524 * c + 1461 * q + 365 * r + 146_096, 100 * c + 4 * q + r + 399, 364 - k);
  }

  /** The days of the closed form's years, one era late. */
  lemma LateDays(c: int, q: int, r: int, t: int) returns (k: int)
    requires 0 <= c <= 3 && 0 <= q <= 24 && 0 <= r <= 3 && 0 <= t <= 365 && (t == 365 ==> r == 3 && (q < 24 || c == 3))
    requires 36_524 * c + 1461 * q + 365 * r + t > 0
    ensures k == 0 || k == 1
    ensures t == 0 ==> k <= 364 && 0 <= 364 - k
    ensures t > 0 ==> 0 <= t - 1 - k < 365
    ensures var late := 36_524 * c + 1461 * q + 365 * r + t + 146_096;
            late - late / 1460 + late / 36_524 - late / 146_096 == 145_999 + 365 * (100 * c + 4 * q + r) + t - k
  {
    var late := 36_524 * c + 1461 * q + 365 * r + t + 146_096;
    k := if 24 * c + q + 365 * r + t + 96 >= 1460 then 1 else 0;
    assert late / 1460 == 100 + 25 * c + q + k;
    assert late / 36_524 - late / 146_096 == 3 + c;
  }

  lemma YearOfEraBefore(c: int, q: int, r: int)
    requires 0 <= c <= 3 && 0 <= q <= 24 && 0 <= r <= 3 && 100 * c + 4 * q + r > 0
    ensures var y := 100 * c + 4 * q + r; 365 <= YearStart(y) + 146_096 - YearStart(y + 399) <= 366
  {
    var y := 100 * c + 4 * q + r;
    QuotientIs(y + 399, 4, (y - 1) / 4 + 100, (y - 1) % 4);
    QuotientIs(y + 399, 100, (y - 1) / 100 + 4, (y - 1) % 100);
    QuotientStep(y - 1, 4);
    QuotientStep(y - 1, 100);
  }

  /**
   kernway-core's copy is the calendar exactly from 1 March of year 0 on, and on the last
   day of each earlier era. On every other day its result counts as the day after, so it
   is a wrong date or no date at all.
   */
  lemma CoreIsCalendarExactly(day: int)
    ensures CivilFromDays(day) == DateOf(day) <==> day >= -719_468 || (day + 719_468) % 146_097 == 146_096
    ensures CivilFromDays(day) != DateOf(day) ==> DaysFromCivil(CivilFromDays(day)) == day + 1
  {
    var z := day + 719_468;
    DateOfCounts(day);
    if z >= 0 || z % 146_097 == 146_096 {
      CoreInItsEra(day);
      LogIsCalendar(day);
    } else {
      CoreOvershoots(day);
    }
  }

  lemma CoreInItsEra(day: int)
    requires day >= -719_468 || (day + 719_468) % 146_097 == 146_096
    ensures CivilFromDays(day) == LogCivilFromDays(day)
  {
    EraDay(day);
    LogIsFromEra(day);
  }

  lemma EraDay(day: int)
    requires day >= -719_468 || (day + 719_468) % 146_097 == 146_096
    ensures var z := day + 719_468;
            var era := (if z >= 0 then z else z - 146_096) / 146_097;
            era == z / 146_097 && z - era * 146_097 == z % 146_097
  {
    CoreEra(day);
  }

  lemma CoreOvershoots(day: int)
    requires day < -719_468 && (day + 719_468) % 146_097 != 146_096
    ensures DaysFromCivil(CivilFromDays(day)) == day + 1
  {
    var z := day + 719_468;
    LateEraDay(day);
    OvershootCounts(z / 146_097 - 1, z % 146_097);
  }

  lemma LateEraDay(day: int)
    requires day < -719_468 && (day + 719_468) % 146_097 != 146_096
    ensures var z := day + 719_468;
            var era := (z - 146_096) / 146_097;
            era == z / 146_097 - 1 && z - era * 146_097 == z % 146_097 + 146_097 && 0 <= z % 146_097 < 146_096
  {
    CoreEra(day);
  }

  lemma LateDates()
    ensures FromEra(-2, 292_192) == Date(0, 2, 29) && FromEra(-1, 146_095) == Date(0, 2, 28)
  {
    assert YearOfEra(292_192) == 799 && YearStart(799) == 291_827;
    assert YearOfEra(146_095) == 399 && YearStart(399) == 145_731;
  }

  /** 28 February of year 0 comes out as the 29th: the two copies disagree there. */
  lemma CoreIsLateBeforeYearZero()
    ensures CivilFromDays(-719_470) == Date(0, 2, 29) && LogCivilFromDays(-719_470) == Date(0, 2, 28)
  {
    LateDates();
  }

  lemma CivilIsReal(day: int)
    requires day >= -719_468
    ensures var date := CivilFromDays(day); date == LogCivilFromDays(day) && Exists(date) && DaysFromCivil(date) == day
  {
    CoreInItsEra(day);
    LogInverts(day);
  }

  lemma CountOrders(x: Date, y: Date)
    requires Exists(x) && Exists(y) && DaysFromCivil(x) < DaysFromCivil(y)
    ensures Earlier(x, y)
  {
    if Earlier(y, x) { EarlierCounts(y, x); }
  }

  /** From 1 March of year 0 on, both copies agree, give real dates, and follow each other strictly. */
  lemma CivilIsMonotone(a: int, b: int)
    requires -719_468 <= a < b
    ensures CivilFromDays(a) == LogCivilFromDays(a) && Exists(CivilFromDays(a))
    ensures Earlier(CivilFromDays(a), CivilFromDays(b)) && DaysFromCivil(CivilFromDays(a)) == a
  {
    CivilIsReal(a);
    CivilIsReal(b);
    CountOrders(CivilFromDays(a), CivilFromDays(b));
  }
}
