/** Days since 1970-01-01 of a proleptic Gregorian date (ISO 8601:2004, section 3.2.1), by eras of 400 years counted from March. */
module Civil {

  datatype Date = Date(y: int, m: int, d: int)

  /** Division of a machine integer: toward zero. */
  function Quotient(a: int, b: int): int
    requires b > 0
  {
    if a >= 0 then a / b else -(-a / b)
  }

  predicate IsLeap(y: int) {
    y % 4 == 0 && (y % 100 != 0 || y % 400 == 0)
  }

  function DaysIn(y: int, m: int): int {
    if m == 2 then (if IsLeap(y) then 29 else 28)
    else if m == 4 || m == 6 || m == 9 || m == 11 then 30
    else 31
  }

  predicate IsDate(t: Date) {
    1 <= t.m <= 12 && 1 <= t.d <= DaysIn(t.y, t.m)
  }

  const EPOCH := Date(1970, 1, 1)

  /** The next day of the calendar. */
  function Succ(t: Date): Date {
    if t.d < DaysIn(t.y, t.m) then Date(t.y, t.m, t.d + 1)
    else if t.m < 12 then Date(t.y, t.m + 1, 1)
    else Date(t.y + 1, 1, 1)
  }

  /** The day before. */
  function Pred(t: Date): Date {
    if t.d > 1 then Date(t.y, t.m, t.d - 1)
    else if t.m > 1 then Date(t.y, t.m - 1, DaysIn(t.y, t.m - 1))
    else Date(t.y - 1, 12, 31)
  }

  function DaysFromCivil(year: int, m: int, d: int): int {
    var y := if m <= 2 then year - 1 else year;
    var era := Quotient(if y >= 0 then y else y - 399, 400);
    var yoe := y - era * 400;
    var mp := if m > 2 then m - 3 else m + 9;
    var doy := Quotient(153 * mp + 2, 5) + d - 1;
    var doe := yoe * 365 + Quotient(yoe, 4) - Quotient(yoe, 100) + doy;
    era * 146097 + doe - 719468
  }

  function Days(t: Date): int {
    DaysFromCivil(t.y, t.m, t.d)
  }

  /** Days of the March-based years before `y`, from year 0: every fourth is leap but for three centuries in four. */
  function YearStart(y: int): int {
    365 * y + y / 4 - y / 100 + y / 400
  }

  lemma EraIsFloor(y: int)
    ensures Quotient(if y >= 0 then y else y - 399, 400) == y / 400
  {
  }

  lemma EraParts(y: int)
    ensures var era := y / 400;
      var yoe := y - era * 400;
      && 0 <= yoe < 400 && yoe / 4 == y / 4 - era * 100 && yoe / 100 == y / 100 - era * 4
  {
  }

  function MarchYear(t: Date): int {
    if t.m <= 2 then t.y - 1 else t.y
  }

  /** Days of the March-based year before month `m`. */
  function MonthStart(m: int): int {
    (153 * (if m > 2 then m - 3 else m + 9) + 2) / 5
  }

  lemma Months()
    ensures MonthStart(3) == 0 && MonthStart(4) == 31 && MonthStart(5) == 61 && MonthStart(6) == 92 && MonthStart(7) == 122
    ensures MonthStart(8) == 153 && MonthStart(9) == 184 && MonthStart(10) == 214 && MonthStart(11) == 245 && MonthStart(12) == 275
    ensures MonthStart(1) == 306 && MonthStart(2) == 337
  {
  }

  /** The era arithmetic is the year sum. */
  lemma DaysAre(t: Date)
    requires 1 <= t.m <= 12
    ensures Days(t) == YearStart(MarchYear(t)) + MonthStart(t.m) + t.d - 719469
  {
    EraIsFloor(MarchYear(t));
    EraParts(MarchYear(t));
  }

  /** A March-based year has 366 days iff the February that ends it is leap. */
  lemma YearLength(y: int)
    ensures YearStart(y) - YearStart(y - 1) == if IsLeap(y) then 366 else 365
  {
    Carry(y, 4);
    Carry(y, 100);
    Carry(y, 400);
    assert y % 400 == 0 ==> y % 100 == 0;
    assert y % 100 == 0 ==> y % 4 == 0;
  }

  lemma Carry(y: int, n: int)
    requires n > 1
    ensures y / n - (y - 1) / n == if y % n == 0 then 1 else 0
  {
    var q, r := y / n, y % n;
    assert y == n * q + r;
    if r == 0 {
      assert y - 1 == n * (q - 1) + (n - 1);
      QuotientIs(y - 1, n, q - 1, n - 1);
    } else {
      assert y - 1 == n * q + (r - 1);
      QuotientIs(y - 1, n, q, r - 1);
    }
  }

  lemma QuotientIs(a: int, n: int, q: int, r: int)
    requires n > 0 && a == n * q + r && 0 <= r < n
    ensures a / n == q
  {
    var p := a / n;
    assert n * (p - q) == r - a % n;
    Multiple(n, p - q);
  }

  lemma Multiple(n: int, k: int)
    requires n > 0
    ensures k >= 1 ==> n * k >= n
    ensures k <= -1 ==> n * k <= -n
  {
  }

  /** The next day is one more. */
  lemma SuccIsOneMore(t: Date)
    requires IsDate(t)
    ensures IsDate(Succ(t)) && Days(Succ(t)) == Days(t) + 1
  {
    hide YearStart, MonthStart, Days;
    Months();
    DaysAre(t);
    DaysAre(Succ(t));
    if t.d == DaysIn(t.y, t.m) {
      YearLength(t.y);
    }
  }

  lemma PredIsInverse(t: Date)
    requires IsDate(t)
    ensures IsDate(Pred(t)) && Succ(Pred(t)) == t
  {
  }

  /** `n` days on from a date, or back. */
  function Walk(t: Date, n: int): Date
    decreases if n >= 0 then n else -n
  {
    if n == 0 then t else if n > 0 then Succ(Walk(t, n - 1)) else Pred(Walk(t, n + 1))
  }

  lemma {:induction false} WalkCounts(t: Date, n: int)
    requires IsDate(t)
    ensures IsDate(Walk(t, n)) && Days(Walk(t, n)) == Days(t) + n
    decreases if n >= 0 then n else -n
  {
    if n > 0 {
      WalkCounts(t, n - 1);
      SuccIsOneMore(Walk(t, n - 1));
    } else if n < 0 {
      WalkCounts(t, n + 1);
      PredIsInverse(Walk(t, n + 1));
      SuccIsOneMore(Pred(Walk(t, n + 1)));
    }
  }

  predicate Before(a: Date, b: Date) {
    a.y < b.y || (a.y == b.y && (a.m < b.m || (a.m == b.m && a.d < b.d)))
  }

  /** Later dates have greater numbers, so the numbering is injective. */
  lemma DaysOrdered(a: Date, b: Date)
    requires IsDate(a) && IsDate(b) && Before(a, b)
    ensures Days(a) < Days(b)
  {
    hide YearStart, MonthStart, Days;
    Months();
    DaysAre(a);
    DaysAre(b);
    if a.y < b.y {
      YearEnds(a);
      YearBegins(b);
      YearsGrow(a.y + 1, b.y);
    } else {
      YearLength(a.y);
    }
  }

  lemma {:induction false} YearsGrow(a: int, b: int)
    requires a <= b
    ensures Days(Date(a, 1, 1)) <= Days(Date(b, 1, 1))
    decreases b - a
  {
    if a < b {
      YearsGrow(a, b - 1);
      DaysAre(Date(b - 1, 1, 1));
      DaysAre(Date(b, 1, 1));
      YearLength(b - 1);
    }
  }

  lemma YearEnds(t: Date)
    requires IsDate(t)
    ensures Days(t) < Days(Date(t.y + 1, 1, 1))
  {
    hide YearStart, MonthStart, Days;
    Months();
    DaysAre(t);
    DaysAre(Date(t.y + 1, 1, 1));
    YearLength(t.y);
  }

  lemma YearBegins(t: Date)
    requires IsDate(t)
    ensures Days(Date(t.y, 1, 1)) <= Days(t)
  {
    hide YearStart, MonthStart, Days;
    Months();
    DaysAre(t);
    DaysAre(Date(t.y, 1, 1));
    YearLength(t.y);
  }

  lemma EpochIsZero()
    ensures Days(EPOCH) == 0
  {
  }

  /** Main result: the closed form is the day-by-day count from the epoch, forward and back, for every date of the calendar;
      and walking that many days reaches the date. */
  lemma CountFromEpoch(t: Date, n: int)
    requires IsDate(t)
    ensures Days(EPOCH) == 0
    ensures Days(Walk(EPOCH, n)) == n
    ensures Walk(EPOCH, Days(t)) == t
  {
    hide Walk, Succ, Pred, DaysFromCivil;
    EpochIsZero();
    WalkCounts(EPOCH, n);
    WalkCounts(EPOCH, Days(t));
    var w := Walk(EPOCH, Days(t));
    if Before(w, t) {
      DaysOrdered(w, t);
    } else if Before(t, w) {
      DaysOrdered(t, w);
    }
  }
}
