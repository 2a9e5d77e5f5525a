/**
  The client's civil-date arithmetic: days since 1970-01-01 from a year, month
  and day, computed with Rust's integer division, which truncates toward zero.
 */
module Calendar {

  function TruncDiv(a: int, b: int): int
    requires b > 0
  {
    if a >= 0 then a / b else -((-a) / b)
  }

  function TruncMod(a: int, b: int): int
    requires b > 0
  {
    a - TruncDiv(a, b) * b
  }

  /** The formula of the program, division by division. */
  function DaysFromCivil(year: int, m: int, d: int): int {
    var y := if m <= 2 then year - 1 else year;
    var era := TruncDiv(if y >= 0 then y else y - 399, 400);
    var yoe := y - era * 400;
    var mp := TruncMod(m + 9, 12);
    var doy := TruncDiv(153 * mp + 2, 5) + d - 1;
    var doe := yoe * 365 + TruncDiv(yoe, 4) - TruncDiv(yoe, 100) + doy;
    era * 146097 + doe - 719468
  }

  // ---------- the proleptic Gregorian calendar, step by step ----------

  datatype Date = Date(year: int, month: int, day: int)

  const EPOCH := Date(1970, 1, 1)

  predicate IsLeap(year: int) {
    year % 4 == 0 && (year % 100 != 0 || year % 400 == 0)
  }

  function DaysInMonth(year: int, month: int): int {
    if month == 2 then (if IsLeap(year) then 29 else 28)
    else if month in {4, 6, 9, 11} then 30
    else 31
  }

  predicate Valid(t: Date) {
    1 <= t.month <= 12 && 1 <= t.day <= DaysInMonth(t.year, t.month)
  }

  function NextDay(t: Date): Date {
    if t.day < DaysInMonth(t.year, t.month) then t.(day := t.day + 1)
    else if t.month < 12 then Date(t.year, t.month + 1, 1)
    else Date(t.year + 1, 1, 1)
  }

  function PreviousDay(t: Date): Date {
    if t.day > 1 then t.(day := t.day - 1)
    else if t.month > 1 then Date(t.year, t.month - 1, DaysInMonth(t.year, t.month - 1))
    else Date(t.year - 1, 12, 31)
  }

  /** The date reached by walking n days from the epoch, backwards when n is negative. */
  function Walk(n: int): (t: Date)
    ensures Valid(t)
    decreases if n < 0 then -n else n
  {
    if n == 0 then EPOCH
    else if n > 0 then NextDay(Walk(n - 1))
    else PreviousDay(Walk(n + 1))
  }

  function Days(t: Date): int { DaysFromCivil(t.year, t.month, t.day) }

  // ---------- one step ----------

  /** Days before the first of March of a year counted from year 0, in floor arithmetic. */
  function MarchStart(y: int): int { 365 * y + y / 4 - y / 100 + y / 400 }

  /** Days from the first of March to the first of the month with March-based index mp. */
  function MonthStart(mp: int): int { (153 * mp + 2) / 5 }

  function ShiftedYear(t: Date): int { if t.month <= 2 then t.year - 1 else t.year }

  function ShiftedMonth(t: Date): int { if t.month <= 2 then t.month + 9 else t.month - 3 }

  lemma EraSplit(y: int)
    ensures var era := TruncDiv(if y >= 0 then y else y - 399, 400);
      era == y / 400 && 0 <= y - era * 400 < 400
  {
  }

  lemma CenturyFloors(e: int, r: int)
    requires 0 <= r < 400
    ensures (400 * e + r) / 4 == 100 * e + r / 4
    ensures (400 * e + r) / 100 == 4 * e + r / 100
    ensures (400 * e + r) / 400 == e
  {
  }

  lemma YearFormula(y: int)
    ensures var era := TruncDiv(if y >= 0 then y else y - 399, 400);
      var yoe := y - era * 400;
      era * 146097 + yoe * 365 + TruncDiv(yoe, 4) - TruncDiv(yoe, 100) == MarchStart(y)
  {
    EraSplit(y);
    CenturyFloors(y / 400, y - y / 400 * 400);
  }

  lemma MonthFormula(t: Date)
    requires 1 <= t.month <= 12
    ensures TruncMod(t.month + 9, 12) == ShiftedMonth(t)
    ensures TruncDiv(153 * ShiftedMonth(t) + 2, 5) == MonthStart(ShiftedMonth(t))
  {
  }

  /** The truncating formula collapses to plain floor arithmetic on every valid date. */
  lemma ClosedForm(t: Date)
    requires Valid(t)
    ensures Days(t) == MarchStart(ShiftedYear(t)) + MonthStart(ShiftedMonth(t)) + t.day - 1 - 719468
  {
    hide TruncDiv, TruncMod, MarchStart, MonthStart, ShiftedMonth;
    YearFormula(ShiftedYear(t));
    MonthFormula(t);
  }

  lemma FloorStep(y: int, k: int)
    requires k in {4, 100, 400}
    ensures (y + 1) / k - y / k == if (y + 1) % k == 0 then 1 else 0
  {
  }

  lemma MultipleOfHundred(q: int)
    ensures 100 * q % 100 == 0
  {
  }

  lemma MultipleOfFour(q: int)
    ensures 4 * q % 4 == 0
  {
  }

  lemma CenturiesAreFourfold(y: int)
    ensures y % 400 == 0 ==> y % 100 == 0
    ensures y % 100 == 0 ==> y % 4 == 0
  {
    if y % 400 == 0 {
      MultipleOfHundred(4 * (y / 400));
      assert y == 100 * (4 * (y / 400));
    }
    if y % 100 == 0 {
      MultipleOfFour(25 * (y / 100));
      assert y == 4 * (25 * (y / 100));
    }
  }

  /** A March-based year is as long as the February that ends it says. */
  lemma MarchYearLength(y: int)
    ensures MarchStart(y + 1) - MarchStart(y) == 337 + DaysInMonth(y + 1, 2)
  {
    FloorStep(y, 4);
    FloorStep(y, 100);
    FloorStep(y, 400);
    CenturiesAreFourfold(y + 1);
  }

  lemma MonthLength(t: Date)
    requires Valid(t) && t.month != 2
    ensures ShiftedMonth(t) < 11 &&
            MonthStart(ShiftedMonth(t) + 1) - MonthStart(ShiftedMonth(t)) == DaysInMonth(t.year, t.month)
  {
  }

  /** From the first of March-based month 11 (February) to the next first of March. */
  lemma FebruaryEnds(year: int)
    ensures MarchStart(year) - MarchStart(year - 1) - MonthStart(11) == DaysInMonth(year, 2)
    ensures MonthStart(0) == 0
  {
    MarchYearLength(year - 1);
  }

  lemma StepWithinMonth(t: Date)
    requires Valid(t) && t.day < DaysInMonth(t.year, t.month)
    ensures Days(t.(day := t.day + 1)) == Days(t) + 1
  {
    ClosedForm(t);
    ClosedForm(t.(day := t.day + 1));
  }

  lemma StepToNextMonth(t: Date)
    requires Valid(t) && t.day == DaysInMonth(t.year, t.month)
    ensures Valid(NextDay(t)) && Days(NextDay(t)) == Days(t) + 1
  {
    hide Days, MarchStart, MonthStart;
    ClosedForm(t);
    ClosedForm(NextDay(t));
    if t.month == 2 {
      FebruaryEnds(t.year);
    } else {
      MonthLength(t);
    }
  }

  lemma NextThenPrevious(t: Date)
    requires Valid(t)
    ensures Valid(NextDay(t)) && PreviousDay(NextDay(t)) == t
  {
  }

  lemma StepForward(t: Date)
    requires Valid(t)
    ensures Valid(NextDay(t)) && Days(NextDay(t)) == Days(t) + 1 && PreviousDay(NextDay(t)) == t
  {
    NextThenPrevious(t);
    if t.day < DaysInMonth(t.year, t.month) {
      StepWithinMonth(t);
    } else {
      StepToNextMonth(t);
    }
  }

  lemma StepBackward(t: Date)
    requires Valid(t)
    ensures Valid(PreviousDay(t)) && Days(PreviousDay(t)) == Days(t) - 1 && NextDay(PreviousDay(t)) == t
  {
    hide Days;
    StepForward(PreviousDay(t));
  }

  // ---------- theorems ----------

  lemma {:induction false} WalkIsCounted(n: int)
    ensures Days(Walk(n)) == n
    decreases if n < 0 then -n else n
  {
    hide NextDay, PreviousDay, Valid;
    if n > 0 {
      WalkIsCounted(n - 1);
      StepForward(Walk(n - 1));
    } else if n < 0 {
      WalkIsCounted(n + 1);
      StepBackward(Walk(n + 1));
    }
  }

  /** Lexicographic order of dates. */
  predicate Before(a: Date, b: Date) {
    a.year < b.year || (a.year == b.year && (a.month < b.month || (a.month == b.month && a.day < b.day)))
  }

  lemma MonthsIncrease(a: int, b: int)
    requires 0 <= a < b <= 11
    ensures MonthStart(a) + 30 <= MonthStart(b) <= 337
  {
  }

  lemma {:induction false} MarchYearsIncrease(y: int, z: int)
    requires y < z
    ensures MarchStart(y) + 365 <= MarchStart(z)
    decreases z - y
  {
    MarchYearLength(y);
    if y + 1 < z {
      MarchYearsIncrease(y + 1, z);
    }
  }

  lemma ShiftedMonthLength(t: Date)
    requires Valid(t)
    ensures 0 <= MonthStart(ShiftedMonth(t))
    ensures ShiftedMonth(t) < 11 ==> MonthStart(ShiftedMonth(t)) + t.day - 1 < MonthStart(ShiftedMonth(t) + 1)
    ensures MarchStart(ShiftedYear(t)) + MonthStart(ShiftedMonth(t)) + t.day - 1 < MarchStart(ShiftedYear(t) + 1)
  {
    MarchYearLength(ShiftedYear(t));
  }

  lemma LaterInYear(a: Date, b: Date)
    requires Valid(a) && Valid(b) && ShiftedMonth(a) < ShiftedMonth(b)
    ensures MonthStart(ShiftedMonth(a)) + a.day < MonthStart(ShiftedMonth(b)) + b.day
  {
    ShiftedMonthLength(a);
    if ShiftedMonth(a) + 1 < ShiftedMonth(b) {
      MonthsIncrease(ShiftedMonth(a) + 1, ShiftedMonth(b));
    }
  }

  lemma StrictlyMonotone(a: Date, b: Date)
    requires Valid(a) && Valid(b) && Before(a, b)
    ensures Days(a) < Days(b)
  {
    hide Days, MarchStart, MonthStart;
    ClosedForm(a);
    ClosedForm(b);
    var y, z := ShiftedYear(a), ShiftedYear(b);
    if y < z {
      ShiftedMonthLength(a);
      ShiftedMonthLength(b);
      if y + 1 < z {
        MarchYearsIncrease(y + 1, z);
      }
    } else if ShiftedMonth(a) < ShiftedMonth(b) {
      LaterInYear(a, b);
    }
  }

  lemma Injective(a: Date, b: Date)
    requires Valid(a) && Valid(b) && Days(a) == Days(b)
    ensures a == b
  {
    if Before(a, b) {
      StrictlyMonotone(a, b);
    } else if Before(b, a) {
      StrictlyMonotone(b, a);
    }
  }

  /** The formula is the step-by-step count from the epoch: walking that many days arrives at the date, and at no other. */
  lemma CountsDays(t: Date, n: int)
    requires Valid(t)
    ensures Walk(n) == t <==> Days(t) == n
  {
    WalkIsCounted(n);
    if Days(t) == n {
      Injective(Walk(n), t);
    }
  }
}
