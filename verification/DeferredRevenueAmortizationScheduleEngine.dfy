/**
 The straight-line schedule of DeferredRevenueAmortizationScheduleEngine.ts. Amounts are in cents: the contract
 total is any real number of them, and what the source rounds to two digits of a dollar is a whole number.
 */
module Amortization {

  datatype Period = Period(year: int, month: int)

  datatype Entry = Entry(period: Period, beginningDeferredBalance: int, recognizedRevenue: int, endingDeferredBalance: int)

  function Min(a: int, b: int): int {
    if a < b then a else b
  }

  function Max(a: int, b: int): int {
    if a < b then b else a
  }

  /** The nearest integer, a half away from zero. */
  function Rounded(x: real): (r: int)
    ensures -0.5 <= r as real - x <= 0.5
    ensures r as real - x == 0.5 ==> x >= 0.0
    ensures r as real - x == -0.5 ==> x < 0.0
  {
    if x >= 0.0 then (x + 0.5).Floor else -(-x + 0.5).Floor
  }

  /** The remainder of a division that truncates, as the source language computes it. */
  function Remainder(a: int, n: int): int
    requires n > 0
  {
    if a >= 0 then a % n else -(-a % n)
  }

  /** The period of month `m` of a schedule. */
  function PeriodOf(startYear: int, startMonth: int, m: nat): Period {
    Period(startYear + (startMonth - 1 + m) / 12, Remainder(startMonth - 1 + m, 12) + 1)
  }

  /** The balance when `m` months have been recognised; only the total itself is not a whole number of cents. */
  function Deferred(total: real, rate: int, n: nat, m: nat): real
    requires m <= n
    decreases m, 0
  {
    if m == 0 then total else Rounded(Deferred(total, rate, n, m - 1) - Recognized(total, rate, n, m - 1)) as real
  }

  function Recognized(total: real, rate: int, n: nat, m: nat): real
    requires m < n
    decreases m, 1
  {
    var balance := Deferred(total, rate, n, m);
    if m == n - 1 || balance < rate as real then balance else rate as real
  }

  function MonthlyRate(total: real, n: int): int {
    if n > 0 then Rounded(total / n as real) else 0
  }

  function EntryOf(total: real, startYear: int, startMonth: int, n: nat, m: nat): Entry
    requires m < n
  {
    var rate := MonthlyRate(total, n);
    Entry(PeriodOf(startYear, startMonth, m), Rounded(Deferred(total, rate, n, m)), Rounded(Recognized(total, rate, n, m)),
          Max(0, Rounded(Deferred(total, rate, n, m) - Recognized(total, rate, n, m))))
  }

  function Schedule(total: real, startYear: int, startMonth: int, n: int): seq<Entry> {
    if n <= 0 then [] else seq(n, m requires 0 <= m < n => EntryOf(total, startYear, startMonth, n, m))
  }

  class DeferredRevenueAmortizationScheduleEngine {
    method GenerateStraightLineSchedule(contractTotal: real, startYear: int, startMonth: int, durationMonths: int)
      returns (schedule: seq<Entry>)
      ensures schedule == Schedule(contractTotal, startYear, startMonth, durationMonths)
    {
      schedule := [];
      if durationMonths <= 0 {
        return;
      }
      var monthlyRate := Rounded(contractTotal / durationMonths as real);
      var currentDeferred := contractTotal;
      for m := 0 to durationMonths
        invariant currentDeferred == Deferred(contractTotal, monthlyRate, durationMonths, m)
        invariant |schedule| == m
        invariant forall k | 0 <= k < m :: schedule[k] == EntryOf(contractTotal, startYear, startMonth, durationMonths, k)
      {
        var actualYear := startYear + (startMonth - 1 + m) / 12;
        var actualMonth := Remainder(startMonth - 1 + m, 12) + 1;
        var recognized := if m == durationMonths - 1 || currentDeferred < monthlyRate as real then currentDeferred
                          else monthlyRate as real;
        var endBalance := Rounded(currentDeferred - recognized);
        var entry := Entry(Period(actualYear, actualMonth), Rounded(currentDeferred), Rounded(recognized), Max(0, endBalance));
        schedule := schedule + [entry];
        currentDeferred := endBalance as real;
      }
    }
  }

  // ---------- the schedule in whole cents ----------

  /** The balances of a total that is a whole number of cents. */
  function Balance(cents: int, rate: int, n: nat, m: nat): int
    requires m <= n
    decreases m, 0
  {
    if m == 0 then cents else Balance(cents, rate, n, m - 1) - Revenue(cents, rate, n, m - 1)
  }

  function Revenue(cents: int, rate: int, n: nat, m: nat): int
    requires m < n
    decreases m, 1
  {
    var balance := Balance(cents, rate, n, m);
    if m == n - 1 then balance else Min(balance, rate)
  }

  /** `n` payments of `rate` miss the total by at most half a cent each. */
  ghost predicate IsRate(cents: int, rate: int, n: nat) {
    -(n as int) <= 2 * (n * rate - cents) <= n
  }

  lemma RoundedWhole(k: int)
    ensures Rounded(k as real) == k
  {
  }

  lemma RoundedShift(x: real, k: int)
    requires 0.0 <= k as real <= x || x == k as real
    ensures Rounded(x - k as real) == Rounded(x) - k
  {
    if 0.0 <= k as real <= x {
      assert (x - k as real + 0.5).Floor == (x + 0.5).Floor - k;
    }
  }

  lemma RoundedIsMonotone(x: real, y: real)
    requires x <= y
    ensures Rounded(x) <= Rounded(y)
  {
  }

  lemma {:induction false} RealProduct(n: nat, k: int)
    ensures (n * k) as real == n as real * k as real
    decreases n
  {
    if n > 0 {
      RealProduct(n - 1, k);
      assert n * k == (n - 1) * k + k;
      assert n as real * k as real == (n - 1) as real * k as real + k as real;
    }
  }

  lemma Product(x: real, y: real)
    requires x >= 0.0 && y > 0.0
    ensures x * y >= 0.0 && (x * y == 0.0 <==> x == 0.0)
  {
  }

  lemma HalfScaled(a: real, b: real, n: real, scaled: real)
    requires -0.5 <= a - b <= 0.5 && n > 0.0 && scaled == n * a - b * n
    ensures -0.5 * n <= scaled <= 0.5 * n
    ensures scaled == 0.5 * n ==> a - b == 0.5
    ensures scaled == -0.5 * n ==> a - b == -0.5
  {
    assert scaled == (a - b) * n;
    Product(0.5 - (a - b), n);
    Product(0.5 + (a - b), n);
  }

  /** Two roundings of the same number miss by a half on the same side. */
  lemma HalvesDoNotAdd(d: int, n: nat, a: real, b: real)
    requires d as real == a - b && -0.5 * n as real <= a <= 0.5 * n as real && -0.5 <= b <= 0.5
    requires !(a == 0.5 * n as real && b == -0.5) && !(a == -0.5 * n as real && b == 0.5)
    ensures -(n as int) <= 2 * d <= n
  {
    assert -0.5 * n as real - 0.5 < d as real < 0.5 * n as real + 0.5;
    assert (2 * d) as real == 2.0 * d as real;
  }

  lemma RateFits(total: real, n: nat)
    requires n >= 1
    ensures IsRate(Rounded(total), MonthlyRate(total, n), n)
  {
    var cents, rate, share := Rounded(total), MonthlyRate(total, n), total / n as real;
    RealProduct(n, rate);
    assert share * n as real == total;
    HalfScaled(rate as real, share, n as real, (n * rate) as real - total);
    Product(if share < 0.0 then -share else share, n as real);
    HalvesDoNotAdd(n * rate - cents, n, (n * rate) as real - total, cents as real - total);
  }

  /** A negative total is at most the rate, unless a single month recognises it. */
  lemma NegativeTotalIsAtMostRate(total: real, n: nat)
    requires total < 0.0 && n >= 2
    ensures total <= MonthlyRate(total, n) as real
  {
    var rate, share := MonthlyRate(total, n), total / n as real;
    if rate <= -1 {
      assert share < 0.0;
      assert share * n as real <= share * 2.0;
    }
  }

  /** The first month of a schedule over several months leaves what it would leave of the rounded total. */
  lemma FirstMonth(total: real, n: nat)
    requires n >= 2
    ensures var rate, cents := MonthlyRate(total, n), Rounded(total);
            && Rounded(Recognized(total, rate, n, 0)) == Min(cents, rate)
            && Rounded(total - Recognized(total, rate, n, 0)) == cents - Min(cents, rate)
  {
    var rate := MonthlyRate(total, n);
    RoundedWhole(rate);
    RoundedWhole(0);
    if total < rate as real {
      RoundedIsMonotone(total, rate as real);
    } else {
      RoundedIsMonotone(rate as real, total);
      if total < 0.0 {
        NegativeTotalIsAtMostRate(total, n);
      } else {
        RateIsNonNegative(total, n);
      }
      RoundedShift(total, rate);
    }
  }

  lemma RateIsNonNegative(total: real, n: nat)
    requires total >= 0.0 && n >= 1
    ensures MonthlyRate(total, n) >= 0
  {
    assert total / n as real >= 0.0;
  }

  /** Whatever fraction of a cent the total has, the schedule is the one in whole cents for the rounded total. */
  lemma {:induction false} InWholeCents(total: real, n: nat, m: nat)
    requires 1 <= m <= n
    ensures var rate := MonthlyRate(total, n);
            Deferred(total, rate, n, m) == Balance(Rounded(total), rate, n, m) as real
    decreases m
  {
    var rate, cents := MonthlyRate(total, n), Rounded(total);
    if m > 1 {
      InWholeCents(total, n, m - 1);
      assert Recognized(total, rate, n, m - 1) == Revenue(cents, rate, n, m - 1) as real;
      RoundedWhole(Balance(cents, rate, n, m));
    } else if n >= 2 {
      FirstMonth(total, n);
      assert Balance(cents, rate, n, 0) == cents;
    } else {
      RoundedWhole(0);
    }
  }

  /** So every entry is what the schedule in whole cents says. */
  lemma EntriesInWholeCents(total: real, startYear: int, startMonth: int, n: nat, m: nat)
    requires m < n
    ensures var entry := Schedule(total, startYear, startMonth, n)[m];
            var rate, cents := MonthlyRate(total, n), Rounded(total);
            && entry.beginningDeferredBalance == Balance(cents, rate, n, m)
            && entry.recognizedRevenue == Revenue(cents, rate, n, m)
            && entry.endingDeferredBalance == Max(0, Balance(cents, rate, n, m + 1))
  {
    var rate, cents := MonthlyRate(total, n), Rounded(total);
    InWholeCents(total, n, m + 1);
    RoundedWhole(Balance(cents, rate, n, m + 1));
    if m > 0 {
      InWholeCents(total, n, m);
      RoundedWhole(Balance(cents, rate, n, m));
      RoundedWhole(Revenue(cents, rate, n, m));
    } else if n >= 2 {
      FirstMonth(total, n);
    }
  }

  // ---------- the amounts ----------

  function TotalRecognized(schedule: seq<Entry>): int {
    if schedule == [] then 0 else TotalRecognized(schedule[..|schedule| - 1]) + schedule[|schedule| - 1].recognizedRevenue
  }

  lemma {:induction false} RecognizedSoFar(total: real, startYear: int, startMonth: int, n: nat, m: nat)
    requires m <= n
    ensures TotalRecognized(Schedule(total, startYear, startMonth, n)[..m]) + Balance(Rounded(total), MonthlyRate(total, n), n, m)
            == Rounded(total)
    decreases m
  {
    if m > 0 {
      var schedule := Schedule(total, startYear, startMonth, n);
      RecognizedSoFar(total, startYear, startMonth, n, m - 1);
      EntriesInWholeCents(total, startYear, startMonth, n, m - 1);
      assert schedule[..m][..m - 1] == schedule[..m - 1];
    }
  }

  /** The whole contract is recognised, to the cent, also for negative totals. */
  lemma WholeTotalIsRecognized(total: real, startYear: int, startMonth: int, n: nat)
    requires n >= 1
    ensures TotalRecognized(Schedule(total, startYear, startMonth, n)) == Rounded(total)
  {
    var schedule := Schedule(total, startYear, startMonth, n);
    RecognizedSoFar(total, startYear, startMonth, n, n);
    assert schedule[..n] == schedule;
  }

  lemma Scaled(n: nat, a: int, b: int)
    requires a <= b
    ensures n * a <= n * b
  {
  }

  lemma LowRateRoundsBadly(cents: int, n: nat, rate: int)
    requires rate < cents < 0 && n >= 1
    ensures 2 * (n * rate - cents) < -(n as int)
  {
    Scaled(n, rate, cents - 1);
    Scaled(n - 1, cents, 0);
    assert n * (cents - 1) == n * cents - n && (n - 1) * cents == n * cents - cents;
  }

  lemma NegativeCentsAreAtMostRate(cents: int, n: nat, rate: int)
    requires cents < 0 && n >= 1 && IsRate(cents, rate, n)
    ensures cents <= rate
  {
    if rate < cents {
      LowRateRoundsBadly(cents, n, rate);
    }
  }

  /** Only a contract with a negative total ever has a negative balance, and only at the beginning. */
  lemma {:induction false} BalanceIsNonNegative(cents: int, rate: int, n: nat, m: nat)
    requires m <= n && (m == 0 ==> cents >= 0) && IsRate(cents, rate, n)
    ensures Balance(cents, rate, n, m) >= 0
    decreases m
  {
    if m > 1 || (m == 1 && cents >= 0) {
      BalanceIsNonNegative(cents, rate, n, m - 1);
    } else if m == 1 {
      NegativeCentsAreAtMostRate(cents, n, rate);
    }
  }

  /** Every balance carries over to the next month, and nothing is left at the end. */
  lemma BalancesChain(total: real, startYear: int, startMonth: int, n: nat, m: nat)
    requires m < n
    ensures var schedule := Schedule(total, startYear, startMonth, n);
            && schedule[0].beginningDeferredBalance == Rounded(total)
            && schedule[n - 1].endingDeferredBalance == 0
            && (m + 1 < n ==> schedule[m].endingDeferredBalance == schedule[m + 1].beginningDeferredBalance)
            && schedule[m].beginningDeferredBalance - schedule[m].recognizedRevenue == schedule[m].endingDeferredBalance
  {
    RateFits(total, n);
    EntriesInWholeCents(total, startYear, startMonth, n, m);
    EntriesInWholeCents(total, startYear, startMonth, n, n - 1);
    if m + 1 < n {
      EntriesInWholeCents(total, startYear, startMonth, n, m + 1);
    }
    BalanceIsNonNegative(Rounded(total), MonthlyRate(total, n), n, m + 1);
  }

  lemma RateOfCents(cents: int, n: nat, rate: int)
    requires cents >= 0 && n >= 1 && IsRate(cents, rate, n)
    ensures rate >= 0
  {
    if rate < 0 {
      Scaled(n, rate, -1);
    }
  }

  /** Revenue is never taken back exactly when the total is not negative, to the cent. */
  lemma RevenueIsNonNegative(total: real, startYear: int, startMonth: int, n: nat)
    requires n >= 1
    ensures (forall m | 0 <= m < n :: Schedule(total, startYear, startMonth, n)[m].recognizedRevenue >= 0) <==> Rounded(total) >= 0
  {
    var rate, cents := MonthlyRate(total, n), Rounded(total);
    RateFits(total, n);
    if cents >= 0 {
      RateOfCents(cents, n, rate);
      forall m | 0 <= m < n ensures Schedule(total, startYear, startMonth, n)[m].recognizedRevenue >= 0 {
        EntriesInWholeCents(total, startYear, startMonth, n, m);
        BalanceIsNonNegative(cents, rate, n, m);
      }
    } else {
      EntriesInWholeCents(total, startYear, startMonth, n, 0);
      assert Schedule(total, startYear, startMonth, n)[0].recognizedRevenue <= cents;
    }
  }

  lemma {:induction false} BalanceAfter(cents: int, rate: int, n: nat, m: nat)
    requires m < n && cents >= 0 && rate >= 0
    ensures Balance(cents, rate, n, m) == Max(0, cents - m * rate)
    decreases m
  {
    if m > 0 {
      BalanceAfter(cents, rate, n, m - 1);
      assert cents - m * rate == cents - (m - 1) * rate - rate;
      assert (m - 1) * rate >= 0;
    }
  }

  /** A negative total is recognised at once, and then the rate again in every month that is not the last. */
  lemma {:induction false} NegativeBalanceAfter(cents: int, rate: int, n: nat, m: nat)
    requires 1 <= m < n && cents < 0 && cents <= rate <= 0
    ensures Balance(cents, rate, n, m) == -(m - 1) * rate
    decreases m
  {
    if m == 1 {
      assert Balance(cents, rate, n, 0) == cents;
    } else {
      NegativeBalanceAfter(cents, rate, n, m - 1);
      Scaled(m - 2, rate, 0);
      assert -(m - 2) * rate - rate == -(m - 1) * rate;
    }
  }

  lemma RateOfNegativeCents(cents: int, n: nat, rate: int)
    requires cents < 0 && n >= 1 && IsRate(cents, rate, n)
    ensures cents <= rate <= 0
  {
    NegativeCentsAreAtMostRate(cents, n, rate);
    if rate > 0 {
      Scaled(n, 1, rate);
    }
  }

  /**
   What each month begins with: what whole rates leave of the total; or, once a negative total has been recognised
   at once, the rates that have been recognised again.
   */
  lemma BalanceClosedForm(total: real, startYear: int, startMonth: int, n: nat, m: nat)
    requires m < n
    ensures var rate, cents := MonthlyRate(total, n), Rounded(total);
            Schedule(total, startYear, startMonth, n)[m].beginningDeferredBalance ==
            if cents >= 0 then Max(0, cents - m * rate) else if m == 0 then cents else -(m - 1) * rate
  {
    var rate, cents := MonthlyRate(total, n), Rounded(total);
    RateFits(total, n);
    EntriesInWholeCents(total, startYear, startMonth, n, m);
    if cents >= 0 {
      RateOfCents(cents, n, rate);
      BalanceAfter(cents, rate, n, m);
    } else if m > 0 {
      RateOfNegativeCents(cents, n, rate);
      NegativeBalanceAfter(cents, rate, n, m);
    }
  }

  /** The last month makes up for the rounding of the rate, half a cent for each month at most. */
  lemma LastMonthIsCloseToRate(total: real, startYear: int, startMonth: int, n: nat)
    requires n >= 1 && Rounded(total) >= 0
    ensures var last := Schedule(total, startYear, startMonth, n)[n - 1].recognizedRevenue;
            2 * (last - MonthlyRate(total, n)) <= n && 2 * (MonthlyRate(total, n) - last) <= n
  {
    var rate, cents := MonthlyRate(total, n), Rounded(total);
    RateFits(total, n);
    RateOfCents(cents, n, rate);
    EntriesInWholeCents(total, startYear, startMonth, n, n - 1);
    BalanceAfter(cents, rate, n, n - 1);
    assert (n - 1) * rate == n * rate - rate;
  }

  // ---------- the periods ----------

  /** From any month on that is at least 1, the periods are consecutive months of the calendar. */
  lemma PeriodsAreConsecutive(total: real, startYear: int, startMonth: int, n: nat, m: nat)
    requires m < n && startMonth >= 1
    ensures var period := Schedule(total, startYear, startMonth, n)[m].period;
            && 1 <= period.month <= 12
            && 12 * period.year + period.month == 12 * startYear + startMonth + m
  {
    var months := startMonth - 1 + m;
    assert months == 12 * (months / 12) + months % 12;
  }

  lemma OppositeRemainder(a: int)
    requires a < 0
    ensures -a % 12 == if a % 12 == 0 then 0 else 12 - a % 12
  {
    var q, r := a / 12, a % 12;
    assert a == 12 * q + r && -a == 12 * (-q - 1) + (12 - r);
  }

  /**
   Month `m` of a schedule is a month of the calendar unless it lies before the start year and is no January; then its
   number is a year too small.
   */
  lemma MonthIsValidIff(startYear: int, startMonth: int, m: nat)
    ensures var period := PeriodOf(startYear, startMonth, m);
            && -10 <= period.month <= 12
            && 12 * period.year + period.month ==
               12 * startYear + startMonth + m - (if 1 <= period.month <= 12 then 0 else 12)
    ensures 1 <= PeriodOf(startYear, startMonth, m).month <= 12 <==> startMonth - 1 + m >= 0 || (startMonth - 1 + m) % 12 == 0
  {
    if startMonth - 1 + m < 0 {
      OppositeRemainder(startMonth - 1 + m);
    }
  }
}
