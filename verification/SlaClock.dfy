/** How far an SLA's time has run, as src/modules/ticket/services/sla.py computes it, and
    the warning bands over it. Times are seconds; the clock is a parameter. */
module SlaClock {
  import opened Wrappers

  datatype ClockError = DivisionByZero

  function Abs(x: int): nat {
    if x < 0 then -x else x
  }

  /** Python's `int(a / b)`: the quotient truncated toward zero. */
  function TruncatedQuotient(a: int, b: int): (q: int)
    requires b != 0
  {
    if (a >= 0) == (b > 0) then Abs(a) / Abs(b) else -(Abs(a) / Abs(b))
  }

  function ResponsePercentage(responseTime: int, openedAt: int, now: int): Result<int, ClockError> {
    var due := openedAt + responseTime;
    if now >= due then Success(100)
    else if due - openedAt == 0 then Failure(DivisionByZero)
    else Success(TruncatedQuotient((now - openedAt) * 100, due - openedAt))
  }

  function ResolutionPercentage(resolutionTime: int, openedAt: int, now: int): Result<int, ClockError> {
    var due := openedAt + resolutionTime;
    if now > due then Success(100)
    else if due - openedAt == 0 then Failure(DivisionByZero)
    else Success(TruncatedQuotient((now - openedAt) * 100, due - openedAt))
  }

  datatype Level = Warning75 | Warning90 | Warning100

  function Code(l: Level): int {
    match l
    case Warning75 => 75
    case Warning90 => 90
    case Warning100 => 100
  }

  datatype BandError = BelowMinimum

  function LevelOf(value: int): Result<Level, BandError> {
    if 75 <= value < 90 then Success(Warning75)
    else if 90 <= value < 100 then Success(Warning90)
    else if value >= 100 then Success(Warning100)
    else Failure(BelowMinimum)
  }

  // ---------- division ----------

  lemma DivideAtLeast(x: nat, b: int, k: int)
    requires b > 0
    ensures x / b >= k <==> x >= k * b
  {
    var q := x / b;
    assert q * b <= x < (q + 1) * b by {
      assert x == q * b + x % b;
    }
    if q >= k {
      assert q * b >= k * b;
    } else {
      assert (q + 1) * b <= k * b;
    }
  }

  lemma QuotientAtLeast(a: int, b: int, k: int)
    requires b > 0 && k > 0
    ensures TruncatedQuotient(a, b) >= k <==> a >= k * b
  {
    assert k * b > 0;
    if a >= 0 {
      DivideAtLeast(a, b, k);
    } else {
      assert Abs(a) / Abs(b) >= 0;
    }
  }

  lemma DivideMonotone(x: nat, y: nat, b: int)
    requires b > 0 && x <= y
    ensures 0 <= x / b <= y / b
  {
    DivideAtLeast(x, b, x / b);
    DivideAtLeast(x, b, 0);
    DivideAtLeast(y, b, x / b);
  }

  lemma QuotientMonotone(a: int, a': int, b: int)
    requires b > 0 && a <= a'
    ensures TruncatedQuotient(a, b) <= TruncatedQuotient(a', b)
  {
    if a >= 0 {
      DivideMonotone(a, a', b);
    } else if a' < 0 {
      DivideMonotone(-a', -a, b);
    } else {
      DivideMonotone(0, -a, b);
      DivideMonotone(0, a', b);
    }
  }

  lemma QuotientAntitone(a: nat, b: int, b': int)
    requires 0 < b <= b'
    ensures TruncatedQuotient(a, b') <= TruncatedQuotient(a, b)
  {
    var k := a / b';
    DivideAtLeast(a, b', k);
    assert k * b <= k * b';
    DivideAtLeast(a, b, k);
  }

  // ---------- the percentage functions ----------

  /** The value both functions give for a positive budget. */
  function Percentage(budget: int, openedAt: int, now: int): int
    requires budget > 0
  {
    ResponsePercentage(budget, openedAt, now).value
  }

  /** `>=` and `>` against the due time make no difference while the budget is positive;
      otherwise each fails exactly where it divides by zero, one instant apart. */
  lemma ResponseAgreesWithResolution(budget: int, openedAt: int, now: int)
    ensures budget > 0 ==>
              && ResponsePercentage(budget, openedAt, now).Success?
              && ResponsePercentage(budget, openedAt, now) == ResolutionPercentage(budget, openedAt, now)
    ensures ResponsePercentage(budget, openedAt, now).Failure? <==> budget == 0 && now < openedAt
    ensures ResolutionPercentage(budget, openedAt, now).Failure? <==> budget == 0 && now <= openedAt
  {
    if budget > 0 && now == openedAt + budget {
      QuotientAtLeast(budget * 100, budget, 100);
      QuotientAtLeast(budget * 100, budget, 101);
    }
  }

  /** Between 1 and 100, reaching `k` percent means `k` hundredths of the budget are gone. */
  lemma PercentageAtLeast(budget: int, openedAt: int, now: int, k: int)
    requires budget > 0 && 0 < k <= 100
    ensures Percentage(budget, openedAt, now) >= k <==> 100 * (now - openedAt) >= k * budget
    ensures Percentage(budget, openedAt, now) <= 100
  {
    var e := now - openedAt;
    if now >= openedAt + budget {
      assert k * budget <= 100 * budget <= 100 * e;
    } else {
      QuotientAtLeast(e * 100, budget, k);
      QuotientAtLeast(e * 100, budget, 101);
      assert 101 * budget > 100 * e;
    }
  }

  /** Before the opening the percentage is negative, its fraction cut off and not rounded down. */
  lemma PercentageBeforeOpening(budget: int, openedAt: int, now: int, k: int)
    requires budget > 0 && now < openedAt && k >= 0
    ensures Percentage(budget, openedAt, now) <= -k <==> 100 * (openedAt - now) >= k * budget
  {
    DivideAtLeast(100 * (openedAt - now), budget, k);
    assert (now - openedAt) * 100 == -(100 * (openedAt - now));
  }

  /** 75 from three quarters of the budget, 90 from nine tenths, 100 from the due time. */
  lemma BandThresholds(budget: int, openedAt: int, now: int)
    requires budget > 0
    ensures var p := Percentage(budget, openedAt, now);
            && (p >= 75 <==> 4 * (now - openedAt) >= 3 * budget)
            && (p >= 90 <==> 10 * (now - openedAt) >= 9 * budget)
            && (p == 100 <==> now >= openedAt + budget)
            && p <= 100
  {
    PercentageAtLeast(budget, openedAt, now, 75);
    PercentageAtLeast(budget, openedAt, now, 90);
    PercentageAtLeast(budget, openedAt, now, 100);
  }

  lemma PercentageGrowsWithTime(budget: int, openedAt: int, now: int, later: int)
    requires budget > 0 && now <= later
    ensures Percentage(budget, openedAt, now) <= Percentage(budget, openedAt, later)
  {
    BandThresholds(budget, openedAt, now);
    if later < openedAt + budget {
      QuotientMonotone((now - openedAt) * 100, (later - openedAt) * 100, budget);
    }
  }

  lemma PercentageShrinksWithBudget(budget: int, larger: int, openedAt: int, now: int)
    requires 0 < budget <= larger && openedAt <= now
    ensures Percentage(larger, openedAt, now) <= Percentage(budget, openedAt, now)
  {
    BandThresholds(larger, openedAt, now);
    if now < openedAt + budget {
      QuotientAntitone((now - openedAt) * 100, budget, larger);
    }
  }

  /** Before the ticket opens the quotient is negative, and a larger budget pulls it up
      toward zero: the order reverses. */
  lemma PercentageGrowsWithBudgetBeforeOpening(budget: int, larger: int, openedAt: int, now: int)
    requires 0 < budget <= larger && now < openedAt
    ensures Percentage(budget, openedAt, now) <= Percentage(larger, openedAt, now)
  {
    QuotientAntitone((openedAt - now) * 100, budget, larger);
  }
}
