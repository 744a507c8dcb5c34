/** The alert table of the SLA monitor: what repeated polls leave in it
    (src/modules/ticket/services/sla.py). */
module SlaAlerts {
  import opened Wrappers
  import opened SlaClock

  datatype AlertType = Response | Resolution

  datatype Alert = Alert(ticket: int, kind: AlertType, level: Level, sentAt: int)

  /** One check of one clock of one ticket during a poll. */
  datatype Check = Check(ticket: int, kind: AlertType, budget: int, openedAt: int, now: int)

  function PercentageOf(c: Check): Result<int, ClockError> {
    if c.kind == Response then ResponsePercentage(c.budget, c.openedAt, c.now)
    else ResolutionPercentage(c.budget, c.openedAt, c.now)
  }

  predicate Alerted(alerts: seq<Alert>, ticket: int, kind: AlertType, level: Level) {
    exists a | a in alerts :: a.ticket == ticket && a.kind == kind && a.level == level
  }

  /** The level a check calls for. The 90 band calls for nothing. */
  function Due(c: Check): Option<Level> {
    match PercentageOf(c)
    case Failure(_) => None
    case Success(p) =>
      match LevelOf(p)
      case Failure(_) => None
      case Success(l) => if l == Warning90 then None else Some(l)
  }

  function After(alerts: seq<Alert>, c: Check): seq<Alert> {
    if Due(c).None? || Alerted(alerts, c.ticket, c.kind, Due(c).value) then alerts
    else alerts + [Alert(c.ticket, c.kind, Due(c).value, c.now)]
  }

  /** The table after a whole history of checks, oldest first. */
  function Table(log: seq<Check>): seq<Alert> {
    if log == [] then [] else After(Table(log[..|log| - 1]), log[|log| - 1])
  }

  predicate SameClock(a: Check, b: Check) {
    a.ticket == b.ticket && a.kind == b.kind
  }

  /** Budgets are positive and, like opening times, do not change; the clock never goes back. */
  predicate Steady(log: seq<Check>) {
    && (forall i | 0 <= i < |log| :: log[i].budget > 0)
    && (forall i, j | 0 <= i < j < |log| :: log[i].now <= log[j].now)
    && (forall i, j | 0 <= i < j < |log| && SameClock(log[i], log[j]) ::
          log[i].budget == log[j].budget && log[i].openedAt == log[j].openedAt)
  }

  ghost predicate Witnessed(log: seq<Check>, a: Alert) {
    exists c | c in log :: c.ticket == a.ticket && c.kind == a.kind && Due(c) == Some(a.level) && c.now == a.sentAt
  }

  /** At or after the due time. */
  predicate Breached(c: Check) {
    c.now >= c.openedAt + c.budget
  }

  /** From three quarters up to nine tenths of the budget. */
  predicate Warned(c: Check) {
    4 * (c.now - c.openedAt) >= 3 * c.budget && 10 * (c.now - c.openedAt) < 9 * c.budget
  }

  lemma DueThresholds(c: Check)
    requires c.budget > 0
    ensures Due(c) == if Breached(c) then Some(Warning100) else if Warned(c) then Some(Warning75) else None
  {
    ResponseAgreesWithResolution(c.budget, c.openedAt, c.now);
    BandThresholds(c.budget, c.openedAt, c.now);
  }

  lemma {:induction false} EveryAlertIsWitnessed(log: seq<Check>)
    ensures forall a | a in Table(log) :: Witnessed(log, a)
  {
    if log == [] {
    } else {
      var before := log[..|log| - 1];
      EveryAlertIsWitnessed(before);
      forall a | a in Table(log)
        ensures Witnessed(log, a)
      {
        if a in Table(before) {
          var c :| c in before
            && c.ticket == a.ticket && c.kind == a.kind && Due(c) == Some(a.level) && c.now == a.sentAt;
          assert c in log;
        } else {
          assert log[|log| - 1] in log;
        }
      }
    }
  }

  /** Some check of the clock called for the level. */
  predicate Called(log: seq<Check>, ticket: int, kind: AlertType, level: Level) {
    exists c | c in log :: c.ticket == ticket && c.kind == kind && Due(c) == Some(level)
  }

  /** A row for a level exists exactly when some check called for that level. */
  lemma {:induction false} AlertedExactlyWhenDue(log: seq<Check>, ticket: int, kind: AlertType, level: Level)
    ensures Alerted(Table(log), ticket, kind, level) <==> Called(log, ticket, kind, level)
  {
    if log == [] {
    } else {
      var before, last := log[..|log| - 1], log[|log| - 1];
      AlertedExactlyWhenDue(before, ticket, kind, level);
      assert log == before + [last];
      var a := Table(before);
      if Due(last).Some? && !Alerted(a, last.ticket, last.kind, Due(last).value) {
        var row := Alert(last.ticket, last.kind, Due(last).value, last.now);
        assert forall x :: x in a + [row] <==> x in a || x == row;
      }
    }
  }

  /** Whatever the history, no clock gets two rows of one level. */
  lemma {:induction false} OneRowPerLevel(log: seq<Check>, i: nat, j: nat)
    requires i < j < |Table(log)|
    requires Table(log)[i].ticket == Table(log)[j].ticket && Table(log)[i].kind == Table(log)[j].kind
    ensures Table(log)[i].level != Table(log)[j].level
  {
    if log == [] {
    } else {
      var before := log[..|log| - 1];
      if j < |Table(before)| {
        OneRowPerLevel(before, i, j);
      } else {
        assert Table(before)[i] in Table(before);
      }
    }
  }

  // ---------- the order of a clock's rows ----------

  /** Each row of the clock has a higher level than its rows before it. */
  predicate LevelsRise(alerts: seq<Alert>, ticket: int, kind: AlertType) {
    forall i, j | 0 <= i < j < |alerts|
        && alerts[i].ticket == alerts[j].ticket == ticket && alerts[i].kind == alerts[j].kind == kind ::
      Code(alerts[i].level) < Code(alerts[j].level)
  }

  /** The check calls for a 75 row of the clock, whose earlier checks called for a 100 row and
      not yet for a 75 row. */
  predicate CallsLate(before: seq<Check>, c: Check, ticket: int, kind: AlertType) {
    && c.ticket == ticket && c.kind == kind && Due(c) == Some(Warning75)
    && Called(before, ticket, kind, Warning100) && !Called(before, ticket, kind, Warning75)
  }

  predicate CalledLate(log: seq<Check>, ticket: int, kind: AlertType) {
    exists j | 0 <= j < |log| :: CallsLate(log[..j], log[j], ticket, kind)
  }

  lemma CalledLateAppend(log: seq<Check>, c: Check, ticket: int, kind: AlertType)
    ensures CalledLate(log + [c], ticket, kind) <==> CalledLate(log, ticket, kind) || CallsLate(log, c, ticket, kind)
  {
    var all := log + [c];
    assert forall j | 0 <= j < |log| :: all[..j] == log[..j] && all[j] == log[j];
    assert all[..|log|] == log;
  }

  lemma NeverDue90(c: Check)
    ensures Due(c) != Some(Warning90)
  {
  }

  // One more row keeps the levels rising exactly when the clock has none as high.
  lemma OneMoreRow(alerts: seq<Alert>, a: Alert, ticket: int, kind: AlertType)
    ensures LevelsRise(alerts + [a], ticket, kind) <==>
            && LevelsRise(alerts, ticket, kind)
            && (a.ticket == ticket && a.kind == kind ==>
                  forall b | b in alerts && b.ticket == ticket && b.kind == kind :: Code(b.level) < Code(a.level))
  {
    var all := alerts + [a];
    assert forall i | 0 <= i < |alerts| :: all[i] == alerts[i];
    if LevelsRise(all, ticket, kind) && a.ticket == ticket && a.kind == kind {
      forall b | b in alerts && b.ticket == ticket && b.kind == kind
        ensures Code(b.level) < Code(a.level)
      {
        var i :| 0 <= i < |alerts| && alerts[i] == b;
        assert all[|alerts|] == a;
      }
    }
  }

  // The new row is the highest unless it is a 75 row after a 100 row.
  lemma NewRowIsHighest(log: seq<Check>, c: Check)
    requires Due(c).Some? && !Alerted(Table(log), c.ticket, c.kind, Due(c).value)
    ensures CallsLate(log, c, c.ticket, c.kind) <==>
            !forall b | b in Table(log) && b.ticket == c.ticket && b.kind == c.kind ::
              Code(b.level) < Code(Due(c).value)
  {
    AlertedExactlyWhenDue(log, c.ticket, c.kind, Warning75);
    AlertedExactlyWhenDue(log, c.ticket, c.kind, Warning100);
    EveryAlertIsWitnessed(log);
    NeverDue90(c);
    forall b | b in Table(log) && b.ticket == c.ticket && b.kind == c.kind
      ensures b.level != Due(c).value && b.level != Warning90
    {
      var d :| d in log && d.ticket == b.ticket && d.kind == b.kind && Due(d) == Some(b.level) && d.now == b.sentAt;
      NeverDue90(d);
    }
  }

  // One more check keeps the rows rising exactly when it does not call late.
  lemma LevelsRiseStep(log: seq<Check>, c: Check, ticket: int, kind: AlertType)
    ensures LevelsRise(After(Table(log), c), ticket, kind) <==>
            LevelsRise(Table(log), ticket, kind) && !CallsLate(log, c, ticket, kind)
  {
    hide Due, LevelsRise, Table, Called, Alerted;
    if Due(c).Some? {
      AlertedExactlyWhenDue(log, c.ticket, c.kind, Due(c).value);
      if !Alerted(Table(log), c.ticket, c.kind, Due(c).value) {
        OneMoreRow(Table(log), Alert(c.ticket, c.kind, Due(c).value, c.now), ticket, kind);
        NewRowIsHighest(log, c);
      }
    }
  }

  /** For every history whatever, a clock's rows rise exactly when no check called for a 75 row
      after a 100 row and before any other 75 row. */
  lemma {:induction false} LevelsRiseUnlessCalledLate(log: seq<Check>, ticket: int, kind: AlertType)
    ensures LevelsRise(Table(log), ticket, kind) <==> !CalledLate(log, ticket, kind)
  {
    hide LevelsRise, CalledLate, CallsLate, After;
    if log == [] {
      NothingRises(ticket, kind);
    } else {
      var before, last := log[..|log| - 1], log[|log| - 1];
      LevelsRiseUnlessCalledLate(before, ticket, kind);
      LevelsRiseStep(before, last, ticket, kind);
      CalledLateAppend(before, last, ticket, kind);
      assert log == before + [last];
    }
  }

  lemma NothingRises(ticket: int, kind: AlertType)
    ensures LevelsRise([], ticket, kind) && !CalledLate([], ticket, kind)
  {
  }

  // ---------- the same on budgets and times ----------

  predicate OfClock(c: Check, ticket: int, kind: AlertType) {
    c.ticket == ticket && c.kind == kind
  }

  predicate PositiveBudgets(log: seq<Check>) {
    forall c | c in log :: c.budget > 0
  }

  /** Some check of the clock came in the warning range after one past the due time, and
      none before it had come in the warning range: between the two the clock was given a
      longer budget, or set back. */
  predicate WarnsLate(log: seq<Check>, ticket: int, kind: AlertType) {
    exists j | 0 <= j < |log| ::
      && OfClock(log[j], ticket, kind) && Warned(log[j])
      && (exists i | 0 <= i < j :: OfClock(log[i], ticket, kind) && Breached(log[i]))
      && (forall i | 0 <= i < j && OfClock(log[i], ticket, kind) :: !Warned(log[i]))
  }

  lemma CalledOnTheClock(log: seq<Check>, j: nat, ticket: int, kind: AlertType)
    requires PositiveBudgets(log) && j <= |log|
    ensures Called(log[..j], ticket, kind, Warning100) <==>
            exists i | 0 <= i < j :: OfClock(log[i], ticket, kind) && Breached(log[i])
    ensures Called(log[..j], ticket, kind, Warning75) <==>
            exists i | 0 <= i < j :: OfClock(log[i], ticket, kind) && Warned(log[i])
  {
    forall i | 0 <= i < j
      ensures log[i] in log[..j]
      ensures Due(log[i]) == Some(Warning100) <==> Breached(log[i])
      ensures Due(log[i]) == Some(Warning75) <==> Warned(log[i])
    {
      assert log[..j][i] == log[i] && log[i] in log;
      DueThresholds(log[i]);
    }
  }

  /** A clock's rows rise exactly when it never warns late. */
  lemma LevelsRiseUnlessWarnedLate(log: seq<Check>, ticket: int, kind: AlertType)
    requires PositiveBudgets(log)
    ensures LevelsRise(Table(log), ticket, kind) <==> !WarnsLate(log, ticket, kind)
  {
    LevelsRiseUnlessCalledLate(log, ticket, kind);
    hide Due, LevelsRise, Table, Called;
    forall j | 0 <= j < |log|
      ensures CallsLate(log[..j], log[j], ticket, kind) <==>
              && OfClock(log[j], ticket, kind) && Warned(log[j])
              && (exists i | 0 <= i < j :: OfClock(log[i], ticket, kind) && Breached(log[i]))
              && (forall i | 0 <= i < j && OfClock(log[i], ticket, kind) :: !Warned(log[i]))
    {
      CalledOnTheClock(log, j, ticket, kind);
      assert log[j] in log;
      DueThresholds(log[j]);
    }
  }

  /** With a clock that never goes back and budgets and opening times that do not change,
      none warns late. */
  lemma LevelsIncrease(log: seq<Check>, ticket: int, kind: AlertType)
    requires Steady(log)
    ensures LevelsRise(Table(log), ticket, kind)
  {
    assert PositiveBudgets(log) by {
      forall c | c in log
        ensures c.budget > 0
      {
        var i :| 0 <= i < |log| && log[i] == c;
      }
    }
    LevelsRiseUnlessWarnedLate(log, ticket, kind);
    forall i, j | 0 <= i < j < |log| && OfClock(log[i], ticket, kind) && OfClock(log[j], ticket, kind)
      ensures Breached(log[i]) ==> !Warned(log[j])
    {
      assert SameClock(log[i], log[j]);
    }
  }

  /** What the rows say of a clock, whatever became of its budgets: a breach row exactly when
      some check came at or after the due time it then had, a 75 row exactly when one fell
      from three quarters up to nine tenths of the budget it then had, and no 90 row. */
  lemma TableTellsTheClock(log: seq<Check>, ticket: int, kind: AlertType)
    requires PositiveBudgets(log)
    ensures Alerted(Table(log), ticket, kind, Warning100) <==>
            exists c | c in log :: OfClock(c, ticket, kind) && Breached(c)
    ensures Alerted(Table(log), ticket, kind, Warning75) <==>
            exists c | c in log :: OfClock(c, ticket, kind) && Warned(c)
    ensures !Alerted(Table(log), ticket, kind, Warning90)
  {
    AlertedExactlyWhenDue(log, ticket, kind, Warning75);
    AlertedExactlyWhenDue(log, ticket, kind, Warning90);
    AlertedExactlyWhenDue(log, ticket, kind, Warning100);
    forall c | c in log
      ensures Due(c) == Some(Warning100) <==> Breached(c)
      ensures Due(c) == Some(Warning75) <==> Warned(c)
      ensures Due(c) != Some(Warning90)
    {
      DueThresholds(c);
    }
  }

  lemma {:induction false} TableAppend(log: seq<Check>, c: Check)
    ensures Table(log + [c]) == After(Table(log), c)
  {
    assert (log + [c])[..|log|] == log;
  }
}
