/**
 * Due dates and reminders: the answer of `nextchore`, the overdue test of the
 * daily sweep, and the delay before the reminder that `donechore` schedules.
 */
module Schedule {
  import opened Types
  import opened Calendar
  import opened Registry

  datatype NextDue = UnknownChore | DueNow | DueOn(date: Date)

  /**
   * `__nextchore`: a chore never done is due now; otherwise it is due
   * `frequency_days` days after it was last done.
   */
  function NextChore(chores: Registry, name: string): (due: NextDue)
    ensures due.UnknownChore? <==> name !in chores
    ensures due.DueNow? <==> name in chores && chores[name].lastDone.None?
    ensures due.DueOn? ==>
      Ordinal(due.date) == Ordinal(chores[name].lastDone.value) + chores[name].frequencyDays
  {
    if name !in chores then UnknownChore
    else
      match chores[name].lastDone
      case None => DueNow
      case Some(last) =>
        DueOn(AddDays(last, chores[name].frequencyDays))
  }

  /**
   * The sweep's test: a chore done at least once is overdue once today is not
   * before its next due date, i.e. once `frequency_days` days have passed.
   */
  predicate IsOverdue(chore: Chore, today: Date)
    ensures IsOverdue(chore, today) <==>
      chore.lastDone.Some? && chore.frequencyDays <= Ordinal(today) - Ordinal(chore.lastDone.value)
  {
    match chore.lastDone
    case None => false
    case Some(last) =>
      var nextDue := AddDays(last, chore.frequencyDays);
      BeforeIsOrdinalLess(today, nextDue);
      !Before(today, nextDue)
  }

  /**
   * `chore_check`: the chores the daily sweep pings about, each with the
   * member it mentions. Chores never done are skipped.
   */
  function OverduePings(chores: Registry, today: Date): (pings: map<string, UserId>)
    ensures forall name :: name in pings <==>
      name in chores && chores[name].lastDone.Some?
      && chores[name].frequencyDays <= Ordinal(today) - Ordinal(chores[name].lastDone.value)
    ensures forall name :: name in pings ==> pings[name] == chores[name].assignedTo
  {
    map name | name in chores && IsOverdue(chores[name], today) :: chores[name].assignedTo
  }

  /** A chore due on some date is pinged about on that date and every day after it. */
  lemma PingedFromDueDateOn(chores: Registry, name: string, today: Date)
    requires NextChore(chores, name).DueOn?
    ensures name in OverduePings(chores, today) <==> !Before(today, NextChore(chores, name).date)
  {
    BeforeIsOrdinalLess(today, NextChore(chores, name).date);
  }

  /**
   * The reminder delay in seconds: the seconds left in today (read from the
   * clock as hour, minute and second) plus `frequencyDays` whole days. The
   * reminder thus fires at the midnight that ends day `frequencyDays` after
   * today.
   */
  function ReminderDelay(frequencyDays: int, hour: int, minute: int, second: int): (delay: int)
    requires 0 <= hour < 24 && 0 <= minute < 60 && 0 <= second < 60
    ensures frequencyDays * 86400 + 1 <= delay <= (frequencyDays + 1) * 86400
    ensures hour * 3600 + minute * 60 + second + delay == (frequencyDays + 1) * 86400
  {
    var remainingTimeInDay := 86400 - (hour * 3600 + minute * 60 + second);
    frequencyDays * 24 * 60 * 60 + remainingTimeInDay
  }
}
