# Chore rotation bot: a verified model of its state machine

This project models the core of a chat bot that hands out household chores
(`chore_bot.py`). It keeps three stores and runs one state machine over them:

- **Roster**: the global rotation, an ordered list of member ids (`Roster`).
- **Chore registry**: chores by name. Each chore has an assignee, a cadence
  in days, the date and author of its last completion, and its own rotation
  (`Registry`).
- **Smiley ledger**: member id to chore name to a count of smileys
  (`Ledger`). A smiley is meant as a banked skip: under the repaired
  completion rule (`Completion.Completed`), someone who holds one gives it up
  and is passed over when the rotation reaches them. The code as written
  passes nobody over (see Findings). Its loop only ever asks the successor
  of the completer's id, which gives up one smiley per pass and then gets
  the chore; nobody else's smileys are ever read.

The model covers these parts:

- the rotation successor rule (`Rotation`);
- the ledger helpers;
- the roster commands;
- chore creation and removal, including the weekly and monthly variants;
- the completion transition (`Completion`);
- next-due dates, the daily overdue sweep and the reminder delay (`Schedule`);
- the Gregorian calendar they rely on (`Calendar`).

The stores are plain values. Each command takes the documents it loads and
returns the documents it saves. Commands that update state step by step are
methods. Most of them are proved equal to a specification function, and the
lemmas are stated about those functions. `Roster.RemoveUser` and
`Registry.RemoveChore` instead state their whole result directly in their
postconditions.

Behaviour of the code that a reader might not expect, all modelled as written:

- `removechore` and `donechore` report an unknown name and change nothing.
  `removeuser` silently ignores an id that is not in the roster.
- When someone other than the assignee completes a chore, the smiley goes to
  the member who did it (`chore_bot.py:321`), not to the assignee. With the
  repaired completion rule (`Completion.Completed`), that member is skipped
  the next time the rotation reaches them. As written, the loop only ever
  looks at the successor of the completer's own id, so a banked smiley is
  spent only when that successor holds it.
- `addmonthlychore` uses the length of the **current** month
  (`chore_bot.py:255`): the day before the first of month `m % 12 + 1`. In
  December this is 31 December of the previous year, which is still 31 days.
  `Calendar.MonthLengthAsComputed` proves that the result is always the
  current month's length.
- `adduser` filters only ids that are already in the roster. An id named
  twice in one call is appended twice (`Roster.SameCallRepeatsKept`), so the
  roster is duplicate-free only when no call repeats an id.
- Frequencies are not checked. Zero or negative cadences flow through the
  date arithmetic, and `Calendar.AddDays` accepts negative day counts.
- When the assignee completes a chore, `donechore` never finishes (see
  Findings). Each pass of its loop takes one smiley from the same candidate
  and saves the ledger. Once the candidate has none left, every later pass
  rewrites the same in-memory assignee, so the registry is never saved.

## Model

| member | source | states |
|---|---|---|
| Rotation.IndexOf | chore_bot.py:206 | `list.index`: returns the first position holding the id; no earlier position holds it |
| Rotation.NextInRotation | chore_bot.py:200-208 | gives no successor exactly when the rotation is empty; otherwise the successor is always a member of the rotation |
| Rotation.SingleMemberLoops | chore_bot.py:201-202 | a one-member rotation yields its member for every current id, including ids outside it |
| Rotation.AbsentIdResets | chore_bot.py:204-205 | an id missing from a non-empty rotation yields the rotation's first member |
| Rotation.SuccessorOfFirstOccurrence | chore_bot.py:206-208 | if position i holds the first occurrence of the id, the result is the member at i+1, or the first member when i is the last position |
| Rotation.WrapsAround | chore_bot.py:207 | in [a, b, c] the successor of c is a |
| Ledger.Smileys | chore_bot.py:127-133 | a missing member or chore reads as 0; a ledger with no negative count never reads below 0 |
| Ledger.Awarded | chore_bot.py:103-111 | the (member, chore) count goes up by one, starting from 0 when absent; every other count and every other member's map are unchanged; non-negativity is kept |
| Ledger.Consumed | chore_bot.py:114-124 | the (member, chore) count becomes max(old − 1, 0), and a missing entry is created at 0; every other count is unchanged; non-negativity is kept |
| Ledger.AddSmiley | chore_bot.py:103-111 | the nested-map updates of `add_smiley` produce exactly `Awarded` |
| Ledger.RemoveSmiley | chore_bot.py:114-124 | the create, decrement and clamp steps of `remove_smiley` produce exactly `Consumed` |
| Ledger.AwardThenConsumeRestores | chore_bot.py:103-124 | awarding a smiley and then taking it back leaves every count as it was |
| Ledger.ConsumeAtZeroStaysZero | chore_bot.py:118-123 | taking a smiley from a member with none leaves the count at 0 |
| Roster.UnlistedMembers | chore_bot.py:153-158 | an id is appended exactly when the call names it and the old roster lacks it |
| Roster.UnlistedCounts | chore_bot.py:153-157 | an id missing from the roster is appended as many times as the call names it; a listed id is never appended |
| Roster.AddUsers | chore_bot.py:150-159 | the new roster is the old one followed by the unlisted ids in argument order; membership of the added ids is exact; duplicate-freedom is kept when the call names no id twice |
| Roster.SameCallRepeatsKept | chore_bot.py:153-158 | a call naming a new member twice appends that member twice |
| Roster.RemoveUser | chore_bot.py:169-175 | an unlisted id leaves the roster as it is; a listed id loses only its first occurrence (the multiset loses one copy); in a duplicate-free roster the id is gone afterwards |
| Registry.ChoreAdded | chore_bot.py:211-238 | a taken name is refused first, then an assignee not in the roster; on success exactly one key is added and the other chores are unchanged; the new chore has the given assignee and cadence and no completion record; its rotation is the mentioned ids or the roster, with the assignee appended only when absent; well-formedness is kept |
| Registry.AddChore | chore_bot.py:211-238 | the checks, the rotation construction and the insertion of `__addchore` produce exactly `ChoreAdded` |
| Registry.AddWeeklyChore | chore_bot.py:248-249 | adds the chore with a cadence of 7 days |
| Registry.AddMonthlyChore | chore_bot.py:253-256 | adds the chore with the current month's length as its cadence, always between 28 and 31 days |
| Registry.RemoveChore | chore_bot.py:260-268 | an unknown name is reported and nothing changes; otherwise exactly that key goes and the other chores are unchanged; well-formedness is kept |
| Roster.ClearedRoster | chore_bot.py:180-181 | `clearrotation` leaves a roster with no member in it |
| Registry.ClearedRegistry | chore_bot.py:272-273 | `clearchores` leaves a registry with no chore in it, which is well formed |
| Registry.ClearedRosterAdmitsNoChore | chore_bot.py:180-181 | after `clearrotation`, every `__addchore` is refused |
| Registry.ClearedRegistryFreesEveryName | chore_bot.py:272-273 | after `clearchores`, any name can be added for a roster member, and the empty registry is well formed |
| Calendar.AddDays | chore_bot.py:43 | adding n days, n of either sign, moves the ordinal day count by exactly n |
| Calendar.BeforeIsOrdinalLess | chore_bot.py:45 | the lexicographic date comparison agrees with comparing ordinal day counts |
| Calendar.MonthLengthAsComputed | chore_bot.py:254-255 | the day before the first of month `m % 12 + 1` falls on day `DaysInMonth(year, m)`, which is between 28 and 31, and is 31 for December |
| Schedule.NextChore | chore_bot.py:335-349 | an unknown name is reported; a chore never done is due now; otherwise the due date lies exactly `frequency_days` days after the last completion |
| Schedule.IsOverdue | chore_bot.py:37-45 | a chore is overdue exactly when it has been done and at least `frequency_days` days have passed since then |
| Schedule.OverduePings | chore_bot.py:32-49 | the sweep pings exactly the chores that have been done and whose cadence has elapsed, each time naming the chore's assignee |
| Schedule.PingedFromDueDateOn | chore_bot.py:43-45 | a chore with a due date is pinged about exactly when today is not before that date |
| Schedule.ReminderDelay | chore_bot.py:328-330 | the delay lies between `frequency_days`·86400 + 1 and (`frequency_days` + 1)·86400 seconds; it ends at the midnight that closes day `frequency_days` after today |
| Completion.LoopPass | chore_bot.py:315-319 | one pass changes nothing of the chore but its assignee, and only ever to the successor of the completer's id; counts stay non-negative |
| Completion.LoopPassEffect | chore_bot.py:315-319 | one pass either hands the chore to the successor of the completer's id and changes nothing else, when that candidate has no smiley, or takes exactly one smiley from the candidate and leaves the chore unchanged; no other count changes |
| Completion.Spin | chore_bot.py:314-319 | however many passes run, the chore held in memory differs from the stored one at most in its assignee: no completion is recorded |
| Completion.SpinSettles | chore_bot.py:314-319 | after more passes than the candidate has smileys, the chore is with the candidate and the candidate's smileys are used up; the candidate is the same on every pass |
| Completion.SettledSpinIsIdle | chore_bot.py:314-319 | once settled, any number of further passes changes nothing, so the loop spins without progress |
| Completion.DoneAsWritten | chore_bot.py:305-325 | an unknown name is reported; the outcome is still looping exactly when the completer is the assignee, and then the held chore records nothing and the held chore and the saved ledger are what `fuel` passes of the loop body leave; otherwise the registry is saved with the chore changed only in today's date and the author, the other chores unchanged, and the author's count up by one with every other count unchanged |
| Completion.DoneChore | chore_bot.py:305-325 | an unknown name changes nothing; a non-assignee keeps the assignee, gains one smiley and is recorded with today's date; the assignee's completion is still looping after any number of passes; the step-by-step command produces exactly `DoneAsWritten`, so the cadence is kept and the looping outcome holds the ledger the passes have saved |
| Completion.AsWrittenNeverSaves | chore_bot.py:313-319 | as written, the assignee's completion never reaches the save, whatever the number of passes |
| Completion.ConsumeLowersTotal | chore_bot.py:319 | taking a smiley from a rotation member strictly lowers the rotation's total smileys for the chore |
| Completion.Advance | chore_bot.py:313-319 | the repaired skip rule ends at a rotation member with no smiley; a starting candidate without a smiley gets the chore and the ledger is untouched; counts only fall, and only for rotation members on this chore |
| Completion.ConsumedAllCounts | chore_bot.py:319 | when distinct members each give up a smiley, each of their counts drops by one (not below zero) and no other count changes |
| Completion.AdvanceSkipsAhead | chore_bot.py:313-319 | in a rotation without repeats, going round from a member, the first k members (at most one round) who all hold a smiley are each passed over once, and the search resumes k steps on |
| Completion.AdvanceStopsAtFirstWithoutSmiley | chore_bot.py:313-319 | in a rotation without repeats, the chore goes to the first member without a smiley going round from the start, and exactly the members passed over lose one smiley each |
| Completion.AdvanceFullRound | chore_bot.py:313-319 | in a rotation without repeats where every member holds a smiley, one full round takes one from every member and the search starts over from the same member |
| Completion.Completed | chore_bot.py:305-324 | the repaired transition: an unknown name changes nothing; a known one is always saved, well formed and non-negative, with today's date and the author recorded and the other chores unchanged; the assignee's completion hands the chore and the ledger to what the skip rule gives from the completer's successor, so a successor without a smiley gets the chore with the ledger unchanged; anyone else keeps the assignee and is credited |
| Completion.CompleteChore | chore_bot.py:305-324 | the repaired loop, which advances its candidate and stops, produces exactly `Completed` |
| Completion.CompletedAlwaysSaves | chore_bot.py:313-325 | with the repair, every completion of a known chore saves both stores |
| Completion.ThreeMemberHousehold | chore_bot.py:305-324 | with roster [a, b, c] and "dishes" for a: a's completion moves it to b; c's completion keeps b and credits c; b's completion consumes c's smiley, skips c and moves the chore to a |

## Findings

| source | as written | input that shows it | evidently intended | confidence | as-written member | corrected member |
|---|---|---|---|---|---|---|
| chore_bot.py:314-319 | `while True` has no `break`, and every pass asks for the successor of the completer's id instead of the last candidate | rotation [A, B], A assigned and completing the chore: the first pass assigns B, every later pass assigns B again, and `donechore` never saves the registry or replies | start from the assignee, let each candidate who holds a smiley give one up and be skipped, stop at the first candidate without one, then save | high (not executed) | Completion.SettledSpinIsIdle | Completion.CompleteChore |

The loop body contains no `await`. Once the assignee completes a chore, the
command therefore never yields to the event loop: the bot stops handling
every other command, and the 24-hour overdue sweep never runs again.

The repaired loop stops because each skip lowers the rotation's total
smileys for the chore (`Completion.ConsumeLowersTotal`). A cap on the
number of passes is not needed. For a rotation without repeated members,
`Completion.AdvanceStopsAtFirstWithoutSmiley` and
`Completion.AdvanceFullRound` say exactly where it stops and which counts it
spends. `Completion.Completed` and the household scenario use the repaired
transition.

## Left out

- Chat-platform plumbing is not modelled: the bot and cog setup, `on_ready`, `bot.run`, member lookup, channel lookup and every reply text. This covers the `listrotation`, `listchores` and `viewsmileys` output and `adduser`'s duplicated "Added 1 user" message. It is I/O through a foreign library.
- Loading and saving the JSON files, and the empty default on a missing or broken file, are not modelled. Each store is a value passed in and returned.
- The 24-hour `tasks.loop` schedule and the `asyncio` reminder task are not modelled; they are timing and concurrency. The `* 0.00001` float scaling of the delay is left out as well, since it is floating point.
- The reminder is never actually scheduled, and the model does not show this: the assignee's branch never leaves its loop, and the other branch fails with a NameError on the unbound `assigned_to` (`chore_bot.py:332`) after the stores are saved.
- Parsing rotation mentions with a regular expression is not modelled. The parsed ids come in as `mentioned`, and `None` means no rotation text was given.
- The clock is not read. Today's date, and the hour, minute and second that are read separately for the delay, are parameters. `addmonthlychore` reads the year and the month with two separate clock calls; the model takes both from one date. Time zones are left out.
- Dates are never written as ISO text, and years are unbounded. Python's year range of 1 to 9999 is not modelled, so neither is the OverflowError at its ends (including `addmonthlychore` in December of year 1).
- The ledger's member keys are ids, not `str(id)`. Turning an id into a string is one-to-one, so counts are unaffected.
- Completion.DoneChore: observes at most `fuel` passes of a loop that never ends. It also requires a well-formed registry. A chore with an empty rotation, which no command creates, would make the source assign `None`.
- Completion.Completed: requires a ledger with no negative count, which every command preserves.
- Completion.AdvanceStopsAtFirstWithoutSmiley: covers rotations without repeated members only. A rotation can hold an id twice when a mention or an `adduser` call repeats it; for those, only the general guarantees of `Completion.Advance` are proved.
