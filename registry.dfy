/**
 * The chore registry (`chores.json`): chores by name, each with its current
 * assignee, cadence, completion record and its own rotation. This module
 * holds the creation and removal commands.
 */
module Registry {
  import opened Types
  import opened Calendar
  import Roster

  datatype Chore = Chore(
    assignedTo: UserId,
    frequencyDays: int,
    lastDone: Option<Date>,
    lastDoneBy: Option<UserId>,
    rotation: seq<UserId>)

  type Registry = map<string, Chore>

  datatype ChoreError = AlreadyExists | NotInRoster | NotFound

  /** Every chore's assignee belongs to that chore's rotation. */
  predicate WellFormed(chores: Registry) {
    forall name :: name in chores ==> chores[name].assignedTo in chores[name].rotation
  }

  /**
   * The registry after `__addchore`. An existing name is refused first, then
   * an assignee missing from the roster. The rotation is the mentioned ids
   * when the command gives any rotation text, else the roster, with the
   * assignee appended when absent.
   */
  function ChoreAdded(chores: Registry, roster: seq<UserId>, user: UserId, name: string,
                      frequencyDays: int, mentioned: Option<seq<UserId>>): (r: Result<Registry, ChoreError>)
    ensures name in chores ==> r == Failure(AlreadyExists)
    ensures name !in chores && user !in roster ==> r == Failure(NotInRoster)
    ensures r.Success? <==> name !in chores && user in roster
    ensures r.Success? ==> r.value.Keys == chores.Keys + {name}
    ensures r.Success? ==> forall n :: n in chores ==> r.value[n] == chores[n]
    ensures r.Success? ==>
      var c, base := r.value[name], mentioned.GetOr(roster);
      && c.assignedTo == user && c.frequencyDays == frequencyDays
      && c.lastDone.None? && c.lastDoneBy.None?
      && user in c.rotation
      && |base| <= |c.rotation| && c.rotation[..|base|] == base
      && c.rotation[|base|..] == (if user in base then [] else [user])
    ensures r.Success? && WellFormed(chores) ==> WellFormed(r.value)
  {
    if name in chores then Failure(AlreadyExists)
    else if user !in roster then Failure(NotInRoster)
    else
      var base := mentioned.GetOr(roster);
      var rotation := if user in base then base else base + [user];
      Success(chores[name := Chore(user, frequencyDays, None, None, rotation)])
  }

  /** `__addchore`, step by step: the two checks, the rotation, the insertion. */
  method AddChore(chores: Registry, roster: seq<UserId>, user: UserId, name: string,
                  frequencyDays: int, mentioned: Option<seq<UserId>>) returns (r: Result<Registry, ChoreError>)
    ensures r == ChoreAdded(chores, roster, user, name, frequencyDays, mentioned)
  {
    if name in chores {
      return Failure(AlreadyExists);
    }
    if user !in roster {
      return Failure(NotInRoster);
    }
    var rotation: seq<UserId>;
    if mentioned.None? {
      rotation := roster;
    } else {
      rotation := mentioned.value;
    }
    if user !in rotation {
      rotation := rotation + [user];
    }
    var updated := chores[name := Chore(user, frequencyDays, None, None, rotation)];
    return Success(updated);
  }

  /** `addweeklychore`: a chore with a cadence of seven days. */
  method AddWeeklyChore(chores: Registry, roster: seq<UserId>, user: UserId, name: string,
                        mentioned: Option<seq<UserId>>) returns (r: Result<Registry, ChoreError>)
    ensures r == ChoreAdded(chores, roster, user, name, 7, mentioned)
    ensures r.Success? ==> r.value[name].frequencyDays == 7
  {
    r := AddChore(chores, roster, user, name, 7, mentioned);
  }

  /** `addmonthlychore`: the cadence is the length of the month `today` falls in. */
  method AddMonthlyChore(chores: Registry, roster: seq<UserId>, user: UserId, name: string,
                         mentioned: Option<seq<UserId>>, today: Date) returns (r: Result<Registry, ChoreError>)
    ensures r == ChoreAdded(chores, roster, user, name, DaysInMonth(today.year, today.month), mentioned)
    ensures r.Success? ==> 28 <= r.value[name].frequencyDays <= 31
  {
    var daysInMonth := MonthLengthAsComputed(today);
    r := AddChore(chores, roster, user, name, daysInMonth, mentioned);
  }

  /** `removechore`: delete the named chore, or report that it does not exist. */
  method RemoveChore(chores: Registry, name: string) returns (r: Result<Registry, ChoreError>)
    ensures name !in chores ==> r == Failure(NotFound)
    ensures name in chores ==> r.Success? && r.value.Keys == chores.Keys - {name}
    ensures r.Success? ==> forall n :: n in r.value ==> r.value[n] == chores[n]
    ensures r.Success? && WellFormed(chores) ==> WellFormed(r.value)
  {
    if name !in chores {
      return Failure(NotFound);
    }
    var updated := chores - {name};
    return Success(updated);
  }

  /** `clearchores`: the registry is replaced by one that holds no chore. */
  function ClearedRegistry(): (r: Registry)
    ensures forall name :: name !in r
    ensures WellFormed(r)
  {
    map[]
  }

  /** Once the roster is cleared, no chore can be created until members are added again. */
  lemma ClearedRosterAdmitsNoChore(chores: Registry, user: UserId, name: string,
                                   frequencyDays: int, mentioned: Option<seq<UserId>>)
    ensures ChoreAdded(chores, Roster.ClearedRoster(), user, name, frequencyDays, mentioned).Failure?
  {
  }

  /** After the registry is cleared, every name is free again for a roster member. */
  lemma ClearedRegistryFreesEveryName(roster: seq<UserId>, user: UserId, name: string,
                                      frequencyDays: int, mentioned: Option<seq<UserId>>)
    ensures ChoreAdded(ClearedRegistry(), roster, user, name, frequencyDays, mentioned).Success?
            <==> user in roster
    ensures WellFormed(ClearedRegistry())
  {
  }
}
